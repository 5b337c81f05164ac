/** The 16-bit cyclic redundancy check of Modbus RTU and what it detects. */
module Crc {
  import opened Bytes

  // ----- one bit, one octet, a whole string -----

  const POLYNOMIAL: bv16 := 0xA001
  const INITIAL: bv16 := 0xFFFF

  function Step(c: bv16): bv16 {
    if c & 1 != 0 then (c >> 1) ^ POLYNOMIAL else c >> 1
  }

  function Steps(c: bv16, n: nat): bv16
    decreases n
  {
    if n == 0 then c else Steps(Step(c), n - 1)
  }

  function Wide(b: bv8): bv16 {
    b as bv16
  }

  function XorWord(a: bv16, b: bv16): bv16 {
    a ^ b
  }

  function Double(w: bv16): bv16 {
    w << 1
  }

  function Half(w: bv16): bv16 {
    w >> 1
  }

  predicate Odd(w: bv16) {
    w & 1 != 0
  }

  /** The top bit is clear. */
  predicate HasRoom(w: bv16) {
    w & 0x8000 == 0
  }

  function FeedOctet(c: bv16, b: bv8): bv16 {
    Steps(XorWord(c, Wide(b)), 8)
  }

  function Feed(c: bv16, m: seq<bv8>): bv16 {
    if m == [] then c else FeedOctet(Feed(c, m[..|m|-1]), m[|m|-1])
  }

  /** secure_frame_crc16 as a function. */
  function Crc16(m: seq<bv8>): bv16 {
    Feed(INITIAL, m)
  }

  method ComputeCrc16(buf: seq<bv8>) returns (crc: bv16)
    ensures crc == Crc16(buf)
  {
    hide Step, XorWord;
    crc := INITIAL;
    var i := 0;
    while i < |buf|
      invariant 0 <= i <= |buf|
      invariant crc == Feed(INITIAL, buf[..i])
    {
      assert buf[..i+1][..i] == buf[..i];
      crc := XorWord(crc, Wide(buf[i]));
      ghost var start := crc;
      var bit := 0;
      while bit < 8
        invariant 0 <= bit <= 8
        invariant Steps(start, 8) == Steps(crc, 8 - bit)
      {
        crc := Step(crc);
        bit := bit + 1;
      }
      i := i + 1;
    }
    assert buf[..i] == buf;
  }

  // ----- linearity -----

  /** The step without its branch. */
  function Spread(c: bv16): bv16 {
    (c >> 1) ^ ((c & 1) << 15) ^ ((c & 1) << 13) ^ (c & 1)
  }

  lemma StepIsSpread(c: bv16)
    ensures Step(c) == Spread(c)
  {
  }

  lemma SpreadLinear(a: bv16, b: bv16)
    ensures Spread(XorWord(a, b)) == XorWord(Spread(a), Spread(b))
  {
  }

  lemma StepLinear(a: bv16, b: bv16)
    ensures Step(XorWord(a, b)) == XorWord(Step(a), Step(b))
  {
    hide Step, Spread, XorWord;
    StepIsSpread(a);
    StepIsSpread(b);
    StepIsSpread(XorWord(a, b));
    SpreadLinear(a, b);
  }

  lemma StepZero(a: bv16)
    ensures Step(a) == 0 <==> a == 0
  {
  }

  lemma {:induction false} StepsLinear(a: bv16, b: bv16, n: nat)
    ensures Steps(XorWord(a, b), n) == XorWord(Steps(a, n), Steps(b, n))
    decreases n
  {
    hide Step, XorWord;
    if n > 0 {
      StepLinear(a, b);
      StepsLinear(Step(a), Step(b), n - 1);
    }
  }

  lemma {:induction false} StepsZero(a: bv16, n: nat)
    ensures Steps(a, n) == 0 <==> a == 0
    decreases n
  {
    hide Step;
    if n > 0 {
      StepZero(a);
      StepsZero(Step(a), n - 1);
    }
  }

  lemma XorWordAssoc(a: bv16, b: bv16, c: bv16)
    ensures XorWord(XorWord(a, b), c) == XorWord(a, XorWord(b, c))
  {
  }

  lemma XorWordComm(a: bv16, b: bv16)
    ensures XorWord(a, b) == XorWord(b, a)
  {
  }

  lemma Exchange(a: bv16, b: bv16, c: bv16, d: bv16)
    ensures XorWord(XorWord(a, b), XorWord(c, d)) == XorWord(XorWord(a, c), XorWord(b, d))
  {
    hide XorWord;
    XorWordAssoc(XorWord(a, b), c, d);
    XorWordAssoc(a, b, c);
    XorWordComm(b, c);
    XorWordAssoc(a, c, b);
    XorWordAssoc(XorWord(a, c), b, d);
  }

  lemma WideXor(x: bv8, y: bv8)
    ensures Wide(XorOctet(x, y)) == XorWord(Wide(x), Wide(y))
  {
  }

  /** Feeding is linear in the state and the text together, so the check is affine in the text. */
  lemma {:induction false} FeedLinear(a: bv16, b: bv16, m: seq<bv8>, n: seq<bv8>)
    requires |m| == |n|
    ensures Feed(XorWord(a, b), Xor(m, n)) == XorWord(Feed(a, m), Feed(b, n))
  {
    hide XorWord, XorOctet, Steps, Wide;
    if m != [] {
      var k := |m| - 1;
      FeedLinear(a, b, m[..k], n[..k]);
      assert Xor(m, n)[..k] == Xor(m[..k], n[..k]) && Xor(m, n)[k] == XorOctet(m[k], n[k]);
      var s, t := Feed(a, m[..k]), Feed(b, n[..k]);
      Exchange(s, Wide(m[k]), t, Wide(n[k]));
      WideXor(m[k], n[k]);
      StepsLinear(XorWord(s, Wide(m[k])), XorWord(t, Wide(n[k])), 8);
    }
  }

  lemma XorWordLaws(a: bv16, b: bv16)
    ensures XorWord(a, 0) == a && XorWord(0, a) == a
    ensures XorWord(a, b) == 0 <==> a == b
  {
  }

  /** The difference of two checks depends only on the difference of the texts. */
  lemma CrcAffine(m: seq<bv8>, e: seq<bv8>)
    requires |m| == |e|
    ensures Crc16(Xor(m, e)) == XorWord(Crc16(m), Feed(0, e))
  {
    hide Feed, XorWord;
    FeedLinear(INITIAL, 0, m, e);
    XorWordLaws(INITIAL, 0);
  }

  // ----- the residue -----

  function Low(c: bv16): bv8 {
    (c & 0xFF) as bv8
  }

  function High(c: bv16): bv8 {
    (c >> 8) as bv8
  }

  /** A text followed by a check, low octet first. */
  function Protected(m: seq<bv8>, c: bv16): seq<bv8> {
    m + [Low(c), High(c)]
  }

  /** The check a receiver reads from two octets. */
  function Join(low: bv8, high: bv8): bv16 {
    Wide(low) | (Wide(high) << 8)
  }

  lemma JoinIsXor(low: bv8, high: bv8)
    ensures Join(low, high) == XorWord(Wide(low), Wide(high) << 8)
  {
  }

  /** What the receiver tests: the check of all but two octets against the last two. */
  predicate Accepted(w: seq<bv8>)
    requires |w| >= 2
  {
    Crc16(w[..|w|-2]) == Join(w[|w|-2], w[|w|-1])
  }

  lemma {:induction false} StepsAdd(a: bv16, m: nat, n: nat)
    ensures Steps(Steps(a, m), n) == Steps(a, m + n)
    decreases m
  {
    hide Step;
    if m > 0 {
      StepsAdd(Step(a), m - 1, n);
    }
  }

  /** Eight steps move a high octet down without feedback. */
  lemma HighOctetMovesDown(b: bv8)
    ensures Steps(Wide(b) << 8, 8) == Wide(b)
  {
    var c := Wide(b) << 8;
    assert Step(c) == c >> 1;
    assert Step(c >> 1) == c >> 2;
    assert Step(c >> 2) == c >> 3;
    assert Step(c >> 3) == c >> 4;
    assert Step(c >> 4) == c >> 5;
    assert Step(c >> 5) == c >> 6;
    assert Step(c >> 6) == c >> 7;
    assert Step(c >> 7) == c >> 8;
    hide Step;
  }

  /** Two octets fed one after the other are sixteen steps on their word. */
  lemma FeedTwo(s: bv16, x: bv8, y: bv8)
    ensures FeedOctet(FeedOctet(s, x), y) == Steps(XorWord(s, XorWord(Wide(x), Wide(y) << 8)), 16)
  {
    hide XorWord, Steps, Wide;
    var a, b := XorWord(s, Wide(x)), Wide(y) << 8;
    HighOctetMovesDown(y);
    StepsLinear(a, b, 8);
    StepsAdd(XorWord(a, b), 8, 8);
    XorWordAssoc(s, Wide(x), b);
  }

  /** The receiver accepts exactly the texts whose own check is zero. */
  lemma ZeroResidue(w: seq<bv8>)
    requires |w| >= 2
    ensures Accepted(w) <==> Crc16(w) == 0
  {
    JoinIsXor(w[|w|-2], w[|w|-1]);
    hide XorWord, Steps, Wide, FeedOctet, Join;
    var n := |w|;
    var s, x, y := Crc16(w[..n-2]), w[n-2], w[n-1];
    assert w[..n-1][..n-2] == w[..n-2];
    assert Feed(INITIAL, w[..n-1]) == FeedOctet(s, x);
    FeedTwo(s, x, y);
    var v := XorWord(Wide(x), Wide(y) << 8);
    StepsZero(XorWord(s, v), 16);
    XorWordLaws(s, v);
  }

  lemma LowHigh(c: bv16)
    ensures Join(Low(c), High(c)) == c
  {
  }

  /** A protected text is accepted exactly when its check is right. */
  lemma ProtectedAccepted(m: seq<bv8>, c: bv16)
    ensures Accepted(Protected(m, c)) <==> c == Crc16(m)
  {
    hide Join, Low, High, Crc16;
    LowHigh(c);
    assert Protected(m, c)[..|m|] == m;
  }

  // ----- bursts -----

  /** The n lowest bits of a word, lowest first. */
  function LowBits(w: bv16, n: nat): (s: seq<bool>)
    ensures |s| == n
    decreases n
  {
    if n == 0 then [] else [Odd(w)] + LowBits(Half(w), n - 1)
  }

  /** The bits of an octet in transmission order. */
  function OctetBits(b: bv8): (s: seq<bool>)
    ensures |s| == 8
  {
    LowBits(Wide(b), 8)
  }

  function Bits(m: seq<bv8>): (s: seq<bool>)
    ensures |s| == 8 * |m|
  {
    if m == [] then [] else Bits(m[..|m|-1]) + OctetBits(m[|m|-1])
  }

  lemma {:induction false} BitsAt(m: seq<bv8>, i: nat, j: nat)
    requires i < |m| && j < 8
    ensures Bits(m)[8*i+j] == OctetBits(m[i])[j]
  {
    hide OctetBits;
    if i < |m| - 1 {
      BitsAt(m[..|m|-1], i, j);
    }
  }

  function BitWord(b: bool): bv16 {
    if b then 1 else 0
  }

  /** The register run bit by bit. */
  function Shift(c: bv16, s: seq<bool>): bv16
    decreases s
  {
    if s == [] then c else Shift(Step(XorWord(c, BitWord(s[0]))), s[1..])
  }

  /** The word of at most sixteen bits, first bit lowest. */
  function WordOf(s: seq<bool>): bv16 {
    if s == [] then 0 else XorWord(BitWord(s[0]), Double(WordOf(s[1..])))
  }

  function Mask(n: nat): bv16
    requires n <= 16
  {
    match n
    case 0 => 0 case 1 => 1 case 2 => 3 case 3 => 7 case 4 => 15 case 5 => 31 case 6 => 63 case 7 => 127
    case 8 => 0xFF case 9 => 0x1FF case 10 => 0x3FF case 11 => 0x7FF case 12 => 0xFFF case 13 => 0x1FFF
    case 14 => 0x3FFF case 15 => 0x7FFF case _ => 0xFFFF
  }

  predicate Fits(w: bv16, n: nat)
    requires n <= 16
  {
    w & Mask(n) == w
  }

  lemma FitsWithRoom(w: bv16, n: nat)
    requires n < 16 && Fits(w, n)
    ensures HasRoom(w) && Fits(Double(w), n + 1)
  {
    match n
    case 0 => case 1 => case 2 => case 3 => case 4 => case 5 => case 6 => case 7 =>
    case 8 => case 9 => case 10 => case 11 => case 12 => case 13 => case 14 => case _ =>
  }

  lemma LowBitFits(w: bv16, b: bool, n: nat)
    requires 0 < n <= 16 && Fits(w, n)
    ensures Fits(XorWord(BitWord(b), w), n)
  {
    match n
    case 1 => case 2 => case 3 => case 4 => case 5 => case 6 => case 7 => case 8 =>
    case 9 => case 10 => case 11 => case 12 => case 13 => case 14 => case 15 => case _ =>
  }

  lemma FitsMore(w: bv16, b: bool, n: nat)
    requires n < 16 && Fits(w, n)
    ensures HasRoom(w)
    ensures Fits(XorWord(BitWord(b), Double(w)), n + 1)
  {
    hide Fits, XorWord, BitWord, Double, HasRoom;
    FitsWithRoom(w, n);
    LowBitFits(Double(w), b, n + 1);
  }

  lemma FitsLess(w: bv16, n: nat)
    requires 0 < n <= 16 && Fits(w, n)
    ensures Fits(Half(w), n - 1)
  {
    match n
    case 1 => case 2 => case 3 => case 4 => case 5 => case 6 => case 7 => case 8 =>
    case 9 => case 10 => case 11 => case 12 => case 13 => case 14 => case 15 => case _ =>
  }

  lemma {:induction false} WordFits(s: seq<bool>)
    requires |s| <= 16
    ensures Fits(WordOf(s), |s|)
  {
    hide XorWord, BitWord, Fits, Double, HasRoom;
    if s == [] {
      ZeroFits();
    } else {
      WordFits(s[1..]);
      FitsMore(WordOf(s[1..]), s[0], |s| - 1);
    }
  }

  lemma FitsNothing(w: bv16)
    requires Fits(w, 0)
    ensures w == 0
  {
  }

  lemma ZeroFits()
    ensures Fits(0, 0)
  {
  }

  lemma EvenStep(w: bv16)
    requires HasRoom(w)
    ensures Step(Double(w)) == w
  {
  }

  /** One step of the register takes one bit off the word. */
  lemma PeelBit(c: bv16, b: bool, w: bv16)
    requires HasRoom(w)
    ensures Step(XorWord(c, XorWord(BitWord(b), Double(w)))) == XorWord(Step(XorWord(c, BitWord(b))), w)
  {
    hide Step, XorWord, Double, HasRoom, BitWord;
    XorWordAssoc(c, BitWord(b), Double(w));
    StepLinear(XorWord(c, BitWord(b)), Double(w));
    EvenStep(w);
  }

  lemma {:induction false} ShiftIsSteps(c: bv16, s: seq<bool>)
    requires |s| <= 16
    ensures Shift(c, s) == Steps(XorWord(c, WordOf(s)), |s|)
    decreases s
  {
    hide XorWord, BitWord, Step, Fits, Double, HasRoom;
    if s == [] {
      XorWordLaws(c, 0);
    } else {
      ShiftIsSteps(Step(XorWord(c, BitWord(s[0]))), s[1..]);
      WordFits(s[1..]);
      FitsMore(WordOf(s[1..]), s[0], |s| - 1);
      PeelBit(c, s[0], WordOf(s[1..]));
    }
  }

  lemma BitOnly(b: bool, w: bv16)
    requires HasRoom(w)
    ensures XorWord(BitWord(b), Double(w)) == 0 <==> !b && w == 0
  {
  }

  /** At most sixteen bits leave the register at zero only if they are all zero. */
  lemma {:induction false} WordZero(s: seq<bool>)
    requires |s| <= 16
    ensures WordOf(s) == 0 <==> forall i | 0 <= i < |s| :: !s[i]
  {
    hide XorWord, BitWord, Fits, Double, HasRoom;
    if s != [] {
      WordZero(s[1..]);
      WordFits(s[1..]);
      FitsMore(WordOf(s[1..]), s[0], |s| - 1);
      BitOnly(s[0], WordOf(s[1..]));
      assert s == [s[0]] + s[1..];
    }
  }

  lemma {:induction false} ShiftConcat(c: bv16, s: seq<bool>, t: seq<bool>)
    ensures Shift(c, s + t) == Shift(Shift(c, s), t)
    decreases s
  {
    hide XorWord, BitWord, Step;
    if s == [] {
      assert s + t == t;
    } else {
      assert (s + t)[1..] == s[1..] + t;
      ShiftConcat(Step(XorWord(c, BitWord(s[0]))), s[1..], t);
    }
  }

  lemma {:induction false} ShiftZeros(c: bv16, s: seq<bool>)
    requires forall i | 0 <= i < |s| :: !s[i]
    ensures Shift(c, s) == 0 <==> c == 0
    decreases s
  {
    hide XorWord, Step;
    if s != [] {
      XorWordLaws(c, 0);
      StepZero(c);
      ShiftZeros(Step(c), s[1..]);
    }
  }

  lemma LowestBit(w: bv16)
    ensures XorWord(BitWord(Odd(w)), Double(Half(w))) == w
  {
  }

  lemma {:induction false} WordOfLowBits(w: bv16, n: nat)
    requires n <= 16 && Fits(w, n)
    ensures WordOf(LowBits(w, n)) == w
    decreases n
  {
    hide XorWord, BitWord, Fits, Double, Half, Odd;
    if n == 0 {
      FitsNothing(w);
    } else {
      FitsLess(w, n);
      WordOfLowBits(Half(w), n - 1);
      LowestBit(w);
      assert LowBits(w, n)[1..] == LowBits(Half(w), n - 1);
    }
  }

  lemma OctetFits(b: bv8)
    ensures Fits(Wide(b), 8)
  {
  }

  lemma OctetWord(b: bv8)
    ensures WordOf(OctetBits(b)) == Wide(b)
  {
    OctetFits(b);
    hide WordOf, LowBits, Wide, Fits;
    WordOfLowBits(Wide(b), 8);
  }

  /** Feeding octets is running their bits. */
  lemma {:induction false} FeedIsShift(c: bv16, m: seq<bv8>)
    ensures Feed(c, m) == Shift(c, Bits(m))
  {
    hide XorWord, Step, OctetBits, Wide, BitWord;
    if m != [] {
      var k := |m| - 1;
      FeedIsShift(c, m[..k]);
      ShiftConcat(c, Bits(m[..k]), OctetBits(m[k]));
      ShiftIsSteps(Feed(c, m[..k]), OctetBits(m[k]));
      OctetWord(m[k]);
    }
  }

  /** A nonzero pattern inside sixteen consecutive bits leaves a nonzero register. */
  lemma BurstNonzero(s: seq<bool>, p: nat)
    requires p + 16 <= |s|
    requires forall i | 0 <= i < |s| && s[i] :: p <= i < p + 16
    requires exists i | 0 <= i < |s| :: s[i]
    ensures Shift(0, s) != 0
  {
    hide XorWord, Step, BitWord;
    var a, w, z := s[..p], s[p..p+16], s[p+16..];
    assert s == (a + w) + z;
    ShiftConcat(0, a + w, z);
    ShiftConcat(0, a, w);
    ShiftZeros(0, a);
    ShiftIsSteps(0, w);
    XorWordLaws(WordOf(w), 0);
    StepsZero(WordOf(w), 16);
    WordZero(w);
    var i :| 0 <= i < |s| && s[i];
    assert w[i-p];
    ShiftZeros(Shift(0, a + w), z);
  }

  /** Any error confined to sixteen consecutive bits, anywhere in an accepted text of any length,
      makes the receiver reject it. */
  lemma BurstDetected(w: seq<bv8>, e: seq<bv8>, p: nat)
    requires |w| == |e| >= 2 && Accepted(w)
    requires forall i | 0 <= i < 8 * |e| && Bits(e)[i] :: p <= i < p + 16
    requires exists i | 0 <= i < 8 * |e| :: Bits(e)[i]
    ensures !Accepted(Xor(w, e))
  {
    hide XorWord, Feed, Accepted, Bits, Xor;
    ZeroResidue(w);
    ZeroResidue(Xor(w, e));
    CrcAffine(w, e);
    FeedIsShift(0, e);
    BurstNonzero(Bits(e), if p + 16 <= 8 * |e| then p else 8 * |e| - 16);
    XorWordLaws(Feed(0, e), 0);
  }
}
