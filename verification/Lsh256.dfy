/** The LSH-256 compression function: the in-place code of the library is the step definition of the
    specification, and a bijection on the chaining value for every message block. */
module Lsh256 {
  import opened Words

  /** Half a chaining value, or a quarter of two expanded messages. */
  type Half = s: seq<bv32> | |s| == 8 witness [0, 0, 0, 0, 0, 0, 0, 0]

  const ZERO_HALF: Half := [0, 0, 0, 0, 0, 0, 0, 0]
  const NUM_STEPS: nat := 26

  /** The constants of all steps, eight words each. */
  type StepConstants = s: seq<Half> | |s| == NUM_STEPS witness seq(NUM_STEPS, _ => ZERO_HALF)

  // ----- words -----

  /** The rotation amounts in use. */
  predicate Amount(n: nat) {
    n == 0 || n == 1 || n == 5 || n == 8 || n == 16 || n == 17 || n == 24 || n == 29
  }

  function Rotl(x: bv32, n: nat): bv32
    requires Amount(n)
  {
    match n
    case 1 => Rotl1(x)
    case 5 => Rotl5(x)
    case 8 => Rotl8(x)
    case 16 => Rotl16(x)
    case 17 => Rotl17(x)
    case 24 => Rotl24(x)
    case 29 => Rotl29(x)
    case _ => x
  }

  function Rotr(x: bv32, n: nat): bv32
    requires Amount(n)
  {
    match n
    case 1 => Rotr1(x)
    case 5 => Rotr5(x)
    case 8 => Rotr8(x)
    case 16 => Rotr16(x)
    case 17 => Rotr17(x)
    case 24 => Rotr24(x)
    case 29 => Rotr29(x)
    case _ => x
  }

  // ----- the specification -----

  function Alpha(j: nat): (n: nat)
    ensures Amount(n)
  {
    if j % 2 == 0 then 29 else 5
  }

  function Beta(j: nat): (n: nat)
    ensures Amount(n)
  {
    if j % 2 == 0 then 1 else 17
  }

  function Gamma(i: nat): (n: nat)
    ensures Amount(n)
  {
    match i
    case 1 => 8 case 2 => 16 case 3 => 24 case 4 => 24 case 5 => 16 case 6 => 8 case _ => 0
  }

  /** The message expansion permutation, the same in both halves. */
  function Tau(i: nat): (n: nat)
    requires i < 8
    ensures n < 8
  {
    match i
    case 0 => 3 case 1 => 2 case 2 => 0 case 3 => 1 case 4 => 7 case 5 => 4 case 6 => 5 case _ => 6
  }

  /** The word permutation of a step. */
  function Sigma(i: nat): (n: nat)
    requires i < 16
    ensures n < 16
  {
    match i
    case 0 => 6 case 1 => 4 case 2 => 5 case 3 => 7 case 4 => 12 case 5 => 15 case 6 => 14 case 7 => 13
    case 8 => 2 case 9 => 0 case 10 => 1 case 11 => 3 case 12 => 8 case 13 => 11 case 14 => 10 case _ => 9
  }

  function AddHalf(a: Half, b: Half): Half {
    seq(8, i requires 0 <= i < 8 => Add(a[i], b[i]))
  }

  function SubHalf(a: Half, b: Half): Half {
    seq(8, i requires 0 <= i < 8 => Sub(a[i], b[i]))
  }

  function XorHalf(a: Half, b: Half): Half {
    seq(8, i requires 0 <= i < 8 => XorWord(a[i], b[i]))
  }

  function RotHalf(a: Half, n: nat): Half
    requires Amount(n)
  {
    seq(8, i requires 0 <= i < 8 => Rotl(a[i], n))
  }

  function GammaHalf(a: Half): Half {
    seq(8, i requires 0 <= i < 8 => Rotl(a[i], Gamma(i)))
  }

  /** Two halves side by side: the chaining value, or one expanded message. */
  datatype Pair = Pair(l: Half, r: Half)

  function At(p: Pair, i: nat): bv32
    requires i < 16
  {
    if i < 8 then p.l[i] else p.r[i-8]
  }

  function MsgAdd(t: Pair, m: Pair): Pair {
    Pair(XorHalf(t.l, m.l), XorHalf(t.r, m.r))
  }

  function Mix(t: Pair, c: Half, alpha: nat, beta: nat): Pair
    requires Amount(alpha) && Amount(beta)
  {
    var l := XorHalf(RotHalf(AddHalf(t.l, t.r), alpha), c);
    var r := RotHalf(AddHalf(t.r, l), beta);
    Pair(AddHalf(l, r), GammaHalf(r))
  }

  function WordPerm(t: Pair): Pair {
    Pair(seq(8, i requires 0 <= i < 8 => At(t, Sigma(i))), seq(8, i requires 0 <= i < 8 => At(t, Sigma(8 + i))))
  }

  /** The expansion of one half: the newer message plus the permuted older one. */
  function ExpandHalf(newer: Half, older: Half): Half {
    seq(8, i requires 0 <= i < 8 => Add(newer[i], older[Tau(i)]))
  }

  /** Expanded message j of a block: its two halves first, then the recurrence. */
  function Msg(m: (Pair, Pair), j: nat): Pair {
    if j == 0 then m.0
    else if j == 1 then m.1
    else
      var newer, older := Msg(m, j - 1), Msg(m, j - 2);
      Pair(ExpandHalf(newer.l, older.l), ExpandHalf(newer.r, older.r))
  }

  function Step(t: Pair, m: (Pair, Pair), sc: StepConstants, j: nat): Pair
    requires j < NUM_STEPS
  {
    WordPerm(Mix(MsgAdd(t, Msg(m, j)), sc[j], Alpha(j), Beta(j)))
  }

  function Steps(t: Pair, m: (Pair, Pair), sc: StepConstants, n: nat): Pair
    requires n <= NUM_STEPS
  {
    if n == 0 then t else Step(Steps(t, m, sc, n - 1), m, sc, n - 1)
  }

  function CompressPair(t: Pair, m: (Pair, Pair), sc: StepConstants): Pair {
    MsgAdd(Steps(t, m, sc, NUM_STEPS), Msg(m, NUM_STEPS))
  }

  // ----- the code, in place -----

  lemma Same(s: Half, t: Half)
    requires s[0] == t[0] && s[1] == t[1] && s[2] == t[2] && s[3] == t[3]
    requires s[4] == t[4] && s[5] == t[5] && s[6] == t[6] && s[7] == t[7]
    ensures s == t
  {
  }

  method AddBlk(a: array<bv32>, b: array<bv32>)
    requires a.Length == b.Length == 8 && a != b
    modifies a
    ensures a[..] == AddHalf(old(a[..]), b[..])
  {
    hide Add;
    a[0] := Add(a[0], b[0]);
    a[1] := Add(a[1], b[1]);
    a[2] := Add(a[2], b[2]);
    a[3] := Add(a[3], b[3]);
    a[4] := Add(a[4], b[4]);
    a[5] := Add(a[5], b[5]);
    a[6] := Add(a[6], b[6]);
    a[7] := Add(a[7], b[7]);
    Same(a[..], AddHalf(old(a[..]), b[..]));
  }

  method XorBlk(a: array<bv32>, b: Half)
    requires a.Length == 8
    modifies a
    ensures a[..] == XorHalf(old(a[..]), b)
  {
    hide XorWord;
    a[0] := XorWord(a[0], b[0]);
    a[1] := XorWord(a[1], b[1]);
    a[2] := XorWord(a[2], b[2]);
    a[3] := XorWord(a[3], b[3]);
    a[4] := XorWord(a[4], b[4]);
    a[5] := XorWord(a[5], b[5]);
    a[6] := XorWord(a[6], b[6]);
    a[7] := XorWord(a[7], b[7]);
    Same(a[..], XorHalf(old(a[..]), b));
  }

  method RotateBlk(a: array<bv32>, n: nat)
    requires a.Length == 8 && Amount(n)
    modifies a
    ensures a[..] == RotHalf(old(a[..]), n)
  {
    hide Rotl;
    a[0] := Rotl(a[0], n);
    a[1] := Rotl(a[1], n);
    a[2] := Rotl(a[2], n);
    a[3] := Rotl(a[3], n);
    a[4] := Rotl(a[4], n);
    a[5] := Rotl(a[5], n);
    a[6] := Rotl(a[6], n);
    a[7] := Rotl(a[7], n);
    Same(a[..], RotHalf(old(a[..]), n));
  }

  lemma GammaWords(s: Half)
    ensures GammaHalf(s) ==
      [s[0], Rotl(s[1], 8), Rotl(s[2], 16), Rotl(s[3], 24), Rotl(s[4], 24), Rotl(s[5], 16), Rotl(s[6], 8), s[7]]
  {
    assert Rotl(s[0], Gamma(0)) == s[0] && Rotl(s[7], Gamma(7)) == s[7];
    hide Rotl;
  }

  /** Only six of the words move. */
  method RotateMsgGamma(a: array<bv32>)
    requires a.Length == 8
    modifies a
    ensures a[..] == GammaHalf(old(a[..]))
  {
    hide Rotl, GammaHalf;
    GammaWords(a[..]);
    a[1] := Rotl(a[1], 8);
    a[2] := Rotl(a[2], 16);
    a[3] := Rotl(a[3], 24);
    a[4] := Rotl(a[4], 24);
    a[5] := Rotl(a[5], 16);
    a[6] := Rotl(a[6], 8);
  }

  /** Two cycles of four words, each through one temporary. */
  method MsgExpHalf(e: array<bv32>, o: array<bv32>)
    requires e.Length == o.Length == 8 && e != o
    modifies e
    ensures e[..] == ExpandHalf(o[..], old(e[..]))
  {
    hide Add;
    var temp := e[0];
    e[0] := Add(o[0], e[3]);
    e[3] := Add(o[3], e[1]);
    e[1] := Add(o[1], e[2]);
    e[2] := Add(o[2], temp);
    temp := e[4];
    e[4] := Add(o[4], e[7]);
    e[7] := Add(o[7], e[6]);
    e[6] := Add(o[6], e[5]);
    e[5] := Add(o[5], temp);
    Same(e[..], ExpandHalf(o[..], old(e[..])));
  }

  lemma WordPermDisplay(t: Pair, l: Half, r: Half)
    requires l[0] == t.l[6] && l[1] == t.l[4] && l[2] == t.l[5] && l[3] == t.l[7]
    requires l[4] == t.r[4] && l[5] == t.r[7] && l[6] == t.r[6] && l[7] == t.r[5]
    requires r[0] == t.l[2] && r[1] == t.l[0] && r[2] == t.l[1] && r[3] == t.l[3]
    requires r[4] == t.r[0] && r[5] == t.r[3] && r[6] == t.r[2] && r[7] == t.r[1]
    ensures Pair(l, r) == WordPerm(t)
  {
    Same(l, WordPerm(t).l);
    Same(r, WordPerm(t).r);
  }

  /** The first half of a cycle of twelve words over both halves. */
  method CycleStart(l: array<bv32>, r: array<bv32>) returns (temp: bv32)
    requires l.Length == r.Length == 8 && l != r
    modifies l, r
    ensures temp == old(l[0])
    ensures l[0] == old(l[6]) && l[1] == old(l[4]) && l[2] == old(l[2]) && l[3] == old(l[3])
    ensures l[4] == old(r[4]) && l[5] == old(l[5]) && l[6] == old(r[6]) && l[7] == old(l[7])
    ensures r[0] == old(r[0]) && r[1] == old(r[1]) && r[2] == old(l[1]) && r[3] == old(r[3])
    ensures r[4] == old(r[4]) && r[5] == old(r[5]) && r[6] == old(r[2]) && r[7] == old(r[7])
  {
    temp := l[0];
    l[0] := l[6];
    l[6] := r[6];
    r[6] := r[2];
    r[2] := l[1];
    l[1] := l[4];
    l[4] := r[4];
  }

  method CycleEnd(l: array<bv32>, r: array<bv32>, temp: bv32)
    requires l.Length == r.Length == 8 && l != r
    modifies l, r
    ensures l[0] == old(l[0]) && l[1] == old(l[1]) && l[2] == old(l[5]) && l[3] == old(l[3])
    ensures l[4] == old(l[4]) && l[5] == old(r[7]) && l[6] == old(l[6]) && l[7] == old(l[7])
    ensures r[0] == old(l[2]) && r[1] == temp && r[2] == old(r[2]) && r[3] == old(r[3])
    ensures r[4] == old(r[0]) && r[5] == old(r[5]) && r[6] == old(r[6]) && r[7] == old(r[1])
  {
    r[4] := r[0];
    r[0] := l[2];
    l[2] := l[5];
    l[5] := r[7];
    r[7] := r[1];
    r[1] := temp;
  }

  /** A cycle of four words. */
  method ShortCycle(l: array<bv32>, r: array<bv32>)
    requires l.Length == r.Length == 8 && l != r
    modifies l, r
    ensures l[0] == old(l[0]) && l[1] == old(l[1]) && l[2] == old(l[2]) && l[3] == old(l[7])
    ensures l[4] == old(l[4]) && l[5] == old(l[5]) && l[6] == old(l[6]) && l[7] == old(r[5])
    ensures r[0] == old(r[0]) && r[1] == old(r[1]) && r[2] == old(r[2]) && r[3] == old(l[3])
    ensures r[4] == old(r[4]) && r[5] == old(r[3]) && r[6] == old(r[6]) && r[7] == old(r[7])
  {
    var temp := l[3];
    l[3] := l[7];
    l[7] := r[5];
    r[5] := r[3];
    r[3] := temp;
  }

  method WordPermInPlace(l: array<bv32>, r: array<bv32>)
    requires l.Length == r.Length == 8 && l != r
    modifies l, r
    ensures Pair(l[..], r[..]) == WordPerm(Pair(old(l[..]), old(r[..])))
  {
    hide WordPerm;
    ghost var t := Pair(l[..], r[..]);
    var temp := CycleStart(l, r);
    CycleEnd(l, r, temp);
    ShortCycle(l, r);
    WordPermDisplay(t, l[..], r[..]);
  }

  method MixInPlace(l: array<bv32>, r: array<bv32>, c: Half, alpha: nat, beta: nat)
    requires l.Length == r.Length == 8 && l != r && Amount(alpha) && Amount(beta)
    modifies l, r
    ensures Pair(l[..], r[..]) == Mix(Pair(old(l[..]), old(r[..])), c, alpha, beta)
  {
    hide AddHalf, XorHalf, RotHalf, GammaHalf;
    AddBlk(l, r);
    RotateBlk(l, alpha);
    XorBlk(l, c);
    AddBlk(r, l);
    RotateBlk(r, beta);
    AddBlk(l, r);
    RotateMsgGamma(r);
  }

  // ----- the whole compression -----

  /** Word quarter h of a block. */
  function HalfOf(block: seq<bv8>, h: nat): Half
    requires |block| == 128 && h < 4
  {
    seq(8, i requires 0 <= i < 8 => LoadWord(block[32*h+4*i..32*h+4*i+4]))
  }

  function Loaded(block: seq<bv8>): (Pair, Pair)
    requires |block| == 128
  {
    (Pair(HalfOf(block, 0), HalfOf(block, 1)), Pair(HalfOf(block, 2), HalfOf(block, 3)))
  }

  function Compress(t: Pair, block: seq<bv8>, sc: StepConstants): Pair
    requires |block| == 128
  {
    CompressPair(t, Loaded(block), sc)
  }

  /** The expanded messages a compression keeps: the last even one and the last odd one. */
  class SubMessages {
    const el: array<bv32>
    const er: array<bv32>
    const ol: array<bv32>
    const or': array<bv32>

    ghost predicate Valid() {
      && el.Length == er.Length == ol.Length == or'.Length == 8
      && el != er && el != ol && el != or' && er != ol && er != or' && ol != or'
    }

    ghost function Even(): Pair
      requires Valid()
      reads el, er
    {
      Pair(el[..], er[..])
    }

    ghost function Odd(): Pair
      requires Valid()
      reads ol, or'
    {
      Pair(ol[..], or'[..])
    }

    constructor (block: seq<bv8>)
      requires |block| == 128
      ensures Valid() && fresh(el) && fresh(er) && fresh(ol) && fresh(or')
      ensures (Even(), Odd()) == Loaded(block)
    {
      hide HalfOf;
      el := new bv32[8](i requires 0 <= i < 8 => HalfOf(block, 0)[i]);
      er := new bv32[8](i requires 0 <= i < 8 => HalfOf(block, 1)[i]);
      ol := new bv32[8](i requires 0 <= i < 8 => HalfOf(block, 2)[i]);
      or' := new bv32[8](i requires 0 <= i < 8 => HalfOf(block, 3)[i]);
      new;
      assert el[..] == HalfOf(block, 0) && er[..] == HalfOf(block, 1);
      assert ol[..] == HalfOf(block, 2) && or'[..] == HalfOf(block, 3);
    }

    method ExpandEven(ghost m: (Pair, Pair), ghost j: nat)
      requires Valid() && Even() == Msg(m, j) && Odd() == Msg(m, j + 1)
      modifies el, er
      ensures Even() == Msg(m, j + 2)
    {
      hide ExpandHalf;
      MsgExpHalf(el, ol);
      MsgExpHalf(er, or');
    }

    method ExpandOdd(ghost m: (Pair, Pair), ghost j: nat)
      requires Valid() && Odd() == Msg(m, j) && Even() == Msg(m, j + 1)
      modifies ol, or'
      ensures Odd() == Msg(m, j + 2)
    {
      hide ExpandHalf;
      MsgExpHalf(ol, el);
      MsgExpHalf(or', er);
    }
  }

  /** Message addition, mixing and word permutation of step j. */
  method StepInPlace(l: array<bv32>, r: array<bv32>, w: Pair, sc: StepConstants, j: nat,
                     ghost t: Pair, ghost m: (Pair, Pair))
    requires l.Length == r.Length == 8 && l != r && j < NUM_STEPS
    requires Pair(l[..], r[..]) == Steps(t, m, sc, j) && w == Msg(m, j)
    modifies l, r
    ensures Pair(l[..], r[..]) == Steps(t, m, sc, j + 1)
  {
    hide XorHalf, Mix, WordPerm, Msg;
    XorBlk(l, w.l);
    XorBlk(r, w.r);
    MixInPlace(l, r, sc[j], Alpha(j), Beta(j));
    WordPermInPlace(l, r);
  }

  /** Two steps with their expansions, as often as the loop of the compression runs them. */
  method StepPair(l: array<bv32>, r: array<bv32>, s: SubMessages, sc: StepConstants, i: nat,
                  ghost t: Pair, ghost m: (Pair, Pair))
    requires l.Length == r.Length == 8 && l != r && 1 <= i < NUM_STEPS / 2
    requires s.Valid() && {l, r} !! {s.el, s.er, s.ol, s.or'}
    requires Pair(l[..], r[..]) == Steps(t, m, sc, 2 * i)
    requires s.Even() == Msg(m, 2 * i - 2) && s.Odd() == Msg(m, 2 * i - 1)
    modifies l, r, s.el, s.er, s.ol, s.or'
    ensures Pair(l[..], r[..]) == Steps(t, m, sc, 2 * i + 2)
    ensures s.Even() == Msg(m, 2 * i) && s.Odd() == Msg(m, 2 * i + 1)
  {
    hide Steps, Msg;
    s.ExpandEven(m, 2 * i - 2);
    StepInPlace(l, r, Pair(s.el[..], s.er[..]), sc, 2 * i, t, m);
    s.ExpandOdd(m, 2 * i - 1);
    StepInPlace(l, r, Pair(s.ol[..], s.or'[..]), sc, 2 * i + 1, t, m);
  }

  method FirstPair(l: array<bv32>, r: array<bv32>, s: SubMessages, sc: StepConstants,
                   ghost t: Pair, ghost m: (Pair, Pair))
    requires l.Length == r.Length == 8 && l != r
    requires s.Valid() && {l, r} !! {s.el, s.er, s.ol, s.or'}
    requires Pair(l[..], r[..]) == t && (s.Even(), s.Odd()) == m
    modifies l, r
    ensures Pair(l[..], r[..]) == Steps(t, m, sc, 2)
    ensures s.Even() == Msg(m, 0) && s.Odd() == Msg(m, 1)
  {
    FirstSteps(t, m, sc);
    hide Steps, Msg;
    StepInPlace(l, r, Pair(s.el[..], s.er[..]), sc, 0, t, m);
    StepInPlace(l, r, Pair(s.ol[..], s.or'[..]), sc, 1, t, m);
  }

  method CompressInPlace(l: array<bv32>, r: array<bv32>, block: seq<bv8>, sc: StepConstants)
    requires l.Length == r.Length == 8 && l != r && |block| == 128
    modifies l, r
    ensures Pair(l[..], r[..]) == Compress(Pair(old(l[..]), old(r[..])), block, sc)
  {
    hide Steps, Msg, CompressPair, Loaded;
    ghost var t, m := Pair(l[..], r[..]), Loaded(block);
    var s := new SubMessages(block);
    FirstPair(l, r, s, sc, t, m);
    MiddleSteps(l, r, s, sc, t, m);
    LastAddition(l, r, s, sc, t, m);
  }

  method MiddleSteps(l: array<bv32>, r: array<bv32>, s: SubMessages, sc: StepConstants,
                     ghost t: Pair, ghost m: (Pair, Pair))
    requires l.Length == r.Length == 8 && l != r
    requires s.Valid() && {l, r} !! {s.el, s.er, s.ol, s.or'}
    requires Pair(l[..], r[..]) == Steps(t, m, sc, 2)
    requires s.Even() == Msg(m, 0) && s.Odd() == Msg(m, 1)
    modifies l, r, s.el, s.er, s.ol, s.or'
    ensures Pair(l[..], r[..]) == Steps(t, m, sc, NUM_STEPS)
    ensures s.Even() == Msg(m, NUM_STEPS - 2) && s.Odd() == Msg(m, NUM_STEPS - 1)
  {
    hide Steps, Msg;
    var i := 1;
    while i < NUM_STEPS / 2
      invariant 1 <= i <= NUM_STEPS / 2
      invariant Pair(l[..], r[..]) == Steps(t, m, sc, 2 * i)
      invariant s.Even() == Msg(m, 2 * i - 2) && s.Odd() == Msg(m, 2 * i - 1)
    {
      StepPair(l, r, s, sc, i, t, m);
      i := i + 1;
    }
  }

  method LastAddition(l: array<bv32>, r: array<bv32>, s: SubMessages, sc: StepConstants,
                      ghost t: Pair, ghost m: (Pair, Pair))
    requires l.Length == r.Length == 8 && l != r
    requires s.Valid() && {l, r} !! {s.el, s.er, s.ol, s.or'}
    requires Pair(l[..], r[..]) == Steps(t, m, sc, NUM_STEPS)
    requires s.Even() == Msg(m, NUM_STEPS - 2) && s.Odd() == Msg(m, NUM_STEPS - 1)
    modifies l, r, s.el, s.er
    ensures Pair(l[..], r[..]) == CompressPair(t, m, sc)
  {
    hide Steps, Msg, XorHalf;
    s.ExpandEven(m, NUM_STEPS - 2);
    XorBlk(l, s.el[..]);
    XorBlk(r, s.er[..]);
  }

  lemma FirstSteps(t: Pair, m: (Pair, Pair), sc: StepConstants)
    ensures Steps(t, m, sc, 0) == t && Msg(m, 0) == m.0 && Msg(m, 1) == m.1
  {
  }

  // ----- the compression is a bijection on the chaining value -----

  function RotrHalf(a: Half, n: nat): Half
    requires Amount(n)
  {
    seq(8, i requires 0 <= i < 8 => Rotr(a[i], n))
  }

  function GammaBack(a: Half): Half {
    seq(8, i requires 0 <= i < 8 => Rotr(a[i], Gamma(i)))
  }

  function Unmix(t: Pair, c: Half, alpha: nat, beta: nat): Pair
    requires Amount(alpha) && Amount(beta)
  {
    var r := GammaBack(t.r);
    var l := SubHalf(t.l, r);
    var r' := SubHalf(RotrHalf(r, beta), l);
    Pair(SubHalf(RotrHalf(XorHalf(l, c), alpha), r'), r')
  }

  /** Where each word goes. */
  function Target(i: nat): (n: nat)
    requires i < 16
    ensures n < 16
  {
    match i
    case 0 => 9 case 1 => 10 case 2 => 8 case 3 => 11 case 4 => 1 case 5 => 2 case 6 => 0 case 7 => 3
    case 8 => 12 case 9 => 15 case 10 => 14 case 11 => 13 case 12 => 4 case 13 => 7 case 14 => 6 case _ => 5
  }

  lemma SigmaIsPermutation(i: nat)
    requires i < 16
    ensures Target(Sigma(i)) == i && Sigma(Target(i)) == i
  {
  }

  function Unperm(t: Pair): Pair {
    Pair(seq(8, i requires 0 <= i < 8 => At(t, Target(i))), seq(8, i requires 0 <= i < 8 => At(t, Target(8 + i))))
  }

  function Unsteps(t: Pair, m: (Pair, Pair), sc: StepConstants, n: nat): Pair
    requires n <= NUM_STEPS
    decreases n
  {
    if n == 0 then t
    else Unsteps(MsgAdd(Unmix(Unperm(t), sc[n-1], Alpha(n - 1), Beta(n - 1)), Msg(m, n - 1)), m, sc, n - 1)
  }

  function Uncompress(t: Pair, block: seq<bv8>, sc: StepConstants): Pair
    requires |block| == 128
  {
    Unsteps(MsgAdd(t, Msg(Loaded(block), NUM_STEPS)), Loaded(block), sc, NUM_STEPS)
  }

  lemma Rotate1Back(x: bv32)
    ensures Rotr1(Rotl1(x)) == x && Rotl1(Rotr1(x)) == x
  {
  }

  lemma Rotate5Back(x: bv32)
    ensures Rotr5(Rotl5(x)) == x && Rotl5(Rotr5(x)) == x
  {
  }

  lemma Rotate8Back(x: bv32)
    ensures Rotr8(Rotl8(x)) == x && Rotl8(Rotr8(x)) == x
  {
  }

  lemma Rotate16Back(x: bv32)
    ensures Rotr16(Rotl16(x)) == x && Rotl16(Rotr16(x)) == x
  {
  }

  lemma Rotate17Back(x: bv32)
    ensures Rotr17(Rotl17(x)) == x && Rotl17(Rotr17(x)) == x
  {
  }

  lemma Rotate24Back(x: bv32)
    ensures Rotr24(Rotl24(x)) == x && Rotl24(Rotr24(x)) == x
  {
  }

  lemma Rotate29Back(x: bv32)
    ensures Rotr29(Rotl29(x)) == x && Rotl29(Rotr29(x)) == x
  {
  }

  lemma RotateBack(x: bv32, n: nat)
    requires Amount(n)
    ensures Rotr(Rotl(x, n), n) == x && Rotl(Rotr(x, n), n) == x
  {
    hide Rotl1, Rotl5, Rotl8, Rotl16, Rotl17, Rotl24, Rotl29, Rotr1, Rotr5, Rotr8, Rotr16, Rotr17, Rotr24, Rotr29;
    Rotate1Back(x);
    Rotate5Back(x);
    Rotate8Back(x);
    Rotate16Back(x);
    Rotate17Back(x);
    Rotate24Back(x);
    Rotate29Back(x);
  }

  lemma HalfLaws(a: Half, b: Half, n: nat)
    requires Amount(n)
    ensures SubHalf(AddHalf(a, b), b) == a && AddHalf(SubHalf(a, b), b) == a
    ensures XorHalf(XorHalf(a, b), b) == a
    ensures RotrHalf(RotHalf(a, n), n) == a && RotHalf(RotrHalf(a, n), n) == a
    ensures GammaBack(GammaHalf(a)) == a && GammaHalf(GammaBack(a)) == a
  {
    hide Add, Sub, XorWord, Rotl, Rotr, Gamma;
    forall i | 0 <= i < 8
      ensures Sub(Add(a[i], b[i]), b[i]) == a[i] && Add(Sub(a[i], b[i]), b[i]) == a[i]
      ensures XorWord(XorWord(a[i], b[i]), b[i]) == a[i]
      ensures Rotr(Rotl(a[i], n), n) == a[i] && Rotl(Rotr(a[i], n), n) == a[i]
      ensures Rotr(Rotl(a[i], Gamma(i)), Gamma(i)) == a[i] && Rotl(Rotr(a[i], Gamma(i)), Gamma(i)) == a[i]
    {
      SubUndoesAdd(a[i], b[i]);
      AddUndoesSub(a[i], b[i]);
      XorTwice(a[i], b[i]);
      RotateBack(a[i], n);
      RotateBack(a[i], Gamma(i));
    }
  }

  lemma MixIsInverted(t: Pair, c: Half, alpha: nat, beta: nat)
    requires Amount(alpha) && Amount(beta)
    ensures Unmix(Mix(t, c, alpha, beta), c, alpha, beta) == t
    ensures Mix(Unmix(t, c, alpha, beta), c, alpha, beta) == t
  {
    hide AddHalf, SubHalf, XorHalf, RotHalf, RotrHalf, GammaHalf, GammaBack;
    var s := AddHalf(t.l, t.r);
    var l := XorHalf(RotHalf(s, alpha), c);
    var q := AddHalf(t.r, l);
    var r := RotHalf(q, beta);
    HalfLaws(t.l, t.r, alpha);
    HalfLaws(s, t.r, alpha);
    HalfLaws(RotHalf(s, alpha), c, alpha);
    HalfLaws(t.r, l, beta);
    HalfLaws(q, l, beta);
    HalfLaws(l, r, beta);
    HalfLaws(r, r, beta);
    var r1 := GammaBack(t.r);
    var l1 := SubHalf(t.l, r1);
    var q1 := RotrHalf(r1, beta);
    var r2 := SubHalf(q1, l1);
    var x1 := XorHalf(l1, c);
    var s1 := RotrHalf(x1, alpha);
    HalfLaws(t.r, r1, beta);
    HalfLaws(t.l, r1, beta);
    HalfLaws(r1, l1, beta);
    HalfLaws(q1, l1, beta);
    HalfLaws(l1, c, alpha);
    HalfLaws(x1, c, alpha);
    HalfLaws(s1, r2, alpha);
  }

  lemma WordsOfPerm(t: Pair, i: nat)
    requires i < 16
    ensures At(WordPerm(t), i) == At(t, Sigma(i)) && At(Unperm(t), i) == At(t, Target(i))
  {
  }

  lemma SamePair(a: Pair, b: Pair)
    requires forall i | 0 <= i < 16 :: At(a, i) == At(b, i)
    ensures a == b
  {
    forall i | 0 <= i < 8 ensures a.l[i] == b.l[i] && a.r[i] == b.r[i] {
      assert At(a, i) == At(b, i);
      assert At(a, 8 + i) == At(b, 8 + i);
    }
  }

  /** The word permutation loses no word. */
  lemma PermIsInverted(t: Pair)
    ensures Unperm(WordPerm(t)) == t && WordPerm(Unperm(t)) == t
  {
    hide Sigma, Target, WordPerm, Unperm, At;
    forall i | 0 <= i < 16
      ensures At(Unperm(WordPerm(t)), i) == At(t, i) && At(WordPerm(Unperm(t)), i) == At(t, i)
    {
      SigmaIsPermutation(i);
      WordsOfPerm(WordPerm(t), i);
      WordsOfPerm(t, Target(i));
      WordsOfPerm(Unperm(t), i);
      WordsOfPerm(t, Sigma(i));
    }
    SamePair(Unperm(WordPerm(t)), t);
    SamePair(WordPerm(Unperm(t)), t);
  }

  lemma MsgAddTwice(t: Pair, m: Pair)
    ensures MsgAdd(MsgAdd(t, m), m) == t
  {
    hide XorHalf;
    HalfLaws(t.l, m.l, 0);
    HalfLaws(t.r, m.r, 0);
  }

  lemma {:induction false} StepsAreInverted(t: Pair, m: (Pair, Pair), sc: StepConstants, n: nat)
    requires n <= NUM_STEPS
    ensures Unsteps(Steps(t, m, sc, n), m, sc, n) == t
    ensures Steps(Unsteps(t, m, sc, n), m, sc, n) == t
    decreases n
  {
    hide Mix, Unmix, WordPerm, Unperm, MsgAdd, Msg;
    if n > 0 {
      var c, a, b := sc[n-1], Alpha(n - 1), Beta(n - 1);
      var w := Msg(m, n - 1);
      var s := Steps(t, m, sc, n - 1);
      MsgAddTwice(s, w);
      MixIsInverted(MsgAdd(s, w), c, a, b);
      PermIsInverted(Mix(MsgAdd(s, w), c, a, b));
      StepsAreInverted(t, m, sc, n - 1);
      var u := Unmix(Unperm(t), c, a, b);
      PermIsInverted(t);
      MixIsInverted(Unperm(t), c, a, b);
      MsgAddTwice(u, w);
      StepsAreInverted(MsgAdd(u, w), m, sc, n - 1);
    }
  }

  /** For a fixed block no two chaining values compress to the same one, and every value is reached. */
  lemma CompressIsBijective(t: Pair, block: seq<bv8>, sc: StepConstants)
    requires |block| == 128
    ensures Uncompress(Compress(t, block, sc), block, sc) == t
    ensures Compress(Uncompress(t, block, sc), block, sc) == t
  {
    hide Steps, Unsteps, Msg, MsgAdd, Loaded;
    var m := Loaded(block);
    var w := Msg(m, NUM_STEPS);
    MsgAddTwice(Steps(t, m, sc, NUM_STEPS), w);
    StepsAreInverted(t, m, sc, NUM_STEPS);
    StepsAreInverted(MsgAdd(t, w), m, sc, NUM_STEPS);
    MsgAddTwice(t, w);
  }
}
