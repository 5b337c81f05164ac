/** Whole GCM messages in arbitrary pieces, compared with section 7.1 of NIST SP 800-38D. */
module GcmMessage {
  import opened Bytes
  import opened Counter
  import opened Ctr
  import opened GfAlgebra
  import opened GfMul
  import opened GfTables
  import opened Ghash
  import opened Gcm
  import opened GcmContext
  import opened GcmLimits
  import opened Pieces

  /** One call of gcm_enc, with the output over the input or in a buffer of its own. */
  method EncryptPiece(ctx: GcmContext, x: seq<bv8>, inPlace: bool, maxBlk: nat) returns (y: seq<bv8>)
    requires ctx.Active() && |ctx.data| + |x| < MAX_LENGTH
    modifies ctx
    ensures ctx.Active() && ctx.SameMessage() && ctx.isEncrypt
    ensures y == CtrAt(ctx.E, ctx.j0, x, At(|old(ctx.data)|)) && ctx.data == old(ctx.data) + y
  {
    hide CtrAt;
    var src := new bv8[|x|](i requires 0 <= i < |x| => x[i]);
    assert src[..|x|] == x;
    if inPlace {
      ctx.Enc(src, src, |x|, maxBlk);
      y := src[..|x|];
    } else {
      var dst := new bv8[|x|](_ => 0);
      ctx.Enc(dst, src, |x|, maxBlk);
      y := dst[..|x|];
    }
  }

  /** One call of gcm_dec. Over its input it hashes the text it has just written. */
  method DecryptPiece(ctx: GcmContext, x: seq<bv8>, inPlace: bool, maxBlk: nat) returns (y: seq<bv8>)
    requires ctx.Active() && |ctx.data| + |x| < MAX_LENGTH
    modifies ctx
    ensures ctx.Active() && ctx.SameMessage() && !ctx.isEncrypt
    ensures y == CtrAt(ctx.E, ctx.j0, x, At(|old(ctx.data)|))
    ensures ctx.data == old(ctx.data) + if inPlace then y else x
  {
    hide CtrAt;
    var src := new bv8[|x|](i requires 0 <= i < |x| => x[i]);
    assert src[..|x|] == x;
    if inPlace {
      ctx.Dec(src, src, |x|, maxBlk);
      y := src[..|x|];
    } else {
      var dst := new bv8[|x|](_ => 0);
      ctx.Dec(dst, src, |x|, maxBlk);
      y := dst[..|x|];
    }
  }

  /** Feed a text to gcm_enc piece by piece. */
  method EncryptPieces(ctx: GcmContext, pieces: seq<seq<bv8>>, inPlace: bool, maxBlk: nat) returns (c: seq<bv8>)
    requires ctx.Active() && ctx.data == [] && |Concat(pieces)| < MAX_LENGTH && (pieces != [] || ctx.isEncrypt)
    modifies ctx
    ensures ctx.Active() && ctx.SameMessage() && ctx.isEncrypt
    ensures c == CtrAt(ctx.E, ctx.j0, Concat(pieces), 16) && ctx.data == c
  {
    hide ctx.Active, CtrAt;
    c := [];
    var i := 0;
    CtrEmpty(ctx.E, ctx.j0, 16);
    while i < |pieces|
      invariant 0 <= i <= |pieces|
      invariant ctx.Active() && ctx.SameMessage() && (i > 0 ==> ctx.isEncrypt) && (i == 0 ==> unchanged(ctx))
      invariant c == CtrAt(ctx.E, ctx.j0, Concat(pieces[..i]), 16) && ctx.data == c
    {
      ConcatTake(pieces, i);
      var y := EncryptPiece(ctx, pieces[i], inPlace, maxBlk);
      CtrConcat(ctx.E, ctx.j0, Concat(pieces[..i]), pieces[i], 16);
      c := c + y;
      i := i + 1;
    }
    assert pieces[..i] == pieces;
  }

  /** Feed a ciphertext to gcm_dec piece by piece. */
  method DecryptPieces(ctx: GcmContext, pieces: seq<seq<bv8>>, inPlace: bool, maxBlk: nat) returns (p: seq<bv8>)
    requires ctx.Active() && ctx.data == [] && |Concat(pieces)| < MAX_LENGTH && (pieces != [] || !ctx.isEncrypt)
    modifies ctx
    ensures ctx.Active() && ctx.SameMessage() && !ctx.isEncrypt
    ensures p == CtrAt(ctx.E, ctx.j0, Concat(pieces), 16)
    ensures ctx.data == if inPlace then p else Concat(pieces)
  {
    hide ctx.Active, CtrAt;
    p := [];
    var i := 0;
    CtrEmpty(ctx.E, ctx.j0, 16);
    while i < |pieces|
      invariant 0 <= i <= |pieces|
      invariant ctx.Active() && ctx.SameMessage() && (i > 0 ==> !ctx.isEncrypt) && (i == 0 ==> unchanged(ctx))
      invariant p == CtrAt(ctx.E, ctx.j0, Concat(pieces[..i]), 16)
      invariant ctx.data == if inPlace then p else Concat(pieces[..i])
    {
      ConcatTake(pieces, i);
      var y := DecryptPiece(ctx, pieces[i], inPlace, maxBlk);
      CtrConcat(ctx.E, ctx.j0, Concat(pieces[..i]), pieces[i], 16);
      p := p + y;
      i := i + 1;
    }
    assert pieces[..i] == pieces;
  }

  /** The number of octets of additional data the tag counts, of which an earlier message may have left some. */
  function Counted(left: nat, aad: seq<bv8>): nat {
    if aad == [] then left else |aad|
  }

  method Start(ctx: GcmContext, iv: seq<bv8>, aad: seq<bv8>)
    requires ctx.Idle() && ctx.aadLen < MAX_LENGTH && |aad| < MAX_LENGTH && |iv| < MAX_LENGTH
    modifies ctx
    ensures ctx.Active() && ctx.j0 == PreCounter(ctx.h, iv) && ctx.h == ctx.E(ZERO) && ctx.data == []
    ensures ctx.aad == aad && ctx.aadLen == Counted(old(ctx.aadLen), aad)
    ensures ctx.isEncrypt == old(ctx.isEncrypt)
  {
    hide PreCounter, Registers;
    ctx.SetCtr(iv);
    ctx.SetAad(aad);
    assert [] + aad == aad;
  }

  /** What the tag over a counted length is to the standard's. */
  lemma CountedTag(E: BlockFn, iv: seq<bv8>, aad: seq<bv8>, p: seq<bv8>, c: seq<bv8>, tag: seq<bv8>, a: nat)
    requires |tag| <= 16 && c == CtrAt(E, PreCounter(E(ZERO), iv), p, 16)
    requires tag == TagBlock(E, E(ZERO), PreCounter(E(ZERO), iv), aad, c, Counted(a, aad))[..|tag|]
    requires CounterRoom(PreCounter(E(ZERO), iv), |p|)
    ensures c == Seal(E, iv, aad, p).0
    ensures a == 0 ==> tag == Seal(E, iv, aad, p).1[..|tag|]
    ensures tag == Seal(E, iv, aad, p).1[..|tag|]
       <==> aad != [] || Mul(Excess(a), E(ZERO))[..|tag|] == ZERO[..|tag|]
  {
    hide CtrAt, TagBlock, PreCounter, CounterRoom, Seal, Mul, Excess;
    SealIsCtr(E, iv, aad, p);
    StaleLength(E, E(ZERO), PreCounter(E(ZERO), iv), c, a, |tag|);
  }

  /** Encryption of one message, cut into any pieces, on a new or used context, in place or not. The ciphertext
      is the standard's, the tag is over the length counted. It is the standard's exactly when there are
      additional data or what is left over does not show in the octets of the tag. */
  method SealPieces(ctx: GcmContext, iv: seq<bv8>, aad: seq<bv8>, pieces: seq<seq<bv8>>, tagLen: nat,
                    inPlace: bool, maxBlk: nat) returns (c: seq<bv8>, tag: seq<bv8>)
    requires ctx.Idle() && ctx.aadLen < MAX_LENGTH && |aad| < MAX_LENGTH
    requires |iv| < MAX_LENGTH && |Concat(pieces)| < MAX_LENGTH
    requires 4 <= tagLen <= 16 && (pieces != [] || ctx.isEncrypt)
    modifies ctx, ctx.hTable
    ensures ctx.Idle() && ctx.aadLen == 8 * Counted(old(ctx.aadLen), aad) && ctx.isEncrypt
    ensures var h := ctx.E(ZERO);
      var j0 := PreCounter(h, iv);
      && c == CtrAt(ctx.E, j0, Concat(pieces), 16)
      && tag == TagBlock(ctx.E, h, j0, aad, c, Counted(old(ctx.aadLen), aad))[..tagLen]
    ensures CounterRoom(PreCounter(ctx.E(ZERO), iv), |Concat(pieces)|) ==>
      var (c', tag') := Seal(ctx.E, iv, aad, Concat(pieces));
      && c == c'
      && (old(ctx.aadLen) == 0 ==> tag == tag'[..tagLen])
      && (tag == tag'[..tagLen] <==>
          (aad != [] || Mul(Excess(old(ctx.aadLen)), ctx.E(ZERO))[..tagLen] == ZERO[..tagLen]))
  {
    hide CtrAt, TagBlock, PreCounter, CounterRoom, Seal, Mul, Excess, ctx.Idle, ctx.Active, Concat;
    Start(ctx, iv, aad);
    c := EncryptPieces(ctx, pieces, inPlace, maxBlk);
    var t := new bv8[tagLen](_ => 0);
    var status := ctx.Final(t, tagLen);
    tag := t[..];
    if CounterRoom(PreCounter(ctx.E(ZERO), iv), |Concat(pieces)|) {
      CountedTag(ctx.E, iv, aad, Concat(pieces), c, tag, old(ctx.aadLen));
    }
  }

  /** Decryption of one message, cut into any pieces, on a new or used context: the text, and 0 exactly
      for the right tag. In place the tag is that of the text instead of the ciphertext. */
  method OpenPieces(ctx: GcmContext, iv: seq<bv8>, aad: seq<bv8>, pieces: seq<seq<bv8>>, tag: seq<bv8>,
                    inPlace: bool, maxBlk: nat) returns (p: seq<bv8>, status: int)
    requires ctx.Idle() && ctx.aadLen < MAX_LENGTH && |aad| < MAX_LENGTH
    requires |iv| < MAX_LENGTH && |Concat(pieces)| < MAX_LENGTH
    requires 4 <= |tag| <= 16 && (pieces != [] || !ctx.isEncrypt)
    modifies ctx, ctx.hTable
    ensures ctx.Idle() && ctx.aadLen == 8 * Counted(old(ctx.aadLen), aad) && !ctx.isEncrypt
    ensures p == CtrAt(ctx.E, PreCounter(ctx.E(ZERO), iv), Concat(pieces), 16)
    ensures var h, hashed := ctx.E(ZERO), if inPlace then p else Concat(pieces);
      var t := TagBlock(ctx.E, h, PreCounter(h, iv), aad, hashed, Counted(old(ctx.aadLen), aad));
      status == if tag == t[..|tag|] then 0 else -1
  {
    hide CtrAt, TagBlock, PreCounter, ctx.Idle, ctx.Active, Concat;
    Start(ctx, iv, aad);
    p := DecryptPieces(ctx, pieces, inPlace, maxBlk);
    var t := new bv8[|tag|](i requires 0 <= i < |tag| => tag[i]);
    assert t[..] == tag && t[..|tag|] == tag;
    status := ctx.Final(t, |tag|);
  }

  /** What the tag hashes: additional data, text and both lengths in bits. */
  function Hashed(aad: seq<bv8>, c: seq<bv8>, a: nat): seq<bv8> {
    Padded(aad) + Padded(c) + Be(8 * a, 8) + Be(8 * |c|, 8)
  }

  /** With a 96-bit IV the counters are plain: IV and 1 for the tag, IV and 2 on for the text. */
  lemma OctetsOf96BitIv(E: BlockFn, iv: seq<bv8>, aad: seq<bv8>, x: seq<bv8>, c: seq<bv8>, a: nat)
    requires |iv| == 12 && |x| < MAX_LENGTH
    ensures var y := CtrAt(E, PreCounter(E(ZERO), iv), x, 16);
      && (forall j | 0 <= j < |x| :: y[j] == XorOctet(x[j], E(iv + Word32(2 + j / 16))[j % 16]))
      && (|x| >= 16 ==> y[..16] == Xor(x[..16], E(iv + [0, 0, 0, 2])))
    ensures TagBlock(E, E(ZERO), PreCounter(E(ZERO), iv), aad, c, a) ==
      Xor(Hash(ZERO, Hashed(aad, c, a), E(ZERO)), E(iv + [0, 0, 0, 1]))
  {
    hide CtrAt, PreCounter, TagBlock, Hash, Padded, Be, Word32, XorOctet;
    var y := CtrAt(E, PreCounter(E(ZERO), iv), x, 16);
    forall j | 0 <= j < |x| ensures y[j] == XorOctet(x[j], E(iv + Word32(2 + j / 16))[j % 16]) {
      TextOf96BitIv(E, iv, x, j);
    }
    if |x| >= 16 {
      TextBlock96BitIv(E, iv, x);
    }
    TagOf96BitIv(E, E(ZERO), iv, aad, c, a);
  }

  lemma PaddedBlocks(a: seq<bv8>, b: seq<bv8>, c: seq<bv8>)
    requires |a| == 16 && |b| == 16 && 0 < |c| < 16
    ensures Padded(a) == a && Padded(b + c) == b + (c + Zeros(16 - |c|))
  {
    assert a + Zeros(0) == a;
    assert (b + c) + Zeros(16 - |c|) == b + (c + Zeros(16 - |c|));
  }

  lemma LowWord(n: nat)
    requires n < 256
    ensures Word32(n) == [0, 0, 0, Octet(n)]
  {
    OctetOf(0, 0);
    hide Octet;
  }

  lemma LengthsOf(n: nat)
    requires n < 16
    ensures Be(8 * 16, 8) + Be(8 * (16 + n), 8) ==
      [0, 0, 0, 0, 0, 0, 0, 0x80, 0, 0, 0, 0, 0, 0, 0, Octet(128 + 8 * n)]
  {
    LengthOctets(16);
    LengthOctets(16 + n);
    WordOf128();
    LowWord(128 + 8 * n);
    EightOctets(Octet(128 + 8 * n));
    hide Be, Word32, Octet;
  }

  lemma EightOctets(o: bv8)
    ensures ([0, 0, 0, 0] + [0, 0, 0, 0x80]) + ([0, 0, 0, 0] + [0, 0, 0, o]) ==
      [0, 0, 0, 0, 0, 0, 0, 0x80, 0, 0, 0, 0, 0, 0, 0, o]
  {
  }

  /** With the hash key one the hash is a sum: one block of additional data, a text of one block and a partial one
      that zeros complete, and the lengths in bits, that of the additional data first. */
  lemma HashedUnderOne(a: Block, b: Block, t: seq<bv8>, f: Block, l: Block)
    requires 0 < |t| < 16 && f == t + Zeros(16 - |t|)
    requires l == [0, 0, 0, 0, 0, 0, 0, 0x80, 0, 0, 0, 0, 0, 0, 0, Octet(128 + 8 * |t|)]
    ensures Hash(ZERO, Hashed(a, b + t, 16), ONE) == XorBlock(XorBlock(XorBlock(a, b), f), l)
  {
    hide Padded, Be, Hash, Hashed, XorBlock, Octet, Zeros;
    LengthsOf(|t|);
    PaddedBlocks(a, b, t);
    HashedParts(a, b + t, 16);
    Regroup(a, b, f, Be(8 * 16, 8), Be(8 * (16 + |t|), 8));
    HashFour(a, b, f, l);
  }

  lemma HashedParts(aad: seq<bv8>, c: seq<bv8>, a: nat)
    ensures Hashed(aad, c, a) == Padded(aad) + Padded(c) + Be(8 * a, 8) + Be(8 * |c|, 8)
  {
  }

  lemma Regroup(a: seq<bv8>, b: seq<bv8>, c: seq<bv8>, d: seq<bv8>, e: seq<bv8>)
    ensures a + (b + c) + d + e == a + (b + (c + (d + e)))
  {
  }

  lemma HashFour(a: Block, b: Block, c: Block, d: Block)
    ensures Hash(ZERO, a + (b + (c + d)), ONE) == XorBlock(XorBlock(XorBlock(a, b), c), d)
  {
    hide Hash, XorBlock;
    HashConcat(ZERO, a, b + (c + d), ONE);
    HashConcat(Hash(ZERO, a, ONE), b, c + d, ONE);
    HashConcat(Hash(Hash(ZERO, a, ONE), b, ONE), c, d, ONE);
    HashByOne(ZERO, a);
    XorZero(a);
    HashByOne(a, b);
    HashByOne(XorBlock(a, b), c);
    HashByOne(XorBlock(XorBlock(a, b), c), d);
  }

  /** Sealing under a 96-bit IV, octet by octet: the text meets the encrypted counters from IV and 2 on, the hash
      meets that of IV and 1. */
  method SealWith96BitIv(ctx: GcmContext, iv: seq<bv8>, aad: seq<bv8>, pieces: seq<seq<bv8>>, tagLen: nat,
                         inPlace: bool, maxBlk: nat) returns (c: seq<bv8>, tag: seq<bv8>)
    requires ctx.Idle() && ctx.aadLen < MAX_LENGTH && |aad| < MAX_LENGTH
    requires |iv| == 12 && |Concat(pieces)| < MAX_LENGTH
    requires 4 <= tagLen <= 16 && (pieces != [] || ctx.isEncrypt)
    modifies ctx, ctx.hTable
    ensures |c| == |Concat(pieces)|
    ensures forall j | 0 <= j < |c| :: c[j] == XorOctet(Concat(pieces)[j], ctx.E(iv + Word32(2 + j / 16))[j % 16])
    ensures |c| >= 16 ==> c[..16] == Xor(Concat(pieces)[..16], ctx.E(iv + [0, 0, 0, 2]))
    ensures var a := if aad == [] then old(ctx.aadLen) else |aad|;
      tag == Xor(Hash(ZERO, Hashed(aad, c, a), ctx.E(ZERO)), ctx.E(iv + [0, 0, 0, 1]))[..tagLen]
  {
    hide CtrAt, TagBlock, PreCounter, CounterRoom, Seal, Mul, Excess, Hash, Hashed, Xor, Word32, XorOctet, ctx.Idle;
    ghost var a := Counted(ctx.aadLen, aad);
    c, tag := SealPieces(ctx, iv, aad, pieces, tagLen, inPlace, maxBlk);
    OctetsOf96BitIv(ctx.E, iv, aad, Concat(pieces), c, a);
  }

  method OpenWith96BitIv(ctx: GcmContext, iv: seq<bv8>, aad: seq<bv8>, pieces: seq<seq<bv8>>, tag: seq<bv8>,
                         maxBlk: nat) returns (p: seq<bv8>, status: int)
    requires ctx.Idle() && ctx.aadLen < MAX_LENGTH && |aad| < MAX_LENGTH
    requires |iv| == 12 && |Concat(pieces)| < MAX_LENGTH
    requires 4 <= |tag| <= 16 && (pieces != [] || !ctx.isEncrypt)
    modifies ctx, ctx.hTable
    ensures |p| == |Concat(pieces)|
    ensures forall j | 0 <= j < |p| :: p[j] == XorOctet(Concat(pieces)[j], ctx.E(iv + Word32(2 + j / 16))[j % 16])
    ensures var a := if aad == [] then old(ctx.aadLen) else |aad|;
      var t := Xor(Hash(ZERO, Hashed(aad, Concat(pieces), a), ctx.E(ZERO)), ctx.E(iv + [0, 0, 0, 1]));
      status == if tag == t[..|tag|] then 0 else -1
  {
    hide CtrAt, TagBlock, PreCounter, Mul, Hash, Hashed, Xor, Word32, XorOctet, ctx.Idle;
    ghost var a := Counted(ctx.aadLen, aad);
    p, status := OpenPieces(ctx, iv, aad, pieces, tag, false, maxBlk);
    OctetsOf96BitIv(ctx.E, iv, aad, Concat(pieces), Concat(pieces), a);
  }

  /** The length left over in the receiving context when it comes to open the message. */
  ghost function LeftOver(sender: GcmContext, receiver: GcmContext, aad: seq<bv8>): nat
    reads sender, receiver
  {
    if sender == receiver then 8 * Counted(sender.aadLen, aad) else receiver.aadLen
  }

  /** Between two contexts or on one, however the text is cut for encryption and the ciphertext for decryption:
      the text comes back, and the tag is accepted exactly when the gap between what the two ends hash and count
      begins with zeros for its whole length. Into another buffer it is accepted when both count the same, as they
      do when there are additional data, when both are new, or when both have been through the same messages. */
  method RoundTrip(sender: GcmContext, receiver: GcmContext, iv: seq<bv8>, aad: seq<bv8>, pieces: seq<seq<bv8>>,
                   tagLen: nat, inPlace: bool, over: bool, maxBlk: nat, sizes: seq<nat>)
    returns (p: seq<bv8>, status: int)
    requires sender.Idle() && receiver.Idle() && sender.E == receiver.E
    requires sender == receiver || sender.hTable != receiver.hTable
    requires sender.aadLen < MAX_LENGTH && LeftOver(sender, receiver, aad) < MAX_LENGTH
    requires |aad| < MAX_LENGTH && |iv| < MAX_LENGTH && |Concat(pieces)| < MAX_LENGTH
    requires 4 <= tagLen <= 16 && (pieces != [] || sender.isEncrypt)
    modifies sender, sender.hTable, receiver, receiver.hTable
    ensures p == Concat(pieces)
    ensures var a, b := Counted(old(sender.aadLen), aad), Counted(old(LeftOver(sender, receiver, aad)), aad);
      var h := sender.E(ZERO);
      var d := if over then KeyStream(sender.E, PreCounter(h, iv), |p|) else Zeros(|p|);
      && (a == b && !over ==> status == 0)
      && (status == 0 <==> Gap(h, d, a, b)[..tagLen] == ZERO[..tagLen])
  {
    hide CtrAt, TagBlock, PreCounter, CounterRoom, Seal, Mul, Excess, Gap, Xor, Zeros, sender.Idle, KeyStream;
    ghost var E, a, b := sender.E, Counted(sender.aadLen, aad), Counted(LeftOver(sender, receiver, aad), aad);
    ghost var j0 := PreCounter(E(ZERO), iv);
    var c, tag := SealPieces(sender, iv, aad, pieces, tagLen, inPlace, maxBlk);
    ConcatCut(c, sizes);
    p, status := OpenPieces(receiver, iv, aad, Cut(c, sizes), tag, over, maxBlk);
    CtrInverse(E, j0, Concat(pieces), 16);
    if over {
      TextsAgree(E, E(ZERO), j0, aad, p, a, b, tagLen);
    } else {
      TagsAgree(E, E(ZERO), j0, aad, c, c, a, b, tagLen);
      XorSelf(c);
      LengthGap(E(ZERO), |c|, a, b);
    }
  }

  /** After a message with one octet of additional data, every message without any gets the standard's tag exactly
      when the hash key times x^57 begins with zeros for the length of the tag; a full tag is wrong under every
      hash key but zero. */
  method StaleTag(ctx: GcmContext, iv: seq<bv8>, octet: bv8, iv': seq<bv8>, pieces: seq<seq<bv8>>, tagLen: nat,
                  maxBlk: nat) returns (c: seq<bv8>, tag: seq<bv8>)
    requires ctx.Idle() && ctx.aadLen < MAX_LENGTH && 4 <= tagLen <= 16
    requires |iv| < MAX_LENGTH && |iv'| < MAX_LENGTH && |Concat(pieces)| < MAX_LENGTH
    requires CounterRoom(PreCounter(ctx.E(ZERO), iv'), |Concat(pieces)|)
    modifies ctx, ctx.hTable
    ensures c == Seal(ctx.E, iv', [], Concat(pieces)).0
    ensures tag == Seal(ctx.E, iv', [], Concat(pieces)).1[..tagLen]
       <==> Power(ctx.E(ZERO), 57)[..tagLen] == ZERO[..tagLen]
    ensures tagLen == 16 ==> (tag == Seal(ctx.E, iv', [], Concat(pieces)).1 <==> ctx.E(ZERO) == ZERO)
  {
    hide CtrAt, TagBlock, PreCounter, CounterRoom, Seal, Mul, Excess, Power, ctx.Idle;
    assert Concat([[]]) == [];
    var _, _ := SealPieces(ctx, iv, [octet], [[]], 16, false, maxBlk);
    c, tag := SealPieces(ctx, iv', [], pieces, tagLen, false, maxBlk);
    OneOctetStale(ctx.E(ZERO));
    WholeBlock(Power(ctx.E(ZERO), 57));
    WholeBlock(Seal(ctx.E, iv', [], Concat(pieces)).1);
    WholeBlock(ZERO);
  }

  method StartInTwoParts(ctx: GcmContext, iv: seq<bv8>, a: seq<bv8>, b: seq<bv8>)
    requires ctx.Idle() && ctx.aadLen < MAX_LENGTH && a != [] && b != [] && |a| % 16 == 0 && |a + b| < MAX_LENGTH
    requires |iv| < MAX_LENGTH
    modifies ctx
    ensures ctx.Active() && ctx.j0 == PreCounter(ctx.h, iv) && ctx.h == ctx.E(ZERO) && ctx.data == []
    ensures ctx.aad == a + b && ctx.aadLen == |b| && ctx.isEncrypt == old(ctx.isEncrypt)
  {
    hide PreCounter, Registers, Padded, Hash, TableOf;
    Start(ctx, iv, a);
    WholePadded(a);
    ctx.SetAad(b);
  }

  lemma WholePadded(a: seq<bv8>)
    requires |a| % 16 == 0
    ensures Padded(a) == a
  {
    assert a + Zeros(0) == a;
  }

  /** Additional data in two calls, of which the first has whole blocks: the hash is that of all the data, but only
      the second part is counted. The tag is the standard's exactly when that does not show in its octets. */
  method SealInTwoParts(ctx: GcmContext, iv: seq<bv8>, a: seq<bv8>, b: seq<bv8>, pieces: seq<seq<bv8>>, tagLen: nat,
                        inPlace: bool, maxBlk: nat) returns (c: seq<bv8>, tag: seq<bv8>)
    requires ctx.Idle() && ctx.aadLen < MAX_LENGTH && a != [] && b != [] && |a| % 16 == 0 && |a + b| < MAX_LENGTH
    requires |iv| < MAX_LENGTH && |Concat(pieces)| < MAX_LENGTH
    requires 4 <= tagLen <= 16 && (pieces != [] || ctx.isEncrypt)
    modifies ctx, ctx.hTable
    ensures CounterRoom(PreCounter(ctx.E(ZERO), iv), |Concat(pieces)|) ==>
      var (c', tag') := Seal(ctx.E, iv, a + b, Concat(pieces));
      && c == c'
      && (tag == tag'[..tagLen] <==> Gap(ctx.E(ZERO), Zeros(|c|), |b|, |a + b|)[..tagLen] == ZERO[..tagLen])
  {
    hide CtrAt, TagBlock, PreCounter, CounterRoom, Seal, Gap, Xor, ctx.Active, ctx.Idle, Concat;
    StartInTwoParts(ctx, iv, a, b);
    c := EncryptPieces(ctx, pieces, inPlace, maxBlk);
    var t := new bv8[tagLen](_ => 0);
    var status := ctx.Final(t, tagLen);
    tag := t[..];
    ghost var h := ctx.E(ZERO);
    if CounterRoom(PreCounter(h, iv), |Concat(pieces)|) {
      SealIsCtr(ctx.E, iv, a + b, Concat(pieces));
      TagsAgree(ctx.E, h, PreCounter(h, iv), a + b, c, c, |b|, |a + b|, tagLen);
      XorSelf(c);
    }
  }

  /** Decryption over the ciphertext's own buffer rejects a message that decryption into another one accepts:
      every block encrypted under the exchanging cipher and any IV of 12 octets. */
  method InPlaceRejects(iv: seq<bv8>, aad: seq<bv8>, text: Block, maxBlk: nat) returns (apart: int, inPlace: int)
    requires |iv| == 12 && |aad| < MAX_LENGTH
    ensures apart == 0 && inPlace == -1
  {
    hide CtrAt, TagBlock, PreCounter, CounterRoom, Seal, Mul, Exchange;
    var sender := new GcmContext(Exchange);
    var receiver := new GcmContext(Exchange);
    var other := new GcmContext(Exchange);
    assert Concat([text]) == text + [] == text;
    ghost var j0 := PreCounter(Exchange(ZERO), iv);
    var c, tag := SealPieces(sender, iv, aad, [text], 16, false, maxBlk);
    assert Concat([c]) == c + [] == c;
    var p, p';
    p, apart := OpenPieces(receiver, iv, aad, [c], tag, false, maxBlk);
    p', inPlace := OpenPieces(other, iv, aad, [c], tag, true, maxBlk);
    CtrInverse(Exchange, j0, text, 16);
    InPlaceDiffers(iv, aad, text, |aad|);
  }
}
