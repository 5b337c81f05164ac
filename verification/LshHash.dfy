/** The LSH-256 hash function: one-then-zeros padding over bit strings, and the fold of the
    compression function. */
module LshHash {
  import opened Bytes
  import opened Lsh256
  import opened Words
  import GfMul

  // ----- types and initial values -----

  /** The numeric code of a hash: the octets of the digest in its low 16 bits, the family in the next four, and in
      the top eight the bits of the last octet that are not part of the digest. */
  type AlgType = t: nat | t < WRAP

  function Len(t: AlgType): nat { t % 0x10000 }
  function Unused(t: AlgType): nat { t / 0x1000000 }

  predicate IsLsh256(t: AlgType) {
    t / 0x10000 % 16 == 0
  }

  /** The types the library can set up. */
  predicate Supported(t: AlgType) {
    IsLsh256(t) && 0 < Len(t) <= 32
  }

  /** The types its update and final functions turn down. */
  predicate Refused(t: AlgType) {
    t == 0 || Len(t) > 32
  }

  const TYPE_256: AlgType := 0x20
  const TYPE_224: AlgType := 0x1C

  const IV_256: Pair := Pair(
    [0x46a10f1f, 0xfddce486, 0xb41443a8, 0x198e6b9d, 0x3304388d, 0xb0f5a3c7, 0xb36061c4, 0x7adbd553],
    [0x105d5378, 0x2f74de54, 0x5c2f2d95, 0xf2553fbe, 0x8051357a, 0x138668c8, 0x47aa4484, 0xe01afb41])

  const IV_224: Pair := Pair(
    [0x068608d3, 0x62d8f7a7, 0xd76652ab, 0x4c600a43, 0xbdc40aa8, 0x1eca0b68, 0xda1a89be, 0x3147d354],
    [0x707eb4f9, 0xf65b3862, 0x6b0b2abe, 0x56b8ec0a, 0xcf237286, 0xee0d1727, 0x33636595, 0x8bb8d05f])

  /** The digest length in bits, in 32-bit arithmetic. */
  function LenBits(t: AlgType): bv32 {
    ((8 * Len(t) - Unused(t)) % WRAP) as bv32
  }

  /** The longest digest length in octets and the one wanted in bits, in front of zeros. */
  function Seed(t: AlgType): Pair {
    Pair([32, LenBits(t), 0, 0, 0, 0, 0, 0], ZERO_HALF)
  }

  /** n steps without a message. */
  function Stirred(p: Pair, sc: StepConstants, n: nat): Pair
    requires n <= NUM_STEPS
  {
    if n == 0 then p else WordPerm(Mix(Stirred(p, sc, n - 1), sc[n-1], Alpha(n - 1), Beta(n - 1)))
  }

  function InitialValue(sc: StepConstants, t: AlgType): Pair {
    if t == TYPE_256 then IV_256 else if t == TYPE_224 then IV_224 else Stirred(Seed(t), sc, NUM_STEPS)
  }

  const NOTHING: Pair := Pair(ZERO_HALF, ZERO_HALF)

  lemma {:induction false} NoMessage(m: (Pair, Pair), j: nat)
    requires m == (NOTHING, NOTHING)
    ensures Msg(m, j) == NOTHING
  {
    hide ExpandHalf;
    if j > 1 {
      NoMessage(m, j - 1);
      NoMessage(m, j - 2);
      NothingExpanded();
    }
  }

  lemma NothingExpanded()
    ensures ExpandHalf(ZERO_HALF, ZERO_HALF) == ZERO_HALF
  {
    ZeroWords(0);
    hide Add, Tau;
  }

  lemma ZeroWords(w: bv32)
    ensures Add(0, 0) == 0 && XorWord(w, 0) == w && LoadWord([0, 0, 0, 0]) == 0
  {
  }

  lemma NothingAdded(t: Pair)
    ensures MsgAdd(t, NOTHING) == t
  {
    hide XorWord;
    forall i | 0 <= i < 8 ensures XorWord(t.l[i], 0) == t.l[i] && XorWord(t.r[i], 0) == t.r[i] {
      ZeroWords(t.l[i]);
      ZeroWords(t.r[i]);
    }
  }

  lemma {:induction false} StirredIsSteps(p: Pair, sc: StepConstants, n: nat)
    requires n <= NUM_STEPS
    ensures Stirred(p, sc, n) == Steps(p, (NOTHING, NOTHING), sc, n)
  {
    hide Msg, MsgAdd, Mix, WordPerm;
    if n > 0 {
      StirredIsSteps(p, sc, n - 1);
      NoMessage((NOTHING, NOTHING), n - 1);
      NothingAdded(Stirred(p, sc, n - 1));
    }
  }

  lemma ZeroHalfLoaded(i: nat)
    requires i < 4
    ensures HalfOf(Zeros(128), i) == ZERO_HALF
  {
    ZeroWords(0);
    hide LoadWord;
    forall k: nat | k < 8 ensures HalfOf(Zeros(128), i)[k] == 0 {
      assert Zeros(128)[32*i+4*k..32*i+4*k+4] == [0, 0, 0, 0];
    }
  }

  lemma ZerosLoaded()
    ensures Loaded(Zeros(128)) == (NOTHING, NOTHING)
  {
    ZeroHalfLoaded(0);
    ZeroHalfLoaded(1);
    ZeroHalfLoaded(2);
    ZeroHalfLoaded(3);
    hide HalfOf, Zeros;
  }

  /** Where the initial value is computed, it is the compression of an all-zero block into the seed. */
  lemma InitialValueIsCompression(sc: StepConstants, t: AlgType)
    requires t != TYPE_256 && t != TYPE_224
    ensures InitialValue(sc, t) == Compress(Seed(t), Zeros(128), sc)
  {
    hide Stirred, Steps, Loaded, Msg, MsgAdd, Seed;
    StirredIsSteps(Seed(t), sc, NUM_STEPS);
    ZerosLoaded();
    NoMessage((NOTHING, NOTHING), NUM_STEPS);
    NothingAdded(Stirred(Seed(t), sc, NUM_STEPS));
  }

  /** What a hash depends on: the step constants, the initial value, the octets of its digest, and the bits of
      the last octet that are not part of it. */
  datatype Variant = Variant(sc: StepConstants, iv: Pair, len: nat, unused: nat)

  predicate IsVariant(v: Variant) {
    0 < v.len <= 32 && v.unused < 8
  }

  function VariantOf(sc: StepConstants, t: AlgType): Variant {
    Variant(sc, InitialValue(sc, t), Len(t), Unused(t))
  }

  // ----- padding -----

  /** The first n bits of an octet, most significant first. */
  function Leading(b: bv8, n: nat): bv8
    requires n < 8
  {
    match n
    case 0 => b & 0x00 case 1 => b & 0x80 case 2 => b & 0xC0 case 3 => b & 0xE0
    case 4 => b & 0xF0 case 5 => b & 0xF8 case 6 => b & 0xFC case _ => b & 0xFE
  }

  function MarkBit(n: nat): bv8
    requires n < 8
  {
    match n
    case 0 => 0x80 case 1 => 0x40 case 2 => 0x20 case 3 => 0x10
    case 4 => 0x08 case 5 => 0x04 case 6 => 0x02 case _ => 0x01
  }

  /** The n bits of a last octet followed by a one. */
  function Marked(b: bv8, n: nat): bv8
    requires n < 8
  {
    Leading(b, n) | MarkBit(n)
  }

  /** The octets d and then n bits of b, padded to whole blocks. */
  function Padded(d: seq<bv8>, b: bv8, n: nat): seq<bv8>
    requires n < 8
  {
    d + [Marked(b, n)] + Zeros(127 - |d| % 128)
  }

  lemma PaddedLength(d: seq<bv8>, b: bv8, n: nat)
    requires n < 8
    ensures |Padded(d, b, n)| == |d| / 128 * 128 + 128
  {
  }

  /** The bits of an octet, most significant first. */
  function OctetBits(b: bv8): (s: seq<bool>)
    ensures |s| == 8
  {
    seq(8, i requires 0 <= i < 8 => GfMul.BitOf(b, i))
  }

  function Bits(m: seq<bv8>): (s: seq<bool>)
    ensures |s| == 8 * |m|
  {
    if m == [] then [] else Bits(m[..|m|-1]) + OctetBits(m[|m|-1])
  }

  function Falses(n: nat): seq<bool> {
    seq(n, _ => false)
  }

  function OneThenZeros(x: seq<bool>, k: nat): seq<bool> {
    x + [true] + Falses(k)
  }

  lemma {:induction false} BitsConcat(m: seq<bv8>, n: seq<bv8>)
    ensures Bits(m + n) == Bits(m) + Bits(n)
  {
    hide OctetBits;
    if n == [] {
      assert m + n == m && Bits(m) + [] == Bits(m);
    } else {
      BitsConcat(m, n[..|n|-1]);
      assert (m + n)[..|m+n|-1] == m + n[..|n|-1];
    }
  }

  lemma MarkedBit(b: bv8, n: nat, i: nat)
    requires n < 8 && i < 8
    ensures GfMul.BitOf(Marked(b, n), i) == if i < n then GfMul.BitOf(b, i) else i == n
  {
    match i
    case 0 => case 1 => case 2 => case 3 => case 4 => case 5 => case 6 => case _ =>
  }

  lemma MarkedBits(b: bv8, n: nat)
    requires n < 8
    ensures OctetBits(Marked(b, n)) == OneThenZeros(OctetBits(b)[..n], 7 - n)
  {
    hide GfMul.BitOf, Marked;
    forall i | 0 <= i < 8 ensures GfMul.BitOf(Marked(b, n), i) == if i < n then GfMul.BitOf(b, i) else i == n {
      MarkedBit(b, n, i);
    }
  }

  lemma {:induction false} ZeroBits(n: nat)
    ensures Bits(Zeros(n)) == Falses(8 * n)
  {
    if n > 0 {
      ZeroBits(n - 1);
      assert Zeros(n)[..n-1] == Zeros(n - 1);
      assert OctetBits(0) == Falses(8);
    }
  }

  lemma PaddedParts(d: seq<bv8>, o: bv8, z: nat)
    ensures Bits(d + [o] + Zeros(z)) == (Bits(d) + OctetBits(o)) + Falses(8 * z)
  {
    hide OctetBits, Bits, Zeros, Falses;
    BitsConcat(d + [o], Zeros(z));
    BitsConcat(d, [o]);
    OneOctet(o);
    ZeroBits(z);
  }

  lemma MarkThenZeros(d: seq<bv8>, b: bv8, n: nat, z: nat)
    requires n < 8
    ensures Bits(d + [Marked(b, n)] + Zeros(z)) == OneThenZeros(Bits(d) + OctetBits(b)[..n], 7 - n + 8 * z)
  {
    hide OctetBits, Marked, Bits, Falses, Zeros, OneThenZeros;
    PaddedParts(d, Marked(b, n), z);
    MarkedBits(b, n);
    Prepend(Bits(d), OctetBits(b)[..n], 7 - n);
    MoreZeros(Bits(d) + OctetBits(b)[..n], 7 - n, 8 * z);
  }

  lemma PaddedIs(d: seq<bv8>, b: bv8, n: nat, z: nat)
    requires n < 8 && z == 127 - |d| % 128
    ensures Padded(d, b, n) == d + [Marked(b, n)] + Zeros(z)
  {
    hide Marked, Zeros;
  }

  /** The padding, on bits: the message, a one, and zeros up to a whole number of blocks. */
  lemma PaddedIsOneThenZeros(d: seq<bv8>, b: bv8, n: nat, z: nat)
    requires n < 8 && z == 127 - |d| % 128
    ensures Bits(Padded(d, b, n)) == OneThenZeros(Bits(d) + OctetBits(b)[..n], 7 - n + 8 * z)
  {
    hide OctetBits, Marked, Bits, Zeros, OneThenZeros, Padded;
    PaddedIs(d, b, n, z);
    MarkThenZeros(d, b, n, z);
  }

  lemma Prepend(x: seq<bool>, y: seq<bool>, k: nat)
    ensures x + OneThenZeros(y, k) == OneThenZeros(x + y, k)
  {
  }

  lemma MoreZeros(x: seq<bool>, j: nat, k: nat)
    ensures OneThenZeros(x, j) + Falses(k) == OneThenZeros(x, j + k)
  {
    assert Falses(j) + Falses(k) == Falses(j + k);
  }

  lemma OneOctet(b: bv8)
    ensures Bits([b]) == OctetBits(b)
  {
    assert [b][..0] == [];
  }

  // ----- the hash -----

  /** The compression function folded over whole blocks. */
  function Blocks(t: Pair, m: seq<bv8>, sc: StepConstants): Pair
    requires |m| % 128 == 0
  {
    if m == [] then t
    else
      var n := |m| - 128;
      Compress(Blocks(t, m[..n], sc), m[n..], sc)
  }

  lemma BlocksSnoc(t: Pair, m: seq<bv8>, b: seq<bv8>, sc: StepConstants)
    requires |m| % 128 == 0 && |b| == 128
    ensures Blocks(t, m + b, sc) == Compress(Blocks(t, m, sc), b, sc)
  {
    hide Compress;
    assert (m + b)[..|m|] == m && (m + b)[|m|..] == b;
  }

  function StoreHalf(h: Half): (s: seq<bv8>)
    ensures |s| == 32
  {
    StoreWord(h[0]) + StoreWord(h[1]) + StoreWord(h[2]) + StoreWord(h[3]) +
    StoreWord(h[4]) + StoreWord(h[5]) + StoreWord(h[6]) + StoreWord(h[7])
  }

  /** The first octets, without the unused bits of the last one. */
  function Truncated(h: seq<bv8>, v: Variant): (s: seq<bv8>)
    requires |h| == 32 && IsVariant(v)
    ensures |s| == v.len
  {
    if v.unused == 0 then h[..v.len] else h[..v.len-1] + [Leading(h[v.len-1], 8 - v.unused)]
  }

  /** Both halves combined and cut to the digest length. */
  function Output(t: Pair, v: Variant): (s: seq<bv8>)
    requires IsVariant(v)
    ensures |s| == v.len
  {
    Truncated(StoreHalf(XorHalf(t.l, t.r)), v)
  }

  /** The hash of the octets d and then n bits of b. */
  function Hash(v: Variant, d: seq<bv8>, b: bv8, n: nat): (h: seq<bv8>)
    requires IsVariant(v) && n < 8
    ensures |h| == v.len
  {
    PaddedLength(d, b, n);
    Output(Blocks(v.iv, Padded(d, b, n), v.sc), v)
  }

  /** The hash of a prefix and the first n bits of x. */
  function HashBits(v: Variant, prefix: seq<bv8>, x: seq<bv8>, n: nat): seq<bv8>
    requires IsVariant(v) && n <= 8 * |x|
  {
    Hash(v, prefix + x[..n/8], if n % 8 > 0 then x[n/8] else 0, n % 8)
  }
}
