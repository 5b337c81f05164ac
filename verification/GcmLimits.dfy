/** Where the library's GCM and section 7.1 of NIST SP 800-38D part: a counter of 128 bits instead of 32,
    and a length of additional data that survives from one message to the next. */
module GcmLimits {
  import opened Bytes
  import opened Counter
  import opened Ctr
  import opened GfMul
  import opened GfTables
  import opened GfAlgebra
  import opened Ghash
  import opened Gcm
  import opened GcmContext

  // ----- the counter -----

  /** The text fits before the low counter word of the standard would run over. */
  ghost predicate CounterRoom(j0: Block, n: nat) {
    n <= 16 * (WRAP - 1 - Low32(j0))
  }

  /** With a 96-bit IV there is always room. */
  lemma RoomFor96BitIv(h: Block, iv: seq<bv8>, n: nat)
    requires |iv| == 12 && n < MAX_LENGTH
    ensures CounterRoom(PreCounter(h, iv), n)
  {
    var b: seq<bv8> := [0, 0, 0, 1];
    assert PreCounter(h, iv)[12..] == b;
    assert b[..3] == [0, 0, 0] && b[..3][..2] == [0, 0] && b[..3][..2][..1] == [0];
    assert BeNat([0]) == 0 && BeNat([0, 0]) == 0 && BeNat([0, 0, 0]) == 0;
  }

  // ----- a 96-bit IV, octet by octet -----

  /** The counters of a 96-bit IV: the IV and a big-endian 32-bit number that starts at one. */
  lemma CounterOf96BitIv(h: Block, iv: seq<bv8>, n: nat)
    requires |iv| == 12 && n < WRAP - 1
    ensures IncBy(PreCounter(h, iv), n) == iv + Word32(1 + n)
  {
    var j0 := PreCounter(h, iv);
    LowIsOne(h, iv);
    BothCounters(j0, n);
    hide PreCounter, Low32, Word32, Be, Inc, IncBy, Inc32By;
    var c := IncBy(j0, n);
    FourOctets(1 + n);
    BeNatInjective(c[12..], Be(1 + n, 4));
    Word32IsBe(1 + n);
    assert c == c[..12] + c[12..];
  }

  lemma LowIsOne(h: Block, iv: seq<bv8>)
    requires |iv| == 12
    ensures Low32(PreCounter(h, iv)) == 1 && PreCounter(h, iv)[..12] == iv
  {
    var b: seq<bv8> := [0, 0, 0, 1];
    assert PreCounter(h, iv)[12..] == b && PreCounter(h, iv)[..12] == iv;
    assert b[..3] == [0, 0, 0] && b[..3][..2] == [0, 0] && b[..3][..2][..1] == [0];
    assert BeNat([0]) == 0 && BeNat([0, 0]) == 0 && BeNat([0, 0, 0]) == 0;
  }

  lemma FourOctets(n: nat)
    requires n < WRAP
    ensures BeNat(Be(n, 4)) == n
  {
    assert Pow256(4) == WRAP;
    BeValue(n, 4);
  }

  /** Octet j of the text is combined with octet j mod 16 of E(IV, 2 + j div 16). */
  lemma TextOf96BitIv(E: BlockFn, iv: seq<bv8>, p: seq<bv8>, j: nat)
    requires |iv| == 12 && |p| < MAX_LENGTH && j < |p|
    ensures CtrAt(E, PreCounter(E(ZERO), iv), p, 16)[j] == XorOctet(p[j], E(iv + Word32(2 + j / 16))[j % 16])
  {
    hide PreCounter, Word32, IncBy, XorOctet;
    CounterOf96BitIv(E(ZERO), iv, 1 + j / 16);
    OctetPosition(1, j);
  }

  lemma TextBlock96BitIv(E: BlockFn, iv: seq<bv8>, p: seq<bv8>)
    requires |iv| == 12 && 16 <= |p| < MAX_LENGTH
    ensures CtrAt(E, PreCounter(E(ZERO), iv), p, 16)[..16] == Xor(p[..16], E(iv + [0, 0, 0, 2]))
  {
    hide PreCounter, CtrAt, XorOctet;
    SmallWord(2);
    forall j | 0 <= j < 16
      ensures CtrAt(E, PreCounter(E(ZERO), iv), p, 16)[j] == XorOctet(p[j], E(iv + [0, 0, 0, 2])[j])
    {
      TextOf96BitIv(E, iv, p, j);
    }
  }

  lemma SmallWord(b: bv8)
    ensures Word32(b as nat) == [0, 0, 0, b]
  {
    hide Octet;
    OctetOf(0, 0);
    OctetOf(b as nat, b);
    assert b as nat == Num(b) < 256;
  }

  lemma TagOf96BitIv(E: BlockFn, h: Block, iv: seq<bv8>, aad: seq<bv8>, c: seq<bv8>, a: nat)
    requires |iv| == 12
    ensures TagBlock(E, h, PreCounter(h, iv), aad, c, a) ==
      Xor(Hash(ZERO, Padded(aad) + Padded(c) + Be(8 * a, 8) + Be(8 * |c|, 8), h), E(iv + [0, 0, 0, 1]))
  {
    hide Hash, Padded, Be;
  }

  /** The standard's output is the library's key stream and tag. */
  lemma SealIsCtr(E: BlockFn, iv: seq<bv8>, aad: seq<bv8>, p: seq<bv8>)
    requires CounterRoom(PreCounter(E(ZERO), iv), |p|)
    ensures var j0 := PreCounter(E(ZERO), iv);
            var c := CtrAt(E, j0, p, 16);
            Seal(E, iv, aad, p) == (c, TagBlock(E, E(ZERO), j0, aad, c, |aad|))
  {
    hide PreCounter, TagBlock, CtrAt;
    var j0 := PreCounter(E(ZERO), iv);
    IncAgrees(j0);
    Inc32Value(j0);
    assert IncBy(j0, 1) == Inc(j0);
    CtrShift(E, j0, p, 1, 0);
    CtrIsCtrBlocks(E, Inc(j0), p);
    if p == [] {
      assert Gctr(E, Inc32(j0), p) == [] == CtrBlocks(E, Inc(j0), p);
    } else {
      GctrIsCtr(E, Inc32(j0), p);
    }
  }

  ghost predicate Injective(E: BlockFn) {
    forall a: Block, b: Block :: E(a) == E(b) ==> a == b
  }

  lemma XorKeysDiffer(x: Block, a: Block, b: Block)
    requires a != b
    ensures Xor(x, a) != Xor(x, b)
  {
    XorSelfInverse(x, a);
    XorSelfInverse(x, b);
  }

  lemma XorSameText(x: seq<bv8>, a: seq<bv8>, b: seq<bv8>)
    requires |x| == |a| == |b|
    ensures Xor(x, a) == Xor(x, b) <==> a == b
  {
    XorSelfInverse(x, a);
    XorSelfInverse(x, b);
  }

  lemma {:induction false} Inc32ByStep(b: Block, n: nat)
    ensures Inc32By(Inc32(b), n) == Inc32By(b, n + 1)
  {
    hide Inc32;
    if n > 0 {
      Inc32ByStep(b, n - 1);
    }
  }

  /** Under a block cipher GCTR and counter mode agree exactly when the low word lasts for the whole blocks and the
      two next key blocks agree as far as a partial last block needs them. */
  lemma {:induction false} GctrIsCtrExactly(E: BlockFn, b: Block, x: seq<bv8>)
    requires Injective(E)
    ensures var n, r := |x| / 16, |x| % 16;
      (Gctr(E, b, x) == CtrBlocks(E, b, x)) <==>
      (n <= WRAP - Low32(b) && E(Inc32By(b, n))[..r] == E(IncBy(b, n))[..r])
    decreases |x|
  {
    hide Low32, Injective, Inc, Inc32, Inc32By, IncBy;
    var n, r := |x| / 16, |x| % 16;
    Low32Bound(b);
    FirstCounters(b);
    if |x| > 16 {
      var rest := x[16..];
      IncAgrees(b);
      Inc32Value(b);
      Inc32ByStep(b, n - 1);
      IncByAdd(b, 1, n - 1);
      var g, c := Gctr(E, Inc32(b), rest), CtrBlocks(E, Inc(b), rest);
      assert Gctr(E, b, x)[16..] == g && CtrBlocks(E, b, x)[16..] == c;
      assert |rest| / 16 == n - 1 && |rest| % 16 == r;
      if Low32(b) == WRAP - 1 {
        OtherCounters(E, Inc32(b), Inc(b), rest);
      } else {
        GctrIsCtrExactly(E, Inc32(b), rest);
      }
    }
  }

  lemma FirstCounters(b: Block)
    ensures Inc32By(b, 0) == b == IncBy(b, 0) && Inc32By(b, 1) == Inc32(b) && IncBy(b, 1) == Inc(b)
  {
  }

  /** From different counters a text of a block or more comes out differently, a shorter one exactly when the key
      blocks differ where it needs them. */
  lemma OtherCounters(E: BlockFn, a: Block, b: Block, x: seq<bv8>)
    requires Injective(E) && a != b && x != []
    ensures Gctr(E, a, x) == CtrBlocks(E, b, x) <==> |x| < 16 && E(a)[..|x|] == E(b)[..|x|]
  {
    KeysDiffer(E, a, b);
    hide Injective;
    if |x| >= 16 {
      FirstBlocks(E, a, b, x);
      XorKeysDiffer(x[..16], E(a), E(b));
    } else {
      XorSameText(x, E(a)[..|x|], E(b)[..|x|]);
    }
  }

  lemma KeysDiffer(E: BlockFn, a: Block, b: Block)
    requires Injective(E) && a != b
    ensures E(a) != E(b)
  {
  }

  lemma FirstBlocks(E: BlockFn, a: Block, b: Block, x: seq<bv8>)
    requires |x| >= 16
    ensures |Gctr(E, a, x)| >= 16 && Gctr(E, a, x)[..16] == Xor(x[..16], E(a))
    ensures |CtrBlocks(E, b, x)| >= 16 && CtrBlocks(E, b, x)[..16] == Xor(x[..16], E(b))
  {
    assert |x| == 16 ==> x[..16] == x && E(a)[..16] == E(a) && E(b)[..16] == E(b);
  }

  /** The whole blocks of n octets have room, and the key blocks after them agree in the octets that are left. */
  ghost predicate SameKeys(E: BlockFn, j0: Block, n: nat) {
    var w, r := n / 16, n % 16;
    CounterRoom(j0, 16 * w) && E(Inc32By(Inc32(j0), w))[..r] == E(IncBy(j0, w + 1))[..r]
  }

  /** Under a block cipher the library's ciphertext is the standard's exactly when there is room for the whole
      blocks of the text and the two next key blocks agree as far as a partial last block needs them. */
  lemma SealIsCtrExactly(E: BlockFn, iv: seq<bv8>, aad: seq<bv8>, p: seq<bv8>)
    requires Injective(E)
    ensures Seal(E, iv, aad, p).0 == CtrAt(E, PreCounter(E(ZERO), iv), p, 16)
       <==> SameKeys(E, PreCounter(E(ZERO), iv), |p|)
  {
    hide PreCounter, TagBlock, CtrAt, Injective, Inc32By, IncBy, Inc, Inc32, Low32;
    var j0 := PreCounter(E(ZERO), iv);
    var n, r := |p| / 16, |p| % 16;
    IncAgrees(j0);
    Inc32Value(j0);
    Low32Bound(j0);
    FirstCounters(j0);
    FirstCounters(Inc32(j0));
    IncByAdd(j0, 1, n);
    CtrShift(E, j0, p, 1, 0);
    CtrIsCtrBlocks(E, Inc(j0), p);
    if p == [] {
      assert Gctr(E, Inc32(j0), p) == [] == CtrBlocks(E, Inc(j0), p);
    } else if Low32(j0) == WRAP - 1 {
      OtherCounters(E, Inc32(j0), Inc(j0), p);
    } else {
      GctrIsCtrExactly(E, Inc32(j0), p);
    }
  }

  /** The block cipher that exchanges the blocks zero and one. */
  function Exchange(b: Block): Block {
    if b == ZERO then ONE else if b == ONE then ZERO else b
  }

  const ODD_IV: Block := [0, 0, 0, 0, 0, 0, 0, 0, 0, 0, 0, 0, 0xff, 0xff, 0xff, 0x7f]

  /** With the hash key one, hashing a block adds it. */
  lemma HashByOne(y: Block, x: Block)
    ensures Hash(y, x, ONE) == XorBlock(y, x)
  {
    MulOne(XorBlock(y, x));
    hide Mul, XorBlock;
    HashSplit(y, x, ONE);
    assert x[..16] == x && x[16..] == [];
  }

  lemma OctetOf(n: nat, b: bv8)
    requires n == b as nat
    ensures Octet(n) == b
  {
    assert n == Num(b) < 256;
    NatToOctet(b, n);
  }

  lemma WordOf128()
    ensures Word32(8 * 16) == [0, 0, 0, 0x80]
  {
    hide Octet;
    OctetOf(0, 0);
    OctetOf(128, 0x80);
  }

  lemma OneBlockLength()
    ensures Be(0, 8) + Be(8 * 16, 8) == ZERO[15 := 0x80]
  {
    WordOf128();
    hide Be, Word32;
    IvLengthBlock(16);
  }

  lemma OddSum()
    ensures XorBlock(ODD_IV, ZERO[15 := 0x80]) == ZERO[..12] + [0xff, 0xff, 0xff, 0xff]
  {
    var last: Block := ZERO[15 := 0x80];
    assert XorBlock(ODD_IV, last)[15] == 0xff;
    forall k | 0 <= k < 15 ensures XorBlock(ODD_IV, last)[k] == ODD_IV[k] {
      XorOctetLaws(ODD_IV[k], 0, 0);
    }
  }

  lemma OddPreCounter()
    ensures PreCounter(ONE, ODD_IV) == ZERO[..12] + [0xff, 0xff, 0xff, 0xff]
  {
    hide PreCounter, Hash, Be, XorBlock;
    PreCounterParts(ONE, ODD_IV);
    OneBlockLength();
    HashByOne(ZERO, ODD_IV);
    XorZero(ODD_IV);
    HashByOne(ODD_IV, ZERO[15 := 0x80]);
    OddSum();
  }

  lemma ExchangeIsInjective()
    ensures Injective(Exchange) && Exchange(ZERO) == ONE
  {
  }

  lemma NoRoom(j0: Block)
    requires AllOnes(j0[12..])
    ensures !CounterRoom(j0, 16)
  {
    Low32Bound(j0);
    hide Low32;
  }

  /** There are a block cipher, an IV and a text of one block for which the library's ciphertext is wrong. */
  lemma CounterFails(aad: seq<bv8>, p: Block)
    ensures Injective(Exchange)
    ensures Seal(Exchange, ODD_IV, aad, p).0 != CtrAt(Exchange, PreCounter(Exchange(ZERO), ODD_IV), p, 16)
  {
    OddPreCounter();
    ExchangeIsInjective();
    hide PreCounter, Exchange, Inc32By, IncBy, Inc32, Seal, CtrAt, CounterRoom;
    NoRoom(PreCounter(ONE, ODD_IV));
    SealIsCtrExactly(Exchange, ODD_IV, aad, p);
  }

  // ----- the length of the additional data -----

  /** The last block of section 7.1, step 5, for a and n octets. */
  function Lengths(a: nat, n: nat): Block {
    Be(8 * a, 8) + Be(8 * n, 8)
  }

  /** What counting a octets instead of none changes in the last block. */
  function Excess(a: nat): Block {
    Be(8 * a, 8) + Zeros(8)
  }

  lemma ExcessIsDifference(a: nat, n: nat)
    ensures XorBlock(Lengths(a, n), Lengths(0, n)) == Excess(a)
  {
    BeZero(8);
    var x, y, z := Be(8 * a, 8), Be(8 * n, 8), Zeros(8);
    hide Be, XorOctet;
    forall k | 0 <= k < 16 ensures XorBlock(x + y, z + y)[k] == (x + z)[k] {
      if k < 8 {
        XorOctetLaws(x[k], 0, 0);
      } else {
        XorOctetSelf(y[k-8]);
      }
    }
  }

  lemma XorOctetSelf(b: bv8)
    ensures XorOctet(b, b) == 0
  {
  }

  // ----- GHASH is linear -----

  lemma PaddedXor(a: seq<bv8>, b: seq<bv8>)
    requires |a| == |b|
    ensures Xor(Padded(a), Padded(b)) == Padded(Xor(a, b))
  {
    hide XorOctet;
    XorOctetSelf(0);
  }

  lemma HashBlockLinear(y: Block, x: Block, y': Block, x': Block, h: Block)
    ensures XorBlock(HashBlock(y, x, h), HashBlock(y', x', h)) == HashBlock(XorBlock(y, y'), XorBlock(x, x'), h)
  {
    hide Mul, XorBlock;
    MulLinear(XorBlock(y, x), XorBlock(y', x'), h);
    XorInterchange(y, x, y', x');
  }

  /** GHASH is linear in the chaining value and the text together. */
  lemma {:induction false} HashLinear(y: Block, a: seq<bv8>, y': Block, b: seq<bv8>, h: Block)
    requires |a| == |b|
    ensures XorBlock(Hash(y, a, h), Hash(y', b, h)) == Hash(XorBlock(y, y'), Xor(a, b), h)
    decreases |a|
  {
    hide HashBlock, XorBlock, Padded, XorOctet;
    if a == [] {
      assert Xor(a, b) == [];
    } else if |a| < 16 {
      PaddedXor(a, b);
      HashBlockLinear(y, Padded(a), y', Padded(b), h);
      SameXor(Padded(a), Padded(b));
    } else {
      HashBlockLinear(y, a[..16], y', b[..16], h);
      HashLinear(HashBlock(y, a[..16], h), a[16..], HashBlock(y', b[..16], h), b[16..], h);
      SameXor(a[..16], b[..16]);
      assert Xor(a, b)[..16] == Xor(a[..16], b[..16]) && Xor(a, b)[16..] == Xor(a[16..], b[16..]);
    }
  }

  lemma SameXor(a: Block, b: Block)
    ensures XorBlock(a, b) == Xor(a, b)
  {
  }

  // ----- what separates two tags -----

  lemma LengthsHashed(E: BlockFn, h: Block, j0: Block, aad: seq<bv8>, c: seq<bv8>, a: nat)
    ensures TagBlock(E, h, j0, aad, c, a)
         == XorBlock(Mul(XorBlock(Hash(Hash(ZERO, aad, h), c, h), Lengths(a, |c|)), h), E(j0))
  {
    hide TagBlock, Mul, XorBlock, Be;
    TagParts(E, h, j0, aad, c, a);
    var l := Lengths(a, |c|);
    HashSplit(Hash(Hash(ZERO, aad, h), c, h), l, h);
    assert l[..16] == l && l[16..] == [];
  }

  /** What separates the tag over c and a count of a from that over p and a count of b. */
  function Gap(h: Block, d: seq<bv8>, a: nat, b: nat): Block {
    Mul(XorBlock(Hash(ZERO, d, h), XorBlock(Lengths(a, |d|), Lengths(b, |d|))), h)
  }

  lemma TagDifference(E: BlockFn, h: Block, j0: Block, aad: seq<bv8>, c: seq<bv8>, p: seq<bv8>, a: nat, b: nat)
    requires |c| == |p|
    ensures XorBlock(TagBlock(E, h, j0, aad, c, a), TagBlock(E, h, j0, aad, p, b)) == Gap(h, Xor(c, p), a, b)
  {
    hide TagBlock, Hash, Mul, XorBlock, Lengths, Be, Xor;
    var y, l, l' := Hash(ZERO, aad, h), Lengths(a, |c|), Lengths(b, |c|);
    var x, x' := Hash(y, c, h), Hash(y, p, h);
    LengthsHashed(E, h, j0, aad, c, a);
    LengthsHashed(E, h, j0, aad, p, b);
    var u, v := XorBlock(x, l), XorBlock(x', l');
    XorInterchange(Mul(u, h), E(j0), Mul(v, h), E(j0));
    XorZero(E(j0));
    XorZero(XorBlock(Mul(u, h), Mul(v, h)));
    MulLinear(u, v, h);
    XorInterchange(x, l, x', l');
    HashLinear(y, c, y, p, h);
    XorZero(y);
  }

  lemma PrefixXor(a: Block, b: Block, n: nat)
    requires n <= 16
    ensures a[..n] == b[..n] <==> XorBlock(a, b)[..n] == ZERO[..n]
  {
    hide XorOctet;
    forall i | 0 <= i < 16 ensures XorBlock(a, b)[i] == 0 <==> a[i] == b[i] {
      XorOctetZeroIf(a[i], b[i]);
    }
    assert forall i | 0 <= i < n :: a[..n][i] == a[i] && b[..n][i] == b[i];
    assert forall i | 0 <= i < n :: XorBlock(a, b)[..n][i] == XorBlock(a, b)[i] && ZERO[..n][i] == 0;
  }

  lemma XorOctetZeroIf(a: bv8, b: bv8)
    ensures XorOctet(a, b) == 0 <==> a == b
  {
  }

  /** Tags of n octets over two texts of one length and two counts of additional data are equal exactly when the
      gap begins with n zero octets. */
  lemma TagsAgree(E: BlockFn, h: Block, j0: Block, aad: seq<bv8>, c: seq<bv8>, p: seq<bv8>, a: nat, b: nat, n: nat)
    requires |c| == |p| && n <= 16
    ensures TagBlock(E, h, j0, aad, c, a)[..n] == TagBlock(E, h, j0, aad, p, b)[..n]
       <==> Gap(h, Xor(c, p), a, b)[..n] == ZERO[..n]
  {
    hide TagBlock, Gap, XorBlock, Xor;
    TagDifference(E, h, j0, aad, c, p, a, b);
    PrefixXor(TagBlock(E, h, j0, aad, c, a), TagBlock(E, h, j0, aad, p, b), n);
  }

  lemma WholeBlock(b: Block)
    ensures b[..16] == b
  {
  }

  lemma {:induction false} HashZeros(n: nat, h: Block)
    ensures Hash(ZERO, Zeros(n), h) == ZERO
  {
    MulZero(h);
    hide Mul, XorBlock;
    if n >= 16 {
      assert Zeros(n)[..16] == ZERO && Zeros(n)[16..] == Zeros(n - 16);
      XorZero(ZERO);
      HashZeros(n - 16, h);
    } else if n > 0 {
      assert Padded(Zeros(n)) == ZERO;
      XorZero(ZERO);
    } else {
      assert Zeros(n) == [];
    }
  }

  lemma MulZero(h: Block)
    ensures Mul(ZERO, h) == ZERO
  {
    hide Mul, XorBlock;
    XorZero(ZERO);
    MulLinear(ZERO, ZERO, h);
    XorZero(Mul(ZERO, h));
  }

  lemma XorSelf(c: seq<bv8>)
    ensures Xor(c, c) == Zeros(|c|)
  {
    hide XorOctet;
    forall i | 0 <= i < |c| ensures XorOctet(c[i], c[i]) == 0 {
      XorOctetSelf(c[i]);
    }
  }

  /** The gap between two counts over one text. */
  lemma LengthGap(h: Block, n: nat, a: nat, b: nat)
    ensures Gap(h, Zeros(n), a, b) == Mul(XorBlock(Lengths(a, n), Lengths(b, n)), h)
    ensures a == b ==> Gap(h, Zeros(n), a, b) == ZERO
  {
    hide Mul, XorBlock, Lengths, Hash, Zeros;
    HashZeros(n, h);
    XorZero(XorBlock(Lengths(a, n), Lengths(b, n)));
    XorZero(Lengths(a, n));
    MulZero(h);
  }

  /** A count of a octets when there are none leaves a tag of n octets right exactly when Excess(a) times the hash
      key begins with n zero octets. */
  lemma StaleLength(E: BlockFn, h: Block, j0: Block, c: seq<bv8>, a: nat, n: nat)
    requires n <= 16
    ensures TagBlock(E, h, j0, [], c, a)[..n] == TagBlock(E, h, j0, [], c, 0)[..n]
       <==> Mul(Excess(a), h)[..n] == ZERO[..n]
  {
    hide TagBlock, Mul, XorBlock, Lengths, Excess, Gap, Xor;
    TagsAgree(E, h, j0, [], c, c, a, 0, n);
    XorSelf(c);
    LengthGap(h, |c|, a, 0);
    ExcessIsDifference(a, |c|);
  }

  /** After one octet of additional data eight are counted, and what that changes is the hash key times x^57: it
      is zero for the hash key zero only. */
  lemma OneOctetStale(h: Block)
    ensures Mul(Excess(8), h) == Power(h, 57)
    ensures Mul(Excess(8), h) == ZERO <==> h == ZERO
  {
    ExcessOfEight();
    forall j: nat | j < 128 ensures BlockBit(Excess(8), j) <==> 57 == j {
      NoBit(j % 8);
      UnitBits(1, j % 8);
    }
    hide Mul;
    UnitProduct(Excess(8), h, 57);
  }

  lemma ExcessOfEight()
    ensures Excess(8) == ZERO[7 := Unit(1)]
  {
    WordOf64();
    LengthOctets(8);
    hide Be, Word32;
    assert Zeros(8) == ZERO[8..];
  }

  lemma WordOf64()
    ensures Word32(8 * 8) == [0, 0, 0, 0x40]
  {
    hide Octet;
    OctetOf(0, 0);
    OctetOf(64, 0x40);
  }

  // ----- hashing the text instead of the ciphertext -----

  /** The key stream of a text of n octets. */
  function KeyStream(E: BlockFn, j0: Block, n: nat): (s: seq<bv8>)
    ensures |s| == n
  {
    CtrAt(E, j0, Zeros(n), 16)
  }

  /** It is what text and ciphertext differ by. */
  lemma TextsDiffer(E: BlockFn, j0: Block, p: seq<bv8>)
    ensures Xor(CtrAt(E, j0, p, 16), p) == KeyStream(E, j0, |p|)
  {
    hide KeyOctet, XorOctet;
    forall i | 0 <= i < |p|
      ensures XorOctet(XorOctet(p[i], KeyOctet(E, j0, 16 + i)), p[i]) == XorOctet(0, KeyOctet(E, j0, 16 + i))
    {
      XorOctetBack(p[i], KeyOctet(E, j0, 16 + i));
    }
  }

  lemma XorOctetBack(a: bv8, k: bv8)
    ensures XorOctet(XorOctet(a, k), a) == XorOctet(0, k)
  {
  }

  /** Whether tags of n octets over a ciphertext and over its text agree depends on the key stream alone. */
  lemma TextsAgree(E: BlockFn, h: Block, j0: Block, aad: seq<bv8>, p: seq<bv8>, a: nat, b: nat, n: nat)
    requires n <= 16
    ensures TagBlock(E, h, j0, aad, CtrAt(E, j0, p, 16), a)[..n] == TagBlock(E, h, j0, aad, p, b)[..n]
       <==> Gap(h, KeyStream(E, j0, |p|), a, b)[..n] == ZERO[..n]
  {
    hide TagBlock, Gap, CtrAt, Xor, KeyStream;
    TextsDiffer(E, j0, p);
    TagsAgree(E, h, j0, aad, CtrAt(E, j0, p, 16), p, a, b, n);
  }

  /** A text of one block, in place, under the exchanging cipher: the tag comes out differently. */
  lemma InPlaceDiffers(iv: seq<bv8>, aad: seq<bv8>, p: Block, a: nat)
    requires |iv| == 12
    ensures var j0 := PreCounter(Exchange(ZERO), iv);
            var c := CtrAt(Exchange, j0, p, 16);
            TagBlock(Exchange, Exchange(ZERO), j0, aad, c, a) != TagBlock(Exchange, Exchange(ZERO), j0, aad, p, a)
  {
    SecondCounter(iv);
    hide CtrAt, Exchange, PreCounter, TagBlock, Gap, XorOctet, IncBy, KeyStream;
    var j0 := PreCounter(ONE, iv);
    var key := Exchange(IncBy(j0, 1));
    FirstKey(Exchange, j0);
    TextsAgree(Exchange, ONE, j0, aad, p, a, a, 16);
    GapByOne(key, a);
    WholeBlock(key);
    WholeBlock(ZERO);
  }

  lemma FirstKey(E: BlockFn, j0: Block)
    ensures KeyStream(E, j0, 16) == E(IncBy(j0, 1))
  {
    hide IncBy, CtrAt;
    var key := E(IncBy(j0, 1));
    assert Zeros(16) == ZERO && key[..16] == key;
    CtrBlock(E, j0, ZERO, 1);
    XorZero(key);
  }

  /** With the hash key one the gap of one block is the block itself. */
  lemma GapByOne(key: Block, a: nat)
    ensures Gap(ONE, key, a, a) == key
  {
    hide Hash, Mul, XorBlock, Lengths;
    HashByOne(ZERO, key);
    XorZero(key);
    XorZero(Lengths(a, 16));
    MulOne(key);
  }

  lemma SecondCounter(iv: seq<bv8>)
    requires |iv| == 12
    ensures Exchange(ZERO) == ONE && Exchange(IncBy(PreCounter(ONE, iv), 1)) != ZERO
  {
    var b := iv + [0, 0, 0, 1];
    assert Inc(b) == iv + [0, 0, 0, 2];
    assert Inc(b)[15] == 2 && ONE[15] == 0 && ZERO[15] == 0;
  }
}
