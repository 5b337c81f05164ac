/** The three multipliers of the library over their tables, each proved equal to GfMul.Mul. */
module GfTables {
  import opened Bytes
  import opened GfMul

  // ----- the sum an octet of x contributes, and the product in Horner form -----

  /** The sum of h * x^j over the set bits among the first n of octet b. */
  function OctetSum(b: bv8, h: Block, n: nat := 8): Block
    requires n <= 8
  {
    if n == 0 then ZERO else XorBlock(OctetSum(b, h, n - 1), When(BitOf(b, n - 1), Power(h, n - 1)))
  }

  /** Octets k.. of x, as a polynomial in x^8 with octet sums for coefficients. */
  function Horner(x: Block, h: Block, k: nat): Block
    requires k <= 16
    decreases 16 - k
  {
    if k == 16 then ZERO else XorBlock(OctetSum(x[k], h), Power(Horner(x, h, k + 1), 8))
  }

  lemma PowerWhen(c: bool, v: Block, n: nat)
    ensures Power(When(c, v), n) == When(c, Power(v, n))
  {
    PowerZero(n);
    hide Power;
  }

  lemma {:induction false} SumToOctet(x: Block, h: Block, k: nat, n: nat)
    requires k < 16 && n <= 8
    ensures SumTo(x, h, 8 * k + n) == XorBlock(SumTo(x, h, 8 * k), Power(OctetSum(x[k], h, n), 8 * k))
  {
    hide Power, XorBlock, BitOf, When;
    if n == 0 {
      PowerZero(8 * k);
      XorZero(SumTo(x, h, 8 * k));
    } else {
      SumToOctet(x, h, k, n - 1);
      var i, s, o := 8 * k + n - 1, SumTo(x, h, 8 * k), OctetSum(x[k], h, n - 1);
      var last := When(BitOf(x[k], n - 1), Power(h, n - 1));
      assert i / 8 == k && i % 8 == n - 1;
      PowerLinear(o, last, 8 * k);
      PowerWhen(BitOf(x[k], n - 1), Power(h, n - 1), 8 * k);
      PowerAdd(h, n - 1, 8 * k);
      XorBlockAssoc(s, Power(o, 8 * k), Power(last, 8 * k));
    }
  }

  lemma XorBlockAssoc(a: Block, b: Block, c: Block)
    ensures XorBlock(XorBlock(a, b), c) == XorBlock(a, XorBlock(b, c))
  {
    XorAssoc(a, b, c);
  }

  lemma {:induction false} MulHornerFrom(x: Block, h: Block, k: nat)
    requires k <= 16
    ensures Mul(x, h) == XorBlock(SumTo(x, h, 8 * k), Power(Horner(x, h, k), 8 * k))
    decreases 16 - k
  {
    hide Power, XorBlock, SumTo, OctetSum;
    if k == 16 {
      PowerZero(128);
      XorZero(SumTo(x, h, 128));
    } else {
      MulHornerFrom(x, h, k + 1);
      var tail, o := Horner(x, h, k + 1), OctetSum(x[k], h);
      SumToOctet(x, h, k, 8);
      PowerAdd(tail, 8, 8 * k);
      PowerLinear(o, Power(tail, 8), 8 * k);
      XorBlockAssoc(SumTo(x, h, 8 * k), Power(o, 8 * k), Power(tail, 8 * k + 8));
    }
  }

  /** The product is the Horner evaluation over the sixteen octets of x. */
  lemma MulIsHorner(x: Block, h: Block)
    ensures Mul(x, h) == Horner(x, h, 0)
  {
    MulHornerFrom(x, h, 0);
    XorZero(Horner(x, h, 0));
  }

  // ----- octet sums are linear in the octet -----

  lemma BitOfXor(a: bv8, b: bv8, j: nat)
    requires j < 8
    ensures BitOf(XorOctet(a, b), j) == (BitOf(a, j) != BitOf(b, j))
  {
    match j
    case 0 => case 1 => case 2 => case 3 => case 4 => case 5 => case 6 => case _ =>
  }

  lemma WhenXor(c: bool, d: bool, v: Block)
    ensures When(c != d, v) == XorBlock(When(c, v), When(d, v))
  {
    XorZero(v);
    XorZero(ZERO);
  }

  lemma XorInterchange(a: Block, b: Block, c: Block, d: Block)
    ensures XorBlock(XorBlock(a, b), XorBlock(c, d)) == XorBlock(XorBlock(a, c), XorBlock(b, d))
  {
  }

  lemma {:induction false} OctetSumLinear(a: bv8, b: bv8, h: Block, n: nat)
    requires n <= 8
    ensures OctetSum(XorOctet(a, b), h, n) == XorBlock(OctetSum(a, h, n), OctetSum(b, h, n))
  {
    hide Power, XorBlock, BitOf, When, XorOctet;
    if n == 0 {
      XorZero(ZERO);
    } else {
      OctetSumLinear(a, b, h, n - 1);
      var p := Power(h, n - 1);
      BitOfXor(a, b, n - 1);
      WhenXor(BitOf(a, n - 1), BitOf(b, n - 1), p);
      XorInterchange(OctetSum(a, h, n - 1), OctetSum(b, h, n - 1), When(BitOf(a, n - 1), p), When(BitOf(b, n - 1), p));
    }
  }

  lemma {:induction false} OctetSumZero(b: bv8, h: Block, n: nat)
    requires n <= 8 && forall j: nat | j < n :: !BitOf(b, j)
    ensures OctetSum(b, h, n) == ZERO
  {
    if n > 0 {
      OctetSumZero(b, h, n - 1);
      XorZero(ZERO);
    }
  }

  /** The octet with only bit i set. */
  function Unit(i: nat): bv8
    requires i < 8
  {
    match i
    case 0 => 0x80 case 1 => 0x40 case 2 => 0x20 case 3 => 0x10 case 4 => 8 case 5 => 4 case 6 => 2 case _ => 1
  }

  /** The same octet as a table index. */
  function Weight(i: nat): (w: nat)
    requires i < 8
    ensures 1 <= w <= 128
  {
    match i
    case 0 => 128 case 1 => 64 case 2 => 32 case 3 => 16 case 4 => 8 case 5 => 4 case 6 => 2 case _ => 1
  }

  lemma UnitBits(i: nat, j: nat)
    requires i < 8 && j < 8
    ensures BitOf(Unit(i), j) <==> i == j
  {
  }

  lemma {:induction false} OctetSumUnit(i: nat, h: Block, n: nat)
    requires i < 8 && i < n <= 8
    ensures OctetSum(Unit(i), h, n) == Power(h, i)
  {
    UnitBits(i, n - 1);
    hide Power, XorBlock, BitOf;
    if n == i + 1 {
      forall j: nat | j < i ensures !BitOf(Unit(i), j) {
        UnitBits(i, j);
      }
      OctetSumZero(Unit(i), h, i);
      XorZero(Power(h, i));
    } else {
      OctetSumUnit(i, h, n - 1);
      XorZero(Power(h, i));
    }
  }

  // ----- the octet-array macros -----

  /** XOR8x16(r, r, b) */
  method Xor8x16(r: array<bv8>, b: Block)
    requires r.Length == 16
    modifies r
    ensures r[..] == XorBlock(old(r[..]), b)
  {
    forall k | 0 <= k < 16 {
      r[k] := XorOctet(r[k], b[k]);
    }
  }

  method AddIf(z: array<bv8>, bit: bool, v: Block)
    requires z.Length == 16
    modifies z
    ensures z[..] == XorBlock(old(z[..]), When(bit, v))
  {
    XorZero(z[..]);
    hide XorBlock;
    if bit {
      Xor8x16(z, v);
    }
  }

  method Copy16(r: array<bv8>, z: array<bv8>)
    requires r.Length == 16 && z.Length == 16
    modifies r
    ensures r[..] == old(z[..])
  {
    forall k | 0 <= k < 16 {
      r[k] := z[k];
    }
  }

  /** RSHIFT8x16_1(v): octet 15 first, so that each octet still sees its old left neighbour. */
  method Rshift8x16(v: array<bv8>)
    requires v.Length == 16
    modifies v
    ensures v[..] == ShiftRight1(old(v[..]))
  {
    hide ShiftIn1;
    var k := 15;
    while k > 0
      invariant 0 <= k <= 15
      invariant forall i | 0 <= i <= k :: v[i] == old(v[i])
      invariant forall i | k < i < 16 :: v[i] == ShiftIn1(old(v[i-1]), old(v[i]))
    {
      v[k] := ShiftIn1(v[k-1], v[k]);
      k := k - 1;
    }
    v[0] := ShiftIn1(0, v[0]);
  }

  /** RSHIFT8x16_4(z) */
  method Rshift8x16By4(v: array<bv8>)
    requires v.Length == 16
    modifies v
    ensures v[0] == ShiftIn(0, old(v[0]), 4)
    ensures forall k | 1 <= k < 16 :: v[k] == ShiftIn(old(v[k-1]), old(v[k]), 4)
  {
    hide ShiftIn;
    var k := 15;
    while k > 0
      invariant 0 <= k <= 15
      invariant forall i | 0 <= i <= k :: v[i] == old(v[i])
      invariant forall i | k < i < 16 :: v[i] == ShiftIn(old(v[i-1]), old(v[i]), 4)
    {
      v[k] := ShiftIn(v[k-1], v[k], 4);
      k := k - 1;
    }
    v[0] := ShiftIn(0, v[0], 4);
  }

  /** RSHIFT8x16_8(z) */
  method Rshift8x16By8(v: array<bv8>)
    requires v.Length == 16
    modifies v
    ensures v[0] == 0
    ensures forall k | 1 <= k < 16 :: v[k] == old(v[k-1])
  {
    var k := 15;
    while k > 0
      invariant 0 <= k <= 15
      invariant forall i | 0 <= i <= k :: v[i] == old(v[i])
      invariant forall i | k < i < 16 :: v[i] == old(v[i-1])
    {
      v[k] := v[k-1];
      k := k - 1;
    }
    v[0] := 0;
  }

  // ----- bit by bit -----

  /** Shift and reduce: multiplication by x in place, last being the octet 15 before the shift. */
  method TimesX(v: array<bv8>, last: bv8)
    requires v.Length == 16 && last == v[15]
    modifies v
    ensures v[..] == MulX(old(v[..]))
  {
    hide ShiftRight1;
    ghost var s := ShiftRight1(v[..]);
    XorOctetLaws(s[0], 0, 0);
    Rshift8x16(v);
    if last & 1 != 0 {
      v[0] := v[0] ^ 0xe1;
    }
  }

  lemma MulIsSum(x: Block, y: Block, n: nat)
    requires n == 128
    ensures Mul(x, y) == SumTo(x, y, n)
  {
    hide SumTo;
  }

  /** gcm_gfmul without tables; r and x may be the same array. */
  method GfmulBits(r: array<bv8>, x: array<bv8>, y: Block)
    requires r.Length == 16 && x.Length == 16
    modifies r
    ensures r[..] == Mul(old(x[..]), y)
  {
    hide Mul, MulX, XorBlock, BitOf, When;
    var z, v := new bv8[16](_ => 0), new bv8[16](i requires 0 <= i < 16 => y[i]);
    ghost var x0 := x[..];
    assert z[..] == ZERO && v[..] == y;
    var i := 0;
    while i < 128
      invariant 0 <= i <= 128
      invariant z[..] == SumTo(x0, y, i)
      invariant v[..] == Power(y, i)
      invariant x[..] == x0
    {
      AddIf(z, BitOf(x[i / 8], i % 8), v[..]);
      TimesX(v, v[15]);
      i := i + 1;
    }
    MulIsSum(x0, y, i);
    Copy16(r, z);
  }

  // ----- eight bits at a time -----

  lemma UnitWeight(p: nat)
    requires p < 8
    ensures Unit(p) as nat == Weight(p)
    ensures p > 0 ==> Weight(p) * 2 == Weight(p - 1)
    ensures p == 0 ==> Weight(p) == 128
    ensures p == 7 ==> Weight(p) == 1
  {
  }

  lemma WeightStep(n: nat)
    requires 1 <= n < 8
    ensures Weight(n) * 2 == Weight(n - 1)
    ensures n == 1 ==> Weight(n) == 64
    ensures n == 7 ==> Weight(n) == 1
    ensures Weight(n) / 2 == if n < 7 then Weight(n + 1) else 0
    ensures forall p | 0 <= p < n :: Weight(p) != Weight(n)
  {
  }

  lemma BetweenWeights(q: nat, j: nat, p: nat)
    requires q < 8 && p < 8
    ensures 0 < j < Weight(q) ==> Weight(q) + j != Weight(p)
    ensures Weight(q) == Weight(p) ==> p == q
  {
  }

  lemma OctetArithmetic(i: bv8, j: bv8)
    requires exists q: nat | q < 8 :: i == Unit(q)
    requires j < i
    ensures i + j == XorOctet(i, j)
    ensures (i + j) as nat == i as nat + j as nat
  {
    if i == 0x80 { } else if i == 0x40 { } else if i == 0x20 { } else if i == 0x10 { }
    else if i == 8 { } else if i == 4 { } else if i == 2 { } else { }
  }

  lemma OctetOrder(b: bv8, c: bv8)
    requires b as nat < c as nat
    ensures b < c
  {
  }

  lemma UnitSplit(q: nat, j: nat)
    requires q < 8 && j < Weight(q)
    ensures (Weight(q) + j) as bv8 == XorOctet(Unit(q), j as bv8)
  {
    UnitWeight(q);
    hide Unit, Weight, XorOctet;
    OctetToNat(j);
    OctetOrder(j as bv8, Unit(q));
    OctetArithmetic(Unit(q), j as bv8);
    NatToOctet(Unit(q) + j as bv8, Weight(q) + j);
  }

  /** The octet sum of a table index. */
  function Row(n: nat, h: Block): Block
    requires n < 256
  {
    OctetSum(n as bv8, h)
  }

  lemma RowOfOctet(b: bv8, h: Block)
    ensures Row(b as nat, h) == OctetSum(b, h)
  {
    hide OctetSum;
  }

  ghost predicate TableOf(hTable: array<Block>, h: Block, upTo: nat)
    requires upTo <= 256 == hTable.Length
    reads hTable
  {
    forall n | 0 <= n < upTo :: hTable[n] == Row(n, h)
  }

  lemma RowZero(h: Block)
    ensures Row(0, h) == ZERO
  {
    OctetSumZero(0, h, 8);
    hide OctetSum;
  }

  lemma RowUnit(q: nat, h: Block)
    requires q < 8
    ensures Row(Weight(q), h) == Power(h, q)
  {
    UnitWeight(q);
    OctetSumUnit(q, h, 8);
    hide OctetSum, Power, Weight;
    NatToOctet(Unit(q), Weight(q));
  }

  lemma NextRow(q: nat, j: nat, h: Block)
    requires q < 8 && j < Weight(q)
    ensures Row(Weight(q) + j, h) == XorBlock(Power(h, q), Row(j, h))
  {
    UnitSplit(q, j);
    hide OctetSum, Power, XorBlock, XorOctet, Weight;
    OctetSumLinear(Unit(q), j as bv8, h, 8);
    OctetSumUnit(q, h, 8);
  }

  /** The eight single-bit rows: h, h*x, ..., h*x^7. */
  method InitPowers(hTable: array<Block>, h: Block)
    requires hTable.Length == 256
    modifies hTable
    ensures forall p | 0 <= p < 8 :: hTable[Weight(p)] == Power(h, p)
    ensures hTable[0] == old(hTable[0])
  {
    hide MulX, Weight, XorBlock;
    var tmp := new bv8[16](i requires 0 <= i < 16 => h[i]);
    assert tmp[..] == h;
    WeightStep(1);
    hTable[0x80] := h;
    var i := 0x40;
    ghost var n := 1;
    while i >= 1
      invariant 1 <= n <= 8 && i == if n < 8 then Weight(n) else 0
      invariant tmp[..] == Power(h, n - 1)
      invariant forall p | 0 <= p < n :: hTable[Weight(p)] == Power(h, p)
      invariant hTable[0] == old(hTable[0])
    {
      WeightStep(n);
      TimesX(tmp, hTable[i * 2][15]);
      hTable[i] := tmp[..];
      i := i / 2;
      n := n + 1;
    }
  }

  /** gcm_init_8bit_table, on a context whose row 0 was cleared beforehand. */
  method InitTable8(hTable: array<Block>, h: Block)
    requires hTable.Length == 256 && hTable[0] == ZERO
    modifies hTable
    ensures TableOf(hTable, h, 256)
  {
    hide Power, Row, Weight;
    InitPowers(hTable, h);
    RowZero(h);
    RowUnit(7, h);
    WeightStep(7);
    var i := 2;
    ghost var q := 6;
    while i < 256
      invariant -1 <= q <= 6 && i == if q >= 0 then Weight(q) else 256
      invariant TableOf(hTable, h, i)
      invariant forall p | 0 <= p < 8 :: hTable[Weight(p)] == Power(h, p)
    {
      FillRows(hTable, h, i, q);
      UnitWeight(q);
      i := i * 2;
      q := q - 1;
    }
  }

  /** The inner loop of gcm_init_8bit_table: rows i+1 .. 2i-1. */
  method FillRows(hTable: array<Block>, h: Block, i: nat, ghost q: nat)
    requires hTable.Length == 256 && q < 8 && i == Weight(q)
    requires TableOf(hTable, h, i)
    requires forall p | 0 <= p < 8 :: hTable[Weight(p)] == Power(h, p)
    modifies hTable
    ensures TableOf(hTable, h, 2 * i)
    ensures forall p | 0 <= p < 8 :: hTable[Weight(p)] == Power(h, p)
  {
    hide Power, XorBlock, Row, Weight;
    RowUnit(q, h);
    var j := 1;
    while j < i
      invariant 1 <= j <= i
      invariant TableOf(hTable, h, i + j)
      invariant forall p | 0 <= p < 8 :: hTable[Weight(p)] == Power(h, p)
    {
      forall p | 0 <= p < 8 ensures Weight(p) != i + j {
        BetweenWeights(q, j, p);
      }
      NextRow(q, j, h);
      hTable[i+j] := XorBlock(hTable[i], hTable[j]);
      j := j + 1;
    }
  }

  /** Shift out t bits and correct the first two octets from a reduction table entry. */
  lemma ShiftAndCorrect(z: Block, t: nat, w: Block)
    requires t <= 8
    requires w[0] == XorOctet(ShiftIn(0, z[0], t), Pair(z[15], t).0)
    requires w[1] == XorOctet(ShiftIn(z[0], z[1], t), Pair(z[15], t).1)
    requires forall k | 2 <= k < 16 :: w[k] == ShiftIn(z[k-1], z[k], t)
    ensures w == Power(z, t)
  {
    hide Power, ShiftIn, XorOctet, Correction;
    PowerIsShifted(z, t);
    forall k | 0 <= k < 16 ensures w[k] == Shifted(z, t)[k] {
      if k > 1 {
        CorrectionClear(z[15], t, k);
        XorOctetZero(ShiftIn(z[k-1], z[k], t));
      }
    }
  }

  lemma XorOctetZero(a: bv8)
    ensures XorOctet(a, 0) == a
  {
  }

  lemma ShiftInWhole(hi: bv8, lo: bv8)
    ensures ShiftIn(hi, lo, 8) == hi
  {
  }

  /** Multiplication by x^8 with the 256-entry reduction table. */
  method TimesX8(z: array<bv8>)
    requires z.Length == 16
    modifies z
    ensures z[..] == Power(old(z[..]), 8)
  {
    hide Power, ShiftIn, Reduction8, Pair;
    var mask := z[15];
    Rshift8x16By8(z);
    z[0] := XorOctet(z[0], Reduction8(mask).0);
    z[1] := XorOctet(z[1], Reduction8(mask).1);
    Table8Correct(mask);
    ghost var z0 := old(z[..]);
    ShiftInWhole(0, z0[0]);
    forall k | 1 <= k < 16 ensures ShiftIn(z0[k-1], z0[k], 8) == z0[k-1] {
      ShiftInWhole(z0[k-1], z0[k]);
    }
    ShiftAndCorrect(z0, 8, z[..]);
  }

  /** gcm_gfmul over the 256-row table; r and x may be the same array. */
  method Gfmul8(r: array<bv8>, x: array<bv8>, hTable: array<Block>, ghost h: Block)
    requires r.Length == 16 && x.Length == 16 && hTable.Length == 256
    requires TableOf(hTable, h, 256)
    modifies r
    ensures r[..] == Mul(old(x[..]), h)
  {
    hide Mul, Power, XorBlock, Row, OctetSum;
    var z := new bv8[16](_ => 0);
    ghost var x0 := x[..];
    assert z[..] == ZERO;
    PowerZero(8);
    var i := 15;
    while i > 0
      invariant 0 <= i <= 15
      invariant z[..] == Power(Horner(x0, h, i + 1), 8)
      invariant x[..] == x0
    {
      AddRow8(z, x[i], hTable, h);
      XorBlockComm(OctetSum(x0[i], h), Power(Horner(x0, h, i + 1), 8));
      TimesX8(z);
      i := i - 1;
    }
    AddRow8(z, x[i], hTable, h);
    XorBlockComm(OctetSum(x0[0], h), Power(Horner(x0, h, 1), 8));
    MulIsHorner(x0, h);
    Copy16(r, z);
  }

  lemma XorBlockComm(a: Block, b: Block)
    ensures XorBlock(a, b) == XorBlock(b, a)
  {
    XorComm(a, b);
  }

  method AddRow8(z: array<bv8>, b: bv8, hTable: array<Block>, ghost h: Block)
    requires z.Length == 16 && hTable.Length == 256 && TableOf(hTable, h, 256)
    modifies z
    ensures z[..] == XorBlock(old(z[..]), OctetSum(b, h))
  {
    RowOfOctet(b, h);
    hide Row, OctetSum, XorBlock;
    Xor8x16(z, hTable[b as nat]);
  }

  // ----- four bits at a time -----

  /** Row n of the 16-row table is the octet sum of n moved to the left half. */
  ghost predicate TableOf4(hTable: array<Block>, h: Block)
    requires hTable.Length == 16
    reads hTable
  {
    forall n | 0 <= n < 16 :: hTable[n] == Row4(n, h)
  }

  lemma LeftHalf(m: bv8)
    requires m < 16
    ensures m as nat < 16 && (16 * m as nat) as bv8 == m << 4
  {
    match m
    case 0 => case 1 => case 2 => case 3 => case 4 => case 5 => case 6 => case 7 =>
    case 8 => case 9 => case 10 => case 11 => case 12 => case 13 => case 14 => case _ =>
  }

  lemma HalfBits(b: bv8, n: nat)
    requires n < 4
    ensures BitOf(b, 4 + n) == BitOf(b << 4, n)
    ensures BitOf((b >> 4) << 4, n) == BitOf(b, n)
    ensures !BitOf(b << 4, 4 + n)
  {
  }

  lemma {:induction false} OctetSumSplit(b: bv8, h: Block, n: nat)
    requires n <= 4
    ensures OctetSum(b, h, 4 + n) == XorBlock(OctetSum(b, h, 4), Power(OctetSum(b << 4, h, n), 4))
    ensures OctetSum((b >> 4) << 4, h, n) == OctetSum(b, h, n)
    ensures OctetSum(b << 4, h, 4 + n) == OctetSum(b << 4, h, 4)
  {
    hide Power, XorBlock, When, BitOf;
    if n == 0 {
      PowerZero(4);
      XorZero(OctetSum(b, h, 4));
    } else {
      OctetSumSplit(b, h, n - 1);
      HalfBits(b, n - 1);
      var p, o := When(BitOf(b, 3 + n), Power(h, n - 1)), OctetSum(b << 4, h, n - 1);
      PowerLinear(o, p, 4);
      PowerWhen(BitOf(b, 3 + n), Power(h, n - 1), 4);
      PowerAdd(h, n - 1, 4);
      XorBlockAssoc(OctetSum(b, h, 4), Power(o, 4), Power(p, 4));
      XorZero(OctetSum(b << 4, h, 4));
      assert When(false, Power(h, 3 + n)) == ZERO by { WhenFalse(Power(h, 3 + n)); }
    }
  }

  lemma WhenFalse(v: Block)
    ensures When(false, v) == ZERO
  {
  }

  /** An octet's sum from the rows of its two halves. */
  lemma HalvesSum(b: bv8, h: Block)
    ensures b >> 4 < 16 && b & 0xf < 16
    ensures (b >> 4) as nat < 16 && (b & 0xf) as nat < 16
    ensures OctetSum(b, h) == XorBlock(Row(16 * (b >> 4) as nat, h), Power(Row(16 * (b & 0xf) as nat, h), 4))
  {
    hide OctetSum, XorBlock, Power;
    LeftHalf(b >> 4);
    LeftHalf(b & 0xf);
    assert (b & 0xf) << 4 == b << 4;
    OctetSumSplit(b, h, 4);
    OctetSumSplit(b >> 4, h, 4);
  }

  /** Row n of the 16-row table. */
  function Row4(n: nat, h: Block): Block
    requires n < 16
  {
    Row(16 * n, h)
  }

  lemma Row4Zero(h: Block)
    ensures Row4(0, h) == ZERO
  {
    hide Row;
    RowZero(h);
  }

  lemma Row4Unit(q: nat, n: nat, h: Block)
    requires q < 4 && 16 * n == Weight(q)
    ensures Row4(n, h) == Power(h, q)
  {
    hide Row, Power;
    RowUnit(q, h);
  }

  lemma Row4Add(q: nat, n: nat, j: nat, h: Block)
    requires q < 4 && 16 * n == Weight(q) && j < n
    ensures Row4(n + j, h) == XorBlock(Row4(n, h), Row4(j, h))
  {
    hide Row, Power, XorBlock;
    RowUnit(q, h);
    NextRow(q, 16 * j, h);
    assert 16 * (n + j) == Weight(q) + 16 * j;
  }

  /** The single-bit rows 8, 4, 2, 1. */
  method InitPowers4(hTable: array<Block>, h: Block)
    requires hTable.Length == 16
    modifies hTable
    ensures hTable[8] == h && hTable[4] == Power(h, 1) && hTable[2] == Power(h, 2) && hTable[1] == Power(h, 3)
    ensures hTable[0] == old(hTable[0])
  {
    hide MulX;
    var tmp := new bv8[16](i requires 0 <= i < 16 => h[i]);
    assert tmp[..] == h;
    hTable[8] := h;
    TimesX(tmp, hTable[8][15]);
    hTable[4] := tmp[..];
    TimesX(tmp, hTable[4][15]);
    hTable[2] := tmp[..];
    TimesX(tmp, hTable[2][15]);
    hTable[1] := tmp[..];
  }

  /** gcm_init_4bit_table, on a context whose row 0 was cleared beforehand. */
  method InitTable4(hTable: array<Block>, h: Block)
    requires hTable.Length == 16 && hTable[0] == ZERO
    modifies hTable
    ensures TableOf4(hTable, h)
  {
    InitPowers4(hTable, h);
    hTable[3] := XorBlock(hTable[2], hTable[1]);
    hTable[5] := XorBlock(hTable[4], hTable[1]);
    hTable[6] := XorBlock(hTable[4], hTable[2]);
    hTable[7] := XorBlock(hTable[4], hTable[3]);
    hTable[9] := XorBlock(hTable[8], hTable[1]);
    hTable[10] := XorBlock(hTable[8], hTable[2]);
    hTable[11] := XorBlock(hTable[8], hTable[3]);
    hTable[12] := XorBlock(hTable[8], hTable[4]);
    hTable[13] := XorBlock(hTable[8], hTable[5]);
    hTable[14] := XorBlock(hTable[8], hTable[6]);
    hTable[15] := XorBlock(hTable[8], hTable[7]);
    Rows4(hTable[..], h);
  }

  lemma Rows4(t: seq<Block>, h: Block)
    requires |t| == 16 && t[0] == ZERO
    requires t[8] == h && t[4] == Power(h, 1) && t[2] == Power(h, 2) && t[1] == Power(h, 3)
    requires t[3] == XorBlock(t[2], t[1])
    requires t[5] == XorBlock(t[4], t[1]) && t[6] == XorBlock(t[4], t[2]) && t[7] == XorBlock(t[4], t[3])
    requires t[9] == XorBlock(t[8], t[1]) && t[10] == XorBlock(t[8], t[2]) && t[11] == XorBlock(t[8], t[3])
    requires t[12] == XorBlock(t[8], t[4]) && t[13] == XorBlock(t[8], t[5])
    requires t[14] == XorBlock(t[8], t[6]) && t[15] == XorBlock(t[8], t[7])
    ensures forall n | 0 <= n < 16 :: t[n] == Row4(n, h)
  {
    hide Row4, XorBlock, Row;
    Row4Zero(h);
    Row4Unit(0, 8, h); Row4Unit(1, 4, h); Row4Unit(2, 2, h); Row4Unit(3, 1, h);
    Row4Add(2, 2, 1, h);
    Row4Add(1, 4, 1, h); Row4Add(1, 4, 2, h); Row4Add(1, 4, 3, h);
    Row4Add(0, 8, 1, h); Row4Add(0, 8, 2, h); Row4Add(0, 8, 3, h); Row4Add(0, 8, 4, h);
    Row4Add(0, 8, 5, h); Row4Add(0, 8, 6, h); Row4Add(0, 8, 7, h);
  }

  /** Multiplication by x^4 with the 16-entry reduction table. */
  method TimesX4(z: array<bv8>)
    requires z.Length == 16
    modifies z
    ensures z[..] == Power(old(z[..]), 4)
  {
    hide Power, ShiftIn, Pair;
    var mask := z[15] & 0xf;
    Table4Correct(z[15]);
    ghost var z0 := z[..];
    Rshift8x16By4(z);
    z[0] := XorOctet(z[0], REDUCTION_4BIT[mask as nat].0);
    z[1] := XorOctet(z[1], REDUCTION_4BIT[mask as nat].1);
    ShiftAndCorrect(z0, 4, z[..]);
  }

  /** One octet of the 4-bit loop: low half, shift, high half. */
  method AddHalves(z: array<bv8>, b: bv8, hTable: array<Block>, ghost h: Block)
    requires z.Length == 16 && hTable.Length == 16 && z as object != hTable && TableOf4(hTable, h)
    modifies z
    ensures z[..] == XorBlock(OctetSum(b, h), Power(old(z[..]), 4))
  {
    HalvesSum(b, h);
    ghost var z0 := z[..];
    hide Row, OctetSum, XorBlock, Power;
    var mask := b & 0xf;
    ghost var low, high := hTable[mask as nat], hTable[(b >> 4) as nat];
    Xor8x16(z, hTable[mask as nat]);
    TimesX4(z);
    mask := b >> 4;
    Xor8x16(z, hTable[mask as nat]);
    PowerLinear(z0, low, 4);
    Rearrange(Power(z0, 4), Power(low, 4), high);
  }

  lemma Rearrange(a: Block, b: Block, c: Block)
    ensures XorBlock(XorBlock(a, b), c) == XorBlock(XorBlock(c, b), a)
  {
  }

  /** gcm_gfmul over the 16-row table; r and x may be the same array. */
  method Gfmul4(r: array<bv8>, x: array<bv8>, hTable: array<Block>, ghost h: Block)
    requires r.Length == 16 && x.Length == 16 && hTable.Length == 16 && r as object != hTable
    requires TableOf4(hTable, h)
    modifies r
    ensures r[..] == Mul(old(x[..]), h)
  {
    hide Mul, Power, XorBlock, Row4, OctetSum;
    var z := new bv8[16](_ => 0);
    ghost var x0 := x[..];
    assert z[..] == ZERO;
    PowerZero(4);
    var i := 15;
    while i > 0
      invariant 0 <= i <= 15
      invariant z[..] == Power(Horner(x0, h, i + 1), 4)
      invariant x[..] == x0
    {
      AddHalves(z, x[i], hTable, h);
      PowerAdd(Horner(x0, h, i + 1), 4, 4);
      TimesX4(z);
      i := i - 1;
    }
    AddHalves(z, x[i], hTable, h);
    PowerAdd(Horner(x0, h, 1), 4, 4);
    MulIsHorner(x0, h);
    Copy16(r, z);
  }
}
