/** Multiplication in GF(2^128) as GCM uses it: the product of section 6.3 of NIST SP 800-38D and
    the three ways the library computes it (bit by bit, with a 16-entry table, with a 256-entry table). */
module GfMul {
  import opened Bytes

  // ----- the field: multiplication by x, its powers, and the product -----

  /** The octet to the left of octet k, zero for the first. */
  function Before(v: Block, k: nat): bv8
    requires k < 16
  {
    if k == 0 then 0 else v[k-1]
  }

  /** The octet lo moved one bit to the right, the last bit of hi coming in from the left. */
  function ShiftIn1(hi: bv8, lo: bv8): bv8 {
    (lo >> 1) | (hi << 7)
  }

  /** The block as a 128-bit string (leftmost bit first) moved one place to the right. */
  function ShiftRight1(v: Block): Block {
    seq(16, k requires 0 <= k < 16 => ShiftIn1(Before(v, k), v[k]))
  }

  /** The first octet of R (0xe1 followed by 120 zero bits) when a one bit is shifted out. */
  function Feedback(out: bool): bv8 {
    if out then 0xe1 else 0
  }

  /** v times x modulo x^128 + x^7 + x^2 + x + 1. */
  function MulX(v: Block): Block {
    var s := ShiftRight1(v);
    s[0 := XorOctet(s[0], Feedback(v[15] & 1 != 0))]
  }

  function Power(v: Block, n: nat): Block {
    if n == 0 then v else MulX(Power(v, n - 1))
  }

  /** Bit j of an octet, leftmost first. */
  predicate BitOf(b: bv8, j: nat)
    requires j < 8
  {
    match j
    case 0 => b & 0x80 != 0 case 1 => b & 0x40 != 0 case 2 => b & 0x20 != 0 case 3 => b & 0x10 != 0
    case 4 => b & 0x08 != 0 case 5 => b & 0x04 != 0 case 6 => b & 0x02 != 0 case _ => b & 0x01 != 0
  }

  predicate BlockBit(x: Block, i: nat)
    requires i < 128
  {
    BitOf(x[i / 8], i % 8)
  }

  function When(c: bool, v: Block): Block {
    if c then v else ZERO
  }

  /** The sum of y * x^i over the first n set bits of x. */
  function SumTo(x: Block, y: Block, n: nat): Block
    requires n <= 128
  {
    if n == 0 then ZERO else XorBlock(SumTo(x, y, n - 1), When(BlockBit(x, n - 1), Power(y, n - 1)))
  }

  /** The product of section 6.3 of NIST SP 800-38D. */
  function Mul(x: Block, y: Block): Block {
    SumTo(x, y, 128)
  }

  // ----- linearity -----

  lemma ShiftIn1Linear(h: bv8, l: bv8, h': bv8, l': bv8)
    ensures ShiftIn1(XorOctet(h, h'), XorOctet(l, l')) == XorOctet(ShiftIn1(h, l), ShiftIn1(h', l'))
  {
  }

  lemma ShiftRight1LinearAt(a: Block, b: Block, k: nat)
    requires k < 16
    ensures ShiftRight1(XorBlock(a, b))[k] == XorOctet(ShiftRight1(a)[k], ShiftRight1(b)[k])
  {
    BeforeLinear(a, b, k);
    hide ShiftIn1, Before, XorOctet;
    ShiftIn1Linear(Before(a, k), a[k], Before(b, k), b[k]);
  }

  lemma BeforeLinear(a: Block, b: Block, k: nat)
    requires k < 16
    ensures Before(XorBlock(a, b), k) == XorOctet(Before(a, k), Before(b, k))
  {
  }

  lemma ShiftRight1Linear(a: Block, b: Block)
    ensures ShiftRight1(XorBlock(a, b)) == XorBlock(ShiftRight1(a), ShiftRight1(b))
  {
    hide ShiftRight1;
    forall k | 0 <= k < 16
      ensures ShiftRight1(XorBlock(a, b))[k] == XorBlock(ShiftRight1(a), ShiftRight1(b))[k]
    {
      ShiftRight1LinearAt(a, b, k);
    }
  }

  lemma MulXLinear(a: Block, b: Block)
    ensures MulX(XorBlock(a, b)) == XorBlock(MulX(a), MulX(b))
  {
    ShiftRight1Linear(a, b);
    hide ShiftRight1;
    var l, r := MulX(XorBlock(a, b)), XorBlock(MulX(a), MulX(b));
    forall k | 0 <= k < 16 ensures l[k] == r[k] {
    }
  }

  lemma {:induction false} PowerLinear(a: Block, b: Block, n: nat)
    ensures Power(XorBlock(a, b), n) == XorBlock(Power(a, n), Power(b, n))
  {
    hide MulX;
    hide XorBlock;
    if n > 0 {
      PowerLinear(a, b, n - 1);
      MulXLinear(Power(a, n - 1), Power(b, n - 1));
    }
  }

  lemma {:induction false} PowerAdd(v: Block, m: nat, n: nat)
    ensures Power(Power(v, m), n) == Power(v, m + n)
  {
    hide MulX;
    if n > 0 {
      PowerAdd(v, m, n - 1);
    }
  }

  lemma ShiftIn1Zero()
    ensures ShiftIn1(0, 0) == 0
  {
  }

  lemma MulXZero()
    ensures MulX(ZERO) == ZERO
  {
    ShiftIn1Zero();
    forall k | 0 <= k < 16 ensures ShiftRight1(ZERO)[k] == 0 {
      assert ZERO[k] == 0;
    }
  }

  lemma {:induction false} PowerZero(n: nat)
    ensures Power(ZERO, n) == ZERO
  {
    hide MulX;
    if n > 0 {
      PowerZero(n - 1);
      MulXZero();
    }
  }

  // ----- n-fold multiplication by x, octet by octet -----

  /** The octet lo moved t bits to the right, the last t bits of hi coming in from the left. */
  function ShiftIn(hi: bv8, lo: bv8, t: nat): bv8
    requires t <= 8
  {
    match t
    case 0 => lo
    case 1 => (lo >> 1) | (hi << 7) case 2 => (lo >> 2) | (hi << 6) case 3 => (lo >> 3) | (hi << 5)
    case 4 => (lo >> 4) | (hi << 4) case 5 => (lo >> 5) | (hi << 3) case 6 => (lo >> 6) | (hi << 2)
    case 7 => (lo >> 7) | (hi << 1)
    case _ => hi
  }

  /** What t multiplications by x of a block ending in octet m add to octet k of the shifted block. */
  function Correction(m: bv8, t: nat, k: nat): bv8
    requires t <= 8
  {
    if t == 0 then 0
    else if k == 0 then XorOctet(ShiftIn1(0, Correction(m, t - 1, 0)), Feedback(BitOf(m, 8 - t)))
    else ShiftIn1(Correction(m, t - 1, k - 1), Correction(m, t - 1, k))
  }

  function Shifted(z: Block, t: nat): Block
    requires t <= 8
  {
    seq(16, k requires 0 <= k < 16 =>
      XorOctet(ShiftIn(Before(z, k), z[k], t), Correction(z[15], t, k)))
  }

  /** The last 8 - t bits of an octet are clear. */
  predicate ClearLow(b: bv8, t: nat)
    requires t <= 8
  {
    match t
    case 0 => b == 0
    case 1 => b & 0x7f == 0 case 2 => b & 0x3f == 0 case 3 => b & 0x1f == 0 case 4 => b & 0x0f == 0
    case 5 => b & 0x07 == 0 case 6 => b & 0x03 == 0 case 7 => b & 0x01 == 0
    case _ => true
  }

  lemma {:induction false} CorrectionClear(m: bv8, t: nat, k: nat)
    requires t <= 8 && k > 0
    ensures k == 1 ==> ClearLow(Correction(m, t, k), t)
    ensures k > 1 ==> Correction(m, t, k) == 0
  {
    if t > 0 {
      CorrectionClear(m, t - 1, k);
      ClearStep(Correction(m, t - 1, k - 1), Correction(m, t - 1, k), t - 1);
      if k > 1 {
        CorrectionClear(m, t - 1, k - 1);
      }
    }
  }

  lemma ClearStep(a: bv8, b: bv8, t: nat)
    requires t < 8
    ensures ClearLow(b, t) ==> ClearLow(ShiftIn1(a, b), t + 1)
    ensures ClearLow(a, t) ==> ShiftIn1(a, 0) == 0
  {
    match t
    case 0 => case 1 => case 2 => case 3 => case 4 => case 5 => case 6 => case _ =>
  }

  lemma ShiftInStep(a: bv8, b: bv8, c: bv8, t: nat)
    requires t < 8
    ensures ShiftIn1(ShiftIn(a, b, t), ShiftIn(b, c, t)) == ShiftIn(b, c, t + 1)
  {
    match t
    case 0 => case 1 => case 2 => case 3 => case 4 => case 5 => case 6 => case _ =>
  }

  lemma ShiftInZero(t: nat)
    requires t <= 8
    ensures ShiftIn(0, 0, t) == 0
  {
  }

  lemma XorOctetLaws(a: bv8, b: bv8, c: bv8)
    ensures XorOctet(a, 0) == a && XorOctet(0, a) == a
    ensures XorOctet(XorOctet(a, b), c) == XorOctet(a, XorOctet(b, c))
  {
  }

  /** One step at an octet whose own and left neighbour's values carry corrections q and r. */
  lemma CorrectedStep(a: bv8, b: bv8, c: bv8, r: bv8, q: bv8, t: nat)
    requires t < 8
    ensures ShiftIn1(XorOctet(ShiftIn(a, b, t), r), XorOctet(ShiftIn(b, c, t), q))
         == XorOctet(ShiftIn(b, c, t + 1), ShiftIn1(r, q))
  {
    ShiftInStep(a, b, c, t);
    ShiftIn1Linear(ShiftIn(a, b, t), ShiftIn(b, c, t), r, q);
  }

  lemma LastBit(z: Block, t: nat)
    requires t < 8
    ensures Shifted(z, t)[15] & 1 != 0 <==> BitOf(z[15], 7 - t)
  {
    CorrectionClear(z[15], t, 15);
    match t
    case 0 => case 1 => case 2 => case 3 => case 4 => case 5 => case 6 => case _ =>
  }

  lemma ShiftedStep(z: Block, t: nat, k: nat)
    requires t < 8 && k < 16
    ensures MulX(Shifted(z, t))[k] == Shifted(z, t + 1)[k]
  {
    var m, c := z[15], Correction(z[15], t, k);
    LastBit(z, t);
    ShiftInZero(t);
    hide ShiftIn, ShiftIn1, BitOf, XorOctet, Feedback;
    if k == 0 {
      CorrectedStep(0, 0, z[0], 0, c, t);
      XorOctetLaws(0, 0, 0);
      XorOctetLaws(ShiftIn(0, z[0], t + 1), ShiftIn1(0, c), Feedback(BitOf(m, 7 - t)));
    } else {
      CorrectedStep(Before(z, k - 1), z[k-1], z[k], Correction(m, t, k - 1), c, t);
    }
  }

  /** Up to eight multiplications by x are one shift and one correction of the first two octets. */
  lemma {:induction false} PowerIsShifted(z: Block, t: nat)
    requires t <= 8
    ensures Power(z, t) == Shifted(z, t)
  {
    if t > 0 {
      PowerIsShifted(z, t - 1);
      hide MulX, Shifted;
      forall k | 0 <= k < 16 ensures Power(z, t)[k] == Shifted(z, t)[k] {
        ShiftedStep(z, t - 1, k);
      }
    }
  }

  // ----- the reduction tables -----

  const REDUCTION_4BIT: seq<(bv8, bv8)> := [
    (0x00, 0x00), (0x1c, 0x20), (0x38, 0x40), (0x24, 0x60), (0x70, 0x80), (0x6c, 0xa0), (0x48, 0xc0), (0x54, 0xe0),
    (0xe1, 0x00), (0xfd, 0x20), (0xd9, 0x40), (0xc5, 0x60), (0x91, 0x80), (0x8d, 0xa0), (0xa9, 0xc0), (0xb5, 0xe0)]

  /** The 256 entries in order, sixteen to a row. */
  const REDUCTION_8BIT: seq<seq<(bv8, bv8)>> := [
    [(0x00, 0x00), (0x01, 0xc2), (0x03, 0x84), (0x02, 0x46), (0x07, 0x08), (0x06, 0xca), (0x04, 0x8c), (0x05, 0x4e),
     (0x0e, 0x10), (0x0f, 0xd2), (0x0d, 0x94), (0x0c, 0x56), (0x09, 0x18), (0x08, 0xda), (0x0a, 0x9c), (0x0b, 0x5e)],
    [(0x1c, 0x20), (0x1d, 0xe2), (0x1f, 0xa4), (0x1e, 0x66), (0x1b, 0x28), (0x1a, 0xea), (0x18, 0xac), (0x19, 0x6e),
     (0x12, 0x30), (0x13, 0xf2), (0x11, 0xb4), (0x10, 0x76), (0x15, 0x38), (0x14, 0xfa), (0x16, 0xbc), (0x17, 0x7e)],
    [(0x38, 0x40), (0x39, 0x82), (0x3b, 0xc4), (0x3a, 0x06), (0x3f, 0x48), (0x3e, 0x8a), (0x3c, 0xcc), (0x3d, 0x0e),
     (0x36, 0x50), (0x37, 0x92), (0x35, 0xd4), (0x34, 0x16), (0x31, 0x58), (0x30, 0x9a), (0x32, 0xdc), (0x33, 0x1e)],
    [(0x24, 0x60), (0x25, 0xa2), (0x27, 0xe4), (0x26, 0x26), (0x23, 0x68), (0x22, 0xaa), (0x20, 0xec), (0x21, 0x2e),
     (0x2a, 0x70), (0x2b, 0xb2), (0x29, 0xf4), (0x28, 0x36), (0x2d, 0x78), (0x2c, 0xba), (0x2e, 0xfc), (0x2f, 0x3e)],
    [(0x70, 0x80), (0x71, 0x42), (0x73, 0x04), (0x72, 0xc6), (0x77, 0x88), (0x76, 0x4a), (0x74, 0x0c), (0x75, 0xce),
     (0x7e, 0x90), (0x7f, 0x52), (0x7d, 0x14), (0x7c, 0xd6), (0x79, 0x98), (0x78, 0x5a), (0x7a, 0x1c), (0x7b, 0xde)],
    [(0x6c, 0xa0), (0x6d, 0x62), (0x6f, 0x24), (0x6e, 0xe6), (0x6b, 0xa8), (0x6a, 0x6a), (0x68, 0x2c), (0x69, 0xee),
     (0x62, 0xb0), (0x63, 0x72), (0x61, 0x34), (0x60, 0xf6), (0x65, 0xb8), (0x64, 0x7a), (0x66, 0x3c), (0x67, 0xfe)],
    [(0x48, 0xc0), (0x49, 0x02), (0x4b, 0x44), (0x4a, 0x86), (0x4f, 0xc8), (0x4e, 0x0a), (0x4c, 0x4c), (0x4d, 0x8e),
     (0x46, 0xd0), (0x47, 0x12), (0x45, 0x54), (0x44, 0x96), (0x41, 0xd8), (0x40, 0x1a), (0x42, 0x5c), (0x43, 0x9e)],
    [(0x54, 0xe0), (0x55, 0x22), (0x57, 0x64), (0x56, 0xa6), (0x53, 0xe8), (0x52, 0x2a), (0x50, 0x6c), (0x51, 0xae),
     (0x5a, 0xf0), (0x5b, 0x32), (0x59, 0x74), (0x58, 0xb6), (0x5d, 0xf8), (0x5c, 0x3a), (0x5e, 0x7c), (0x5f, 0xbe)],
    [(0xe1, 0x00), (0xe0, 0xc2), (0xe2, 0x84), (0xe3, 0x46), (0xe6, 0x08), (0xe7, 0xca), (0xe5, 0x8c), (0xe4, 0x4e),
     (0xef, 0x10), (0xee, 0xd2), (0xec, 0x94), (0xed, 0x56), (0xe8, 0x18), (0xe9, 0xda), (0xeb, 0x9c), (0xea, 0x5e)],
    [(0xfd, 0x20), (0xfc, 0xe2), (0xfe, 0xa4), (0xff, 0x66), (0xfa, 0x28), (0xfb, 0xea), (0xf9, 0xac), (0xf8, 0x6e),
     (0xf3, 0x30), (0xf2, 0xf2), (0xf0, 0xb4), (0xf1, 0x76), (0xf4, 0x38), (0xf5, 0xfa), (0xf7, 0xbc), (0xf6, 0x7e)],
    [(0xd9, 0x40), (0xd8, 0x82), (0xda, 0xc4), (0xdb, 0x06), (0xde, 0x48), (0xdf, 0x8a), (0xdd, 0xcc), (0xdc, 0x0e),
     (0xd7, 0x50), (0xd6, 0x92), (0xd4, 0xd4), (0xd5, 0x16), (0xd0, 0x58), (0xd1, 0x9a), (0xd3, 0xdc), (0xd2, 0x1e)],
    [(0xc5, 0x60), (0xc4, 0xa2), (0xc6, 0xe4), (0xc7, 0x26), (0xc2, 0x68), (0xc3, 0xaa), (0xc1, 0xec), (0xc0, 0x2e),
     (0xcb, 0x70), (0xca, 0xb2), (0xc8, 0xf4), (0xc9, 0x36), (0xcc, 0x78), (0xcd, 0xba), (0xcf, 0xfc), (0xce, 0x3e)],
    [(0x91, 0x80), (0x90, 0x42), (0x92, 0x04), (0x93, 0xc6), (0x96, 0x88), (0x97, 0x4a), (0x95, 0x0c), (0x94, 0xce),
     (0x9f, 0x90), (0x9e, 0x52), (0x9c, 0x14), (0x9d, 0xd6), (0x98, 0x98), (0x99, 0x5a), (0x9b, 0x1c), (0x9a, 0xde)],
    [(0x8d, 0xa0), (0x8c, 0x62), (0x8e, 0x24), (0x8f, 0xe6), (0x8a, 0xa8), (0x8b, 0x6a), (0x89, 0x2c), (0x88, 0xee),
     (0x83, 0xb0), (0x82, 0x72), (0x80, 0x34), (0x81, 0xf6), (0x84, 0xb8), (0x85, 0x7a), (0x87, 0x3c), (0x86, 0xfe)],
    [(0xa9, 0xc0), (0xa8, 0x02), (0xaa, 0x44), (0xab, 0x86), (0xae, 0xc8), (0xaf, 0x0a), (0xad, 0x4c), (0xac, 0x8e),
     (0xa7, 0xd0), (0xa6, 0x12), (0xa4, 0x54), (0xa5, 0x96), (0xa0, 0xd8), (0xa1, 0x1a), (0xa3, 0x5c), (0xa2, 0x9e)],
    [(0xb5, 0xe0), (0xb4, 0x22), (0xb6, 0x64), (0xb7, 0xa6), (0xb2, 0xe8), (0xb3, 0x2a), (0xb1, 0x6c), (0xb0, 0xae),
     (0xbb, 0xf0), (0xba, 0x32), (0xb8, 0x74), (0xb9, 0xb6), (0xbc, 0xf8), (0xbd, 0x3a), (0xbf, 0x7c), (0xbe, 0xbe)]]

  function Reduction8(m: bv8): (bv8, bv8) {
    var row := REDUCTION_8BIT[(m >> 4) as nat];
    assert |REDUCTION_8BIT| == 16 && |row| == 16;
    row[(m & 0xf) as nat]
  }

  /** Four steps of correction, written out on the bits of the low half of m. */
  function Low4(m: bv8): (bv8, bv8) {
    ((if m & 1 != 0 then 0x1c else 0) ^ (if m & 2 != 0 then 0x38 else 0)
     ^ (if m & 4 != 0 then 0x70 else 0) ^ (if m & 8 != 0 then 0xe1 else 0),
     (if m & 1 != 0 then 0x20 else 0) ^ (if m & 2 != 0 then 0x40 else 0) ^ (if m & 4 != 0 then 0x80 else 0))
  }

  /** One more step of correction on a pair of octets. */
  function StepPair(p: (bv8, bv8), bit: bool): (bv8, bv8) {
    (XorOctet(ShiftIn1(0, p.0), Feedback(bit)), ShiftIn1(p.0, p.1))
  }

  function Pair(m: bv8, t: nat): (bv8, bv8)
    requires t <= 8
  {
    (Correction(m, t, 0), Correction(m, t, 1))
  }

  lemma PairStep(m: bv8, t: nat)
    requires t < 8
    ensures Pair(m, t + 1) == StepPair(Pair(m, t), BitOf(m, 7 - t))
  {
  }

  function FourSteps(p: (bv8, bv8), m: bv8): (bv8, bv8) {
    StepPair(StepPair(StepPair(StepPair(p, m & 1 != 0), m & 2 != 0), m & 4 != 0), m & 8 != 0)
  }

  lemma FourStepsShift(p: (bv8, bv8), m: bv8)
    ensures FourSteps(p, m) == ((p.0 >> 4) ^ Low4(m).0, ((p.1 >> 4) | (p.0 << 4)) ^ Low4(m).1)
  {
  }

  lemma Correction4(m: bv8)
    ensures Pair(m, 4) == Low4(m)
  {
    PairStep(m, 0);
    PairStep(m, 1);
    PairStep(m, 2);
    PairStep(m, 3);
    hide StepPair;
    FourStepsShift((0, 0), m);
    hide Low4;
  }

  function Low8(m: bv8): (bv8, bv8) {
    ((if m & 0x01 != 0 then 0x01 else 0) ^ (if m & 0x02 != 0 then 0x03 else 0)
     ^ (if m & 0x04 != 0 then 0x07 else 0) ^ (if m & 0x08 != 0 then 0x0e else 0)
     ^ (if m & 0x10 != 0 then 0x1c else 0) ^ (if m & 0x20 != 0 then 0x38 else 0)
     ^ (if m & 0x40 != 0 then 0x70 else 0) ^ (if m & 0x80 != 0 then 0xe1 else 0),
     (if m & 0x01 != 0 then 0xc2 else 0) ^ (if m & 0x02 != 0 then 0x84 else 0)
     ^ (if m & 0x04 != 0 then 0x08 else 0) ^ (if m & 0x08 != 0 then 0x10 else 0)
     ^ (if m & 0x10 != 0 then 0x20 else 0) ^ (if m & 0x20 != 0 then 0x40 else 0)
     ^ (if m & 0x40 != 0 then 0x80 else 0))
  }

  lemma Low8FromLow4(m: bv8)
    ensures FourSteps(Low4(m), m >> 4) == Low8(m)
  {
    FourStepsShift(Low4(m), m >> 4);
    hide FourSteps;
  }

  lemma Correction8(m: bv8)
    ensures Pair(m, 8) == Low8(m)
  {
    Correction4(m);
    PairStep(m, 4);
    PairStep(m, 5);
    PairStep(m, 6);
    PairStep(m, 7);
    hide StepPair, Low4, Pair;
    Low8FromLow4(m);
    hide Low8;
  }

  lemma Table4Correct(m: bv8)
    ensures |REDUCTION_4BIT| == 16 && REDUCTION_4BIT[(m & 0xf) as nat] == Pair(m, 4)
  {
    Correction4(m);
    hide Pair;
  }

  lemma FirstRowsCorrect(m: bv8)
    requires m < 128
    ensures Reduction8(m) == Low8(m)
  {
    if m >> 4 == 0 {
      var row := REDUCTION_8BIT[0];
      assert row[(m & 0xf) as nat] == Low8(m);
    } else if m >> 4 == 1 {
      var row := REDUCTION_8BIT[1];
      assert row[(m & 0xf) as nat] == Low8(m);
    } else if m >> 4 == 2 {
      var row := REDUCTION_8BIT[2];
      assert row[(m & 0xf) as nat] == Low8(m);
    } else if m >> 4 == 3 {
      var row := REDUCTION_8BIT[3];
      assert row[(m & 0xf) as nat] == Low8(m);
    } else if m >> 4 == 4 {
      var row := REDUCTION_8BIT[4];
      assert row[(m & 0xf) as nat] == Low8(m);
    } else if m >> 4 == 5 {
      var row := REDUCTION_8BIT[5];
      assert row[(m & 0xf) as nat] == Low8(m);
    } else if m >> 4 == 6 {
      var row := REDUCTION_8BIT[6];
      assert row[(m & 0xf) as nat] == Low8(m);
    } else if m >> 4 == 7 {
      var row := REDUCTION_8BIT[7];
      assert row[(m & 0xf) as nat] == Low8(m);
    }
  }

  lemma LastRowsCorrect(m: bv8)
    requires m >= 128
    ensures Reduction8(m) == Low8(m)
  {
    if m >> 4 == 8 {
      var row := REDUCTION_8BIT[8];
      assert row[(m & 0xf) as nat] == Low8(m);
    } else if m >> 4 == 9 {
      var row := REDUCTION_8BIT[9];
      assert row[(m & 0xf) as nat] == Low8(m);
    } else if m >> 4 == 10 {
      var row := REDUCTION_8BIT[10];
      assert row[(m & 0xf) as nat] == Low8(m);
    } else if m >> 4 == 11 {
      var row := REDUCTION_8BIT[11];
      assert row[(m & 0xf) as nat] == Low8(m);
    } else if m >> 4 == 12 {
      var row := REDUCTION_8BIT[12];
      assert row[(m & 0xf) as nat] == Low8(m);
    } else if m >> 4 == 13 {
      var row := REDUCTION_8BIT[13];
      assert row[(m & 0xf) as nat] == Low8(m);
    } else if m >> 4 == 14 {
      var row := REDUCTION_8BIT[14];
      assert row[(m & 0xf) as nat] == Low8(m);
    } else if m >> 4 == 15 {
      var row := REDUCTION_8BIT[15];
      assert row[(m & 0xf) as nat] == Low8(m);
    }
  }

  lemma Table8Correct(m: bv8)
    ensures Reduction8(m) == Pair(m, 8)
  {
    hide Reduction8, Low8, Pair;
    Correction8(m);
    if m < 128 { FirstRowsCorrect(m); } else { LastRowsCorrect(m); }
  }
}
