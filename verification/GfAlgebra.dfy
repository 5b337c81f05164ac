/** Laws of the product of section 6.3 of NIST SP 800-38D that tell tags apart: it is linear in its left
    factor, has a one, and a power of x times a block is zero for the zero block only. */
module GfAlgebra {
  import opened Bytes
  import opened GfMul
  import opened GfTables

  /** The polynomial 1: only the leftmost bit is set. */
  const ONE: Block := [0x80, 0, 0, 0, 0, 0, 0, 0, 0, 0, 0, 0, 0, 0, 0, 0]

  // ----- linearity in the left factor -----

  lemma {:induction false} SumToLinear(a: Block, b: Block, h: Block, n: nat)
    requires n <= 128
    ensures SumTo(XorBlock(a, b), h, n) == XorBlock(SumTo(a, h, n), SumTo(b, h, n))
  {
    hide Power, BitOf, When, XorOctet;
    if n == 0 {
      XorZero(ZERO);
    } else {
      SumToLinear(a, b, h, n - 1);
      var i, p := n - 1, Power(h, n - 1);
      BitOfXor(a[i / 8], b[i / 8], i % 8);
      assert BlockBit(XorBlock(a, b), i) == (BlockBit(a, i) != BlockBit(b, i));
      hide BlockBit, XorBlock;
      WhenXor(BlockBit(a, i), BlockBit(b, i), p);
      XorInterchange(SumTo(a, h, i), SumTo(b, h, i), When(BlockBit(a, i), p), When(BlockBit(b, i), p));
    }
  }

  lemma MulLinear(a: Block, b: Block, h: Block)
    ensures Mul(XorBlock(a, b), h) == XorBlock(Mul(a, h), Mul(b, h))
  {
    SumToLinear(a, b, h, 128);
  }

  // ----- multiplication by a power of x loses nothing -----

  lemma ShiftedOut(hi: bv8, lo: bv8)
    ensures ShiftIn1(hi, lo) == 0 && hi & 1 == 0 ==> lo & 0xfe == 0
    ensures ShiftIn1(hi, lo) == 0 ==> hi & 1 == 0
    ensures lo & 0xfe == 0 && lo & 1 == 0 ==> lo == 0
  {
  }

  lemma FirstOctet(b: bv8, out: bool)
    requires XorOctet(ShiftIn1(0, b), Feedback(out)) == 0
    ensures !out && ShiftIn1(0, b) == 0
  {
  }

  lemma MulXNonzero(v: Block)
    requires MulX(v) == ZERO
    ensures v == ZERO
  {
    hide ShiftIn1, Feedback, XorOctet;
    var s := ShiftRight1(v);
    assert MulX(v)[0] == 0 && s[0] == ShiftIn1(0, v[0]);
    FirstOctet(v[0], v[15] & 1 != 0);
    forall k | 0 <= k < 16 ensures ShiftIn1(Before(v, k), v[k]) == 0 {
      assert k > 0 ==> MulX(v)[k] == s[k] == 0;
    }
    hide MulX, ShiftRight1;
    forall k | 0 <= k < 16 ensures v[k] & 1 == 0 {
      if k < 15 {
        assert ShiftIn1(Before(v, k + 1), v[k+1]) == 0;
        ShiftedOut(v[k], v[k+1]);
      }
    }
    forall k | 0 <= k < 16 ensures v[k] == 0 {
      ZeroEven();
      ShiftedOut(Before(v, k), v[k]);
    }
  }

  lemma FeedbackOff()
    ensures Feedback(false) == 0
  {
  }

  lemma ZeroEven()
    ensures 0 as bv8 & 1 == 0
  {
  }

  lemma {:induction false} PowerNonzero(v: Block, n: nat)
    ensures Power(v, n) == ZERO <==> v == ZERO
  {
    hide MulX;
    if n > 0 {
      PowerNonzero(v, n - 1);
      MulXZero();
      if Power(v, n) == ZERO {
        MulXNonzero(Power(v, n - 1));
      }
    }
  }

  lemma {:induction false} SumToUnit(x: Block, h: Block, i: nat, n: nat)
    requires i < 128 && n <= 128 && forall j: nat | j < 128 :: BlockBit(x, j) <==> i == j
    ensures SumTo(x, h, n) == When(i < n, Power(h, i))
  {
    hide Power, XorBlock, BlockBit;
    if n > 0 {
      SumToUnit(x, h, i, n - 1);
      assert BlockBit(x, n - 1) <==> i == n - 1;
      XorZero(Power(h, i));
      XorZero(ZERO);
    }
  }

  /** A block with a single bit is a power of x; times h it is zero for h zero only. */
  lemma UnitProduct(x: Block, h: Block, i: nat)
    requires i < 128 && forall j: nat | j < 128 :: BlockBit(x, j) <==> i == j
    ensures Mul(x, h) == Power(h, i)
    ensures Mul(x, h) == ZERO <==> h == ZERO
  {
    SumToUnit(x, h, i, 128);
    PowerNonzero(h, i);
  }

  // ----- the one -----

  /** A block with one octet in front. */
  function Front(b: bv8): Block {
    ZERO[0 := b]
  }

  lemma {:induction false} NoCorrection(t: nat, k: nat)
    requires t <= 8
    ensures Correction(0, t, k) == 0
    decreases t, k
  {
    if t > 0 {
      NoCorrection(t - 1, k);
      ShiftIn1Zero();
      NoBit(8 - t);
      FeedbackOff();
      XorOctetLaws(0, 0, 0);
      hide ShiftIn1, XorOctet, Feedback, BitOf;
      if k > 0 {
        NoCorrection(t - 1, k - 1);
      }
    }
  }

  lemma NoBit(j: nat)
    requires j < 8
    ensures !BitOf(0, j)
  {
  }

  lemma OnePowerOctets(t: nat)
    requires t < 8
    ensures ShiftIn(0, 0x80, t) == Unit(t) && ShiftIn(0x80, 0, t) == 0 && ShiftIn(0, 0, t) == 0
  {
    match t
    case 0 => case 1 => case 2 => case 3 => case 4 => case 5 => case 6 => case _ =>
  }

  lemma OnePowerAt(t: nat, k: nat)
    requires t < 8 && k < 16
    ensures Shifted(ONE, t)[k] == Front(Unit(t))[k]
  {
    OnePowerOctets(t);
    NoCorrection(t, k);
    assert ONE[15] == 0 && ONE[0] == 0x80;
    assert k > 0 ==> ONE[k] == 0;
    hide ShiftIn, Correction, XorOctet, Unit;
    XorOctetLaws(ShiftIn(Before(ONE, k), ONE[k], t), 0, 0);
    if k > 1 {
      assert Before(ONE, k) == 0;
    }
  }

  lemma OnePower(t: nat)
    requires t < 8
    ensures Power(ONE, t) == Front(Unit(t))
  {
    PowerIsShifted(ONE, t);
    hide Power, Shifted, Unit;
    forall k | 0 <= k < 16 ensures Shifted(ONE, t)[k] == Front(Unit(t))[k] {
      OnePowerAt(t, k);
    }
  }

  lemma FrontXor(a: bv8, b: bv8)
    ensures XorBlock(Front(a), Front(b)) == Front(XorOctet(a, b))
  {
    XorZero(ZERO);
    hide XorOctet;
    assert forall k | 0 < k < 16 :: XorBlock(Front(a), Front(b))[k] == XorBlock(ZERO, ZERO)[k];
  }

  /** The leftmost n bits of an octet. */
  function Top(b: bv8, n: nat): bv8
    requires n <= 8
  {
    if n == 0 then 0 else XorOctet(Top(b, n - 1), if BitOf(b, n - 1) then Unit(n - 1) else 0)
  }

  lemma {:induction false} OctetSumOne(b: bv8, n: nat)
    requires n <= 8
    ensures OctetSum(b, ONE, n) == Front(Top(b, n))
  {
    hide Power, XorBlock, BitOf, XorOctet, Unit;
    assert Front(0) == ZERO;
    if n > 0 {
      OctetSumOne(b, n - 1);
      OnePower(n - 1);
      FrontXor(Top(b, n - 1), if BitOf(b, n - 1) then Unit(n - 1) else 0);
    }
  }

  lemma TopIsAll(b: bv8)
    ensures Top(b, 8) == b
  {
    assert Top(b, 1) == b & 0x80;
    assert Top(b, 2) == b & 0xc0;
    assert Top(b, 3) == b & 0xe0;
    assert Top(b, 4) == b & 0xf0;
    assert Top(b, 5) == b & 0xf8;
    assert Top(b, 6) == b & 0xfc;
    assert Top(b, 7) == b & 0xfe;
  }

  lemma OctetShiftAt(v: Block, k: nat)
    requires v[15] == 0 && k < 16
    ensures Shifted(v, 8)[k] == Before(v, k)
  {
    NoCorrection(8, k);
    hide Correction, XorOctet;
    XorOctetLaws(Before(v, k), 0, 0);
    assert ShiftIn(Before(v, k), v[k], 8) == Before(v, k);
  }

  /** Eight multiplications by x of a block whose last octet is zero move it by one octet. */
  lemma OctetShift(v: Block)
    requires v[15] == 0
    ensures forall k | 0 <= k < 16 :: Power(v, 8)[k] == Before(v, k)
  {
    PowerIsShifted(v, 8);
    hide Power, Shifted;
    forall k | 0 <= k < 16 ensures Power(v, 8)[k] == Before(v, k) {
      OctetShiftAt(v, k);
    }
  }

  /** One octet in front of a block moved by one octet. */
  lemma FrontOctet(b: bv8, v: Block, w: Block)
    requires forall k | 0 <= k < 16 :: w[k] == Before(v, k)
    ensures XorBlock(Front(b), w) == [b] + v[..15]
  {
    hide XorOctet;
    forall k | 0 <= k < 16 ensures XorBlock(Front(b), w)[k] == ([b] + v[..15])[k] {
      XorOctetLaws(Front(b)[k], 0, 0);
      XorOctetLaws(w[k], 0, 0);
    }
  }

  lemma HornerStep(x: Block, h: Block, k: nat)
    requires k < 16
    ensures Horner(x, h, k) == XorBlock(OctetSum(x[k], h), Power(Horner(x, h, k + 1), 8))
    ensures Horner(x, h, 16) == ZERO
  {
  }

  /** The octets of x from k on, moved to the front. */
  function From(x: Block, k: nat): Block
    requires k <= 16
  {
    x[k..] + ZERO[..k]
  }

  lemma FromStep(x: Block, k: nat)
    requires k < 16
    ensures From(x, k + 1)[15] == 0 && [x[k]] + From(x, k + 1)[..15] == From(x, k)
  {
  }

  lemma {:induction false} HornerOne(x: Block, k: nat)
    requires k <= 16
    ensures Horner(x, ONE, k) == From(x, k)
    decreases 16 - k
  {
    if k < 16 {
      HornerOne(x, k + 1);
      HornerStep(x, ONE, k);
      FromStep(x, k);
      OctetSumOne(x[k], 8);
      TopIsAll(x[k]);
      hide Power, OctetSum, Top, XorBlock, Horner, From;
      OctetShift(From(x, k + 1));
      FrontOctet(x[k], From(x, k + 1), Power(From(x, k + 1), 8));
    }
  }

  lemma MulOne(x: Block)
    ensures Mul(x, ONE) == x
  {
    MulIsHorner(x, ONE);
    HornerOne(x, 0);
    hide Mul;
    assert From(x, 0) == x;
  }
}
