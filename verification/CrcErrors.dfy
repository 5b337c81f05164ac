/** Exactly which errors the check does not detect: the multiples of the polynomial x^16 + x^15 + x^2 + 1. */
module CrcErrors {
  import opened Bytes
  import opened Crc

  predicate At(q: seq<bool>, i: int) {
    0 <= i < |q| && q[i]
  }

  predicate Differ(p: bool, q: bool) {
    p != q
  }

  /** Coefficient i, the highest first, of the product of q with the polynomial: of its four terms, those of degree 15,
      2 and 0 are 1, 14 and 16 places behind the first. */
  predicate Coefficient(q: seq<bool>, i: int) {
    Differ(Differ(At(q, i), At(q, i - 1)), Differ(At(q, i - 14), At(q, i - 16)))
  }

  ghost predicate IsMultiple(q: seq<bool>, y: seq<bool>) {
    |y| == |q| + 16 && forall i | 0 <= i < |y| :: y[i] == Coefficient(q, i)
  }

  function XorBits(s: seq<bool>, t: seq<bool>): (r: seq<bool>)
    requires |s| == |t|
    ensures |r| == |s|
  {
    seq(|s|, i requires 0 <= i < |s| => Differ(s[i], t[i]))
  }

  /** The polynomial itself, or zero, in front of zeros. */
  function Term(on: bool, n: nat): (s: seq<bool>)
    ensures |s| == n
  {
    seq(n, i => on && (i == 0 || i == 1 || i == 14 || i == 16))
  }

  lemma BitDifference(a: bool, b: bool)
    ensures BitWord(Differ(a, b)) == XorWord(BitWord(a), BitWord(b))
  {
  }

  lemma {:induction false} ShiftLinear(a: bv16, b: bv16, s: seq<bool>, t: seq<bool>)
    requires |s| == |t|
    ensures Shift(XorWord(a, b), XorBits(s, t)) == XorWord(Shift(a, s), Shift(b, t))
    decreases s
  {
    hide Step, XorWord, BitWord, Differ;
    if s != [] {
      var x, y := XorWord(a, BitWord(s[0])), XorWord(b, BitWord(t[0]));
      BitDifference(s[0], t[0]);
      Exchange(a, b, BitWord(s[0]), BitWord(t[0]));
      StepLinear(x, y);
      ShiftLinear(Step(x), Step(y), s[1..], t[1..]);
      assert XorBits(s, t)[1..] == XorBits(s[1..], t[1..]);
    }
  }

  /** One bit through the register. */
  lemma Pushed(c: bv16, s: seq<bool>, k: nat, d: bv16)
    requires k < |s| && d == Step(XorWord(c, BitWord(s[k])))
    ensures Shift(c, s[k..]) == Shift(d, s[k+1..])
  {
    assert s[k..][0] == s[k] && s[k..][1..] == s[k+1..];
    hide Step, XorWord, BitWord;
  }

  lemma FirstHalf(s: seq<bool>)
    requires |s| == 17 && s[..9] == [true, true, false, false, false, false, false, false, false]
    ensures Shift(0, s) == Shift(0x00A0, s[9..])
  {
    hide Shift;
    assert s == s[0..];
    assert forall k | 0 <= k < 9 :: s[k] == s[..9][k];
    Pushed(0, s, 0, 0xa001);
    Pushed(0xa001, s, 1, 0x5000);
    Pushed(0x5000, s, 2, 0x2800);
    Pushed(0x2800, s, 3, 0x1400);
    Pushed(0x1400, s, 4, 0xa00);
    Pushed(0xa00, s, 5, 0x500);
    Pushed(0x500, s, 6, 0x280);
    Pushed(0x280, s, 7, 0x140);
    Pushed(0x140, s, 8, 0xa0);
  }

  lemma SecondHalf(s: seq<bool>)
    requires |s| == 17 && s[9..] == [false, false, false, false, false, true, false, true]
    ensures Shift(0x00A0, s[9..]) == 0
  {
    hide Shift;
    assert forall k | 9 <= k < 17 :: s[k] == s[9..][k-9];
    Pushed(0xa0, s, 9, 0x50);
    Pushed(0x50, s, 10, 0x28);
    Pushed(0x28, s, 11, 0x14);
    Pushed(0x14, s, 12, 0xa);
    Pushed(0xa, s, 13, 0x5);
    Pushed(0x5, s, 14, 0x2);
    Pushed(0x2, s, 15, 0x1);
    Pushed(0x1, s, 16, 0x0);
    assert s[17..] == [];
    Emptied();
  }

  /** The polynomial leaves the register at zero. */
  lemma PolynomialVanishes(s: seq<bool>)
    requires s == [true, true, false, false, false, false, false, false, false,
                   false, false, false, false, false, true, false, true]
    ensures Shift(0, s) == 0
  {
    hide Shift;
    FirstHalf(s);
    SecondHalf(s);
  }

  lemma Emptied()
    ensures Shift(0, []) == 0
  {
  }

  lemma TermVanishes(on: bool, n: nat)
    requires n >= 17
    ensures Shift(0, Term(on, n)) == 0
  {
    hide Shift;
    var s, z := Term(on, n)[..17], Term(on, n)[17..];
    assert Term(on, n) == s + z;
    ShiftConcat(0, s, z);
    if on {
      PolynomialVanishes(s);
    } else {
      ShiftZeros(0, s);
    }
    ShiftZeros(Shift(0, s), z);
  }

  /** What is left after the first term, its first bit gone. */
  function Rest(e: seq<bool>): seq<bool>
    requires |e| > 16
  {
    XorBits(e, Term(e[0], |e|))[1..]
  }

  lemma RestShifted(e: seq<bool>)
    requires |e| > 16
    ensures Shift(0, e) == Shift(0, Rest(e))
  {
    var g := Term(e[0], |e|);
    var d := XorBits(e, g);
    TermVanishes(e[0], |e|);
    ShiftLinear(0, 0, e, g);
    assert !d[0];
    assert d == [false] + d[1..];
    FalseFirst(d);
    XorWordLaws(Shift(0, e), 0);
    XorWordLaws(0, 0);
    hide Shift, XorWord, XorBits, Term;
  }

  lemma FalseFirst(d: seq<bool>)
    requires d != [] && !d[0]
    ensures Shift(0, d) == Shift(0, d[1..])
  {
  }

  lemma CoefficientMoves(q: seq<bool>, e: seq<bool>, i: nat)
    requires q != [] && |e| == |q| + 16 && q[0] == e[0] && i < |e| - 1
    ensures Rest(e)[i] == Coefficient(q[1..], i) <==> e[i+1] == Coefficient(q, i + 1)
  {
  }

  /** Long division, one coefficient of the quotient at a time. */
  lemma DivideOnce(q: seq<bool>, e: seq<bool>)
    requires q != [] && |e| == |q| + 16
    ensures IsMultiple(q, e) <==> (q[0] == e[0] && IsMultiple(q[1..], Rest(e)))
  {
    assert Coefficient(q, 0) == q[0];
    hide Coefficient;
    if q[0] == e[0] {
      forall i: nat | i < |e| - 1
        ensures Rest(e)[i] == Coefficient(q[1..], i) <==> e[i+1] == Coefficient(q, i + 1)
      {
        CoefficientMoves(q, e, i);
      }
      hide Rest;
      if IsMultiple(q[1..], Rest(e)) {
        forall i | 0 <= i < |e| ensures e[i] == Coefficient(q, i) {
          if i > 0 {
            assert Rest(e)[i-1] == Coefficient(q[1..], i - 1);
          }
        }
      }
    }
  }

  lemma NoQuotient(e: seq<bool>)
    requires |e| == 16
    ensures Shift(0, e) == 0 <==> IsMultiple([], e)
  {
    ShiftIsSteps(0, e);
    WordZero(e);
    XorWordLaws(WordOf(e), 0);
    StepsZero(WordOf(e), 16);
    hide Shift, WordOf, Steps, XorWord;
    assert forall i | 0 <= i < 16 :: !Coefficient([], i);
  }

  /** Multiples of the polynomial leave the register at zero. */
  lemma {:induction false} MultipleVanishes(q: seq<bool>, e: seq<bool>)
    requires IsMultiple(q, e)
    ensures Shift(0, e) == 0
    decreases q
  {
    hide Shift, Rest, IsMultiple;
    assert |e| == |q| + 16 by { Sizes(q, e); }
    if q == [] {
      NoQuotient(e);
    } else {
      DivideOnce(q, e);
      RestShifted(e);
      MultipleVanishes(q[1..], Rest(e));
    }
  }

  lemma Sizes(q: seq<bool>, e: seq<bool>)
    requires IsMultiple(q, e)
    ensures |e| == |q| + 16
  {
  }

  /** The quotient, if the register is at zero after e. */
  lemma {:induction false} Quotient(e: seq<bool>) returns (q: seq<bool>)
    requires |e| >= 16 && Shift(0, e) == 0
    ensures IsMultiple(q, e)
    decreases |e|
  {
    hide Shift, IsMultiple;
    if |e| == 16 {
      NoQuotient(e);
      q := [];
    } else {
      RestShifted(e);
      var r := Quotient(Rest(e));
      q := [e[0]] + r;
      Sizes(r, Rest(e));
      assert q[1..] == r;
      DivideOnce(q, e);
    }
  }

  /** An error in an accepted text goes undetected exactly when its bits are a multiple of the polynomial. */
  lemma Undetected(w: seq<bv8>, e: seq<bv8>)
    requires |w| == |e| >= 2 && Accepted(w)
    ensures Accepted(Xor(w, e)) <==> exists q :: IsMultiple(q, Bits(e))
  {
    hide XorWord, Feed, Accepted, Bits, Xor, IsMultiple;
    ZeroResidue(w);
    ZeroResidue(Xor(w, e));
    CrcAffine(w, e);
    FeedIsShift(0, e);
    XorWordLaws(Feed(0, e), 0);
    if Shift(0, Bits(e)) == 0 {
      var q := Quotient(Bits(e));
    } else {
      forall q | IsMultiple(q, Bits(e)) ensures false {
        MultipleVanishes(q, Bits(e));
      }
    }
  }

  // ----- a known value -----

  lemma EightSteps(c: bv16)
    ensures Steps(c, 8) == Step(Step(Step(Step(Step(Step(Step(Step(c))))))))
  {
    hide Step;
    assert Steps(c, 8) == Steps(Step(Step(Step(Step(c)))), 4);
  }

  lemma Fed(m: seq<bv8>, c: bv16, b: bv8, d: bv16)
    requires Crc16(m) == c && d == Step(Step(Step(Step(Step(Step(Step(Step(XorWord(c, Wide(b))))))))))
    ensures Crc16(m + [b]) == d
  {
    EightSteps(XorWord(c, Wide(b)));
    hide Steps, Step, XorWord;
    assert (m + [b])[..|m|] == m;
  }

  /** The check of nothing, and that of the nine digits from 1 to 9. */
  lemma CheckValue()
    ensures Crc16([]) == 0xFFFF
    ensures Crc16([0x31, 0x32, 0x33, 0x34, 0x35, 0x36, 0x37, 0x38, 0x39]) == 0x4B37
  {
    assert Crc16([]) == 0xFFFF;
    hide Crc16;
    var m: seq<bv8> := [];
    Fed(m, 0xffff, 0x31, 0x947e);
    m := m + [0x31];
    Fed(m, 0x947e, 0x32, 0xf595);
    m := m + [0x32];
    Fed(m, 0xf595, 0x33, 0x7a75);
    m := m + [0x33];
    Fed(m, 0x7a75, 0x34, 0x30ba);
    m := m + [0x34];
    Fed(m, 0x30ba, 0x35, 0xa471);
    m := m + [0x35];
    Fed(m, 0xa471, 0x36, 0x32e4);
    m := m + [0x36];
    Fed(m, 0x32e4, 0x37, 0x9d73);
    m := m + [0x37];
    Fed(m, 0x9d73, 0x38, 0x37dd);
    m := m + [0x38];
    Fed(m, 0x37dd, 0x39, 0x4b37);
    m := m + [0x39];
    assert m == [0x31, 0x32, 0x33, 0x34, 0x35, 0x36, 0x37, 0x38, 0x39];
  }
}
