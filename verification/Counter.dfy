/** The 128-bit block counter: increment by octet carry, its value, and the CTR key stream. */
module Counter {
  import opened Bytes

  // ----- value and increment -----

  function Pow256(n: nat): (p: nat)
    ensures p >= 1
  {
    if n == 0 then 1 else Pow256(n - 1) * 256
  }

  /** The value of an octet string, most significant octet first. */
  function BeNat(s: seq<bv8>): nat {
    if s == [] then 0 else BeNat(s[..|s|-1]) * 256 + s[|s|-1] as nat
  }

  predicate AllOnes(s: seq<bv8>) {
    forall i | 0 <= i < |s| :: s[i] == 0xff
  }

  /** Increment with the carry running from the last octet to the first, wrapping to zero. */
  function Inc(s: seq<bv8>): (r: seq<bv8>)
    ensures |r| == |s|
  {
    if s == [] then []
    else
      var front, last := s[..|s|-1], s[|s|-1];
      if last == 0xff then Inc(front) + [0] else front + [last + 1]
  }

  function IncBy(b: Block, n: nat): Block {
    if n == 0 then b else Inc(IncBy(b, n - 1))
  }

  lemma OctetRange(b: bv8)
    ensures b as nat < 256
    ensures b == 0xff <==> b as nat == 255
    ensures b != 0xff ==> (b + 1) as nat == b as nat + 1
  {
  }

  lemma {:induction false} BeNatBound(s: seq<bv8>)
    ensures BeNat(s) < Pow256(|s|)
    ensures BeNat(s) == Pow256(|s|) - 1 <==> AllOnes(s)
  {
    if s != [] {
      var front, last := s[..|s|-1], s[|s|-1];
      BeNatBound(front);
      OctetRange(last);
      assert AllOnes(s) <==> AllOnes(front) && last == 0xff by {
        if AllOnes(front) && last == 0xff {
          forall i | 0 <= i < |s| ensures s[i] == 0xff {
            assert i < |front| ==> front[i] == s[i];
          }
        }
      }
    }
  }

  /** Octet strings of one length are equal exactly when their values are. */
  lemma {:induction false} BeNatInjective(s: seq<bv8>, t: seq<bv8>)
    requires |s| == |t|
    ensures BeNat(s) == BeNat(t) <==> s == t
  {
    if s != [] && BeNat(s) == BeNat(t) {
      var i := |s| - 1;
      OctetRange(s[i]);
      OctetRange(t[i]);
      BaseDigits(BeNat(s[..i]), s[i] as nat, BeNat(t[..i]), t[i] as nat);
      hide BeNat;
      BeNatInjective(s[..i], t[..i]);
      OctetInjective(s[i], t[i]);
      assert s == s[..i] + [s[i]];
      assert t == t[..i] + [t[i]];
    }
  }

  lemma BaseDigits(a: nat, x: nat, b: nat, y: nat)
    requires x < 256 && y < 256 && a * 256 + x == b * 256 + y
    ensures a == b && x == y
  {
  }

  lemma {:induction false} IncValue(s: seq<bv8>)
    ensures BeNat(Inc(s)) == if AllOnes(s) then 0 else BeNat(s) + 1
  {
    if s != [] {
      var front, last := s[..|s|-1], s[|s|-1];
      IncValue(front);
      OctetRange(last);
      assert s == front + [last];
      if last == 0xff {
        assert Inc(s)[..|s|-1] == Inc(front);
        assert AllOnes(s) <==> AllOnes(front);
      } else {
        assert Inc(s)[..|s|-1] == front;
        assert !AllOnes(s) by { assert s[|s|-1] != 0xff; }
      }
    }
  }

  lemma ModStep(a: nat, m: nat)
    requires m > 0
    ensures (a + 1) % m == if a % m == m - 1 then 0 else a % m + 1
  {
    var q, r := a / m, a % m;
    assert a == m * q + r;
    if r == m - 1 {
      assert a + 1 == m * (q + 1);
      MultipleMod(q + 1, m, 0);
    } else {
      MultipleMod(q, m, r + 1);
    }
  }

  lemma MultipleMod(q: nat, m: nat, r: nat)
    requires r < m
    ensures (m * q + r) % m == r
  {
    var x := m * q + r;
    assert x == m * (x / m) + x % m;
    MulGrows(m, q - x / m);
    assert m * (q - x / m) == m * q - m * (x / m);
  }

  lemma MulGrows(m: nat, d: int)
    ensures d >= 1 ==> m * d >= m
    ensures d <= -1 ==> m * d + m <= 0
  {
  }

  /** n increments add n to the value modulo 2^128. */
  lemma {:induction false} IncByValue(b: Block, n: nat)
    ensures BeNat(IncBy(b, n)) == (BeNat(b) + n) % Pow256(|b|)
  {
    BeNatBound(b);
    hide Pow256;
    if n == 0 {
      MultipleMod(0, Pow256(|b|), BeNat(b));
    } else {
      IncByValue(b, n - 1);
      IncValue(IncBy(b, n - 1));
      BeNatBound(IncBy(b, n - 1));
      ModStep(BeNat(b) + n - 1, Pow256(|b|));
    }
  }

  lemma {:induction false} IncByAdd(b: Block, m: nat, n: nat)
    ensures IncBy(IncBy(b, m), n) == IncBy(b, m + n)
  {
    if n > 0 {
      IncByAdd(b, m, n - 1);
    }
  }

  /** ctr128_inc: octet by octet from the right until one does not wrap. */
  method Ctr128Inc(counter: array<bv8>)
    requires counter.Length == 16
    modifies counter
    ensures counter[..] == Inc(old(counter[..]))
  {
    var n := 16;
    ghost var s := counter[..];
    assert s[..16] == s && Inc(s) + counter[16..] == Inc(s);
    while n > 0
      invariant 0 <= n <= 16
      invariant counter[..n] == s[..n]
      invariant Inc(s) == Inc(s[..n]) + counter[n..]
    {
      n := n - 1;
      ghost var front, tail := s[..n+1], counter[n+1..];
      assert front[..n] == s[..n] && counter[n] == counter[..n+1][n] == front[n];
      var c := counter[n];
      c := c + 1;
      counter[n] := c;
      assert counter[n..] == [c] + tail && counter[..n] == s[..n];
      if c != 0 {
        assert Inc(front) == s[..n] + [c];
        assert counter[..] == s[..n] + [c] + tail;
        return;
      }
      assert Inc(front) == Inc(s[..n]) + [c];
    }
  }

  // ----- big-endian words -----

  /** The low k octets of n, most significant first. */
  function Be(n: nat, k: nat): (s: seq<bv8>)
    ensures |s| == k
  {
    if k == 0 then [] else Be(n / 256, k - 1) + [Octet(n)]
  }

  /** A 32-bit word stored octet by octet with shifts and truncation. */
  function Word32(v: nat): (s: seq<bv8>)
    ensures |s| == 4
  {
    [Octet(v / 0x1000000), Octet(v / 0x10000), Octet(v / 0x100), Octet(v)]
  }

  lemma Word32IsBe(v: nat)
    ensures Word32(v) == Be(v, 4)
  {
    hide Octet;
    var a := v / 256;
    var b := a / 256;
    var c := b / 256;
    assert b == v / 0x10000 && c == v / 0x1000000;
    assert Be(c, 1) == [Octet(c)];
    assert Be(b, 2) == Be(c, 1) + [Octet(b)];
    assert Be(a, 3) == Be(b, 2) + [Octet(a)];
  }

  lemma {:induction false} BeValue(n: nat, k: nat)
    requires n < Pow256(k)
    ensures BeNat(Be(n, k)) == n
  {
    hide Octet;
    if k > 0 {
      BeValue(n / 256, k - 1);
      OctetValue(n);
      assert Be(n, k)[..k-1] == Be(n / 256, k - 1);
    }
  }

  /** Leading zero octets do not count. */
  lemma {:induction false} BeLeadingZeros(n: nat, k: nat, j: nat)
    requires n < Pow256(k)
    ensures Be(n, j + k) == Be(0, j) + Be(n, k)
  {
    hide Octet;
    if k == 0 {
      assert n == 0;
    } else {
      BeLeadingZeros(n / 256, k - 1, j);
    }
  }
}
