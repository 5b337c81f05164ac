/** Incremental GCM: the definition of section 7.1 of NIST SP 800-38D over an abstract block
    function, and the context object that encrypts and authenticates piece by piece. */
module Gcm {
  import opened Bytes
  import opened Counter
  import opened Ctr
  import opened Ghash

  // ----- the standard -----

  /** inc32 of section 6.2: only the last 32 bits count. */
  function Inc32(b: Block): Block {
    b[..12] + Inc(b[12..])
  }

  function Inc32By(b: Block, n: nat): Block {
    if n == 0 then b else Inc32(Inc32By(b, n - 1))
  }

  /** GCTR of section 6.5. */
  function Gctr(E: BlockFn, b: Block, x: seq<bv8>): seq<bv8>
    decreases |x|
  {
    if |x| <= 16 then Xor(x, E(b)[..|x|])
    else Xor(x[..16], E(b)) + Gctr(E, Inc32(b), x[16..])
  }

  /** The pre-counter block of section 7.1, step 2. */
  function PreCounter(h: Block, iv: seq<bv8>): Block {
    if |iv| == 12 then iv + [0, 0, 0, 1]
    else Hash(ZERO, Padded(iv) + Be(0, 8) + Be(8 * |iv|, 8), h)
  }

  /** The tag block of section 7.1, steps 4 to 6, for lengths given in octets. */
  function TagBlock(E: BlockFn, h: Block, j0: Block, aad: seq<bv8>, c: seq<bv8>, aadLen: nat): Block {
    var s := Hash(ZERO, Padded(aad) + Padded(c) + Be(8 * aadLen, 8) + Be(8 * |c|, 8), h);
    XorBlock(s, E(j0))
  }

  /** Authenticated encryption of section 7.1: the ciphertext and the full tag. */
  function Seal(E: BlockFn, iv: seq<bv8>, aad: seq<bv8>, p: seq<bv8>): (seq<bv8>, Block) {
    var h := E(ZERO);
    var j0 := PreCounter(h, iv);
    var c := Gctr(E, Inc32(j0), p);
    (c, TagBlock(E, h, j0, aad, c, |aad|))
  }

  // ----- 32-bit and 128-bit counters -----

  lemma {:induction false} IncSplit(t: seq<bv8>, l: seq<bv8>)
    ensures Inc(t + l) == if AllOnes(l) then Inc(t) + Inc(l) else t + Inc(l)
  {
    if l == [] {
      assert t + l == t && Inc(t) + Inc(l) == Inc(t);
    } else {
      var l', z := l[..|l|-1], l[|l|-1];
      assert (t + l)[..|t+l|-1] == t + l' && (t + l)[|t+l|-1] == z;
      IncSplit(t, l');
      if z == 0xff {
        assert AllOnes(l) <==> AllOnes(l') by { LastOnes(l); }
        assert Inc(t + l) == Inc(t + l') + [0];
      } else {
        assert !AllOnes(l) by { LastOnes(l); }
        assert Inc(t + l) == t + l' + [z + 1] == t + (l' + [z + 1]);
      }
    }
  }

  lemma LastOnes(l: seq<bv8>)
    requires l != []
    ensures AllOnes(l) <==> AllOnes(l[..|l|-1]) && l[|l|-1] == 0xff
  {
    assert l == l[..|l|-1] + [l[|l|-1]];
  }

  lemma {:induction false} IncDiffers(s: seq<bv8>)
    requires s != []
    ensures Inc(s) != s
  {
    var last := s[|s|-1];
    assert Inc(s)[|s|-1] != last by { OctetDiffers(last); }
  }

  lemma OctetDiffers(b: bv8)
    ensures b + 1 != b
  {
  }

  /** The last 32 bits of a block as a number. */
  function Low32(b: Block): nat {
    BeNat(b[12..])
  }

  lemma Low32Bound(b: Block)
    ensures Low32(b) < WRAP
    ensures Low32(b) == WRAP - 1 <==> AllOnes(b[12..])
  {
    BeNatBound(b[12..]);
    assert Pow256(4) == WRAP;
  }

  /** The two increments agree exactly when the last 32 bits are not all ones. */
  lemma IncAgrees(b: Block)
    ensures Inc(b) == Inc32(b) <==> Low32(b) != WRAP - 1
  {
    Low32Bound(b);
    assert b == b[..12] + b[12..];
    IncSplit(b[..12], b[12..]);
    IncDiffers(b[..12]);
    if Inc(b) == Inc32(b) {
      assert Inc(b)[..12] == b[..12];
    }
  }

  lemma Inc32Value(b: Block)
    ensures Low32(Inc32(b)) == if Low32(b) == WRAP - 1 then 0 else Low32(b) + 1
    ensures Inc32(b)[..12] == b[..12]
  {
    Low32Bound(b);
    IncValue(b[12..]);
    assert Inc32(b)[12..] == Inc(b[12..]);
  }

  lemma {:induction false} BothCounters(b: Block, n: nat)
    requires n < WRAP
    ensures Low32(Inc32By(b, n)) == if Low32(b) + n < WRAP then Low32(b) + n else Low32(b) + n - WRAP
    ensures Inc32By(b, n)[..12] == b[..12]
    ensures IncBy(b, n)[12..] == Inc32By(b, n)[12..]
    ensures IncBy(b, n)[..12] == if Low32(b) + n < WRAP then b[..12] else Inc(b[..12])
  {
    hide Low32, Inc;
    Low32Bound(b);
    if n > 0 {
      BothCounters(b, n - 1);
      var c, d := IncBy(b, n - 1), Inc32By(b, n - 1);
      Inc32Value(d);
      Low32Bound(d);
      IncSplit(c[..12], c[12..]);
      assert c == c[..12] + c[12..];
    }
  }

  /** After n steps, 0 < n < 2^32, the library's 128-bit counter is the standard's 32-bit one
      exactly when the starting low word leaves room for n. */
  lemma CountersAgree(b: Block, n: nat)
    requires n < WRAP
    ensures IncBy(b, n) == Inc32By(b, n) <==> Low32(b) + n < WRAP
  {
    BothCounters(b, n);
    IncDiffers(b[..12]);
    hide IncBy, Inc32By, Low32;
    var c, d := IncBy(b, n), Inc32By(b, n);
    assert c == c[..12] + c[12..] && d == d[..12] + d[12..];
  }

  /** As long as the low word does not run over, GCTR is plain counter mode. */
  lemma {:induction false} GctrIsCtr(E: BlockFn, b: Block, x: seq<bv8>)
    requires |x| <= 16 * (WRAP - Low32(b))
    ensures Gctr(E, b, x) == CtrBlocks(E, b, x)
    decreases |x|
  {
    if |x| > 16 {
      IncAgrees(b);
      Inc32Value(b);
      GctrIsCtr(E, Inc32(b), x[16..]);
    }
  }
}
