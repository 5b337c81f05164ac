/** The streaming LSH-256 object of the library: updates in bits, whole octets until the last. */
module LshContext {
  import opened Bytes
  import opened Lsh256
  import opened LshHash
  import opened Words

  datatype LshErr = Success | InvalidAlgType | InvalidState | InvalidDataBitLen

  /** The first w octets of d, whole blocks, are compressed into t; the rest of d and n more bits, fewer
      than a block, are in the buffer. */
  ghost predicate Buffered(v: Variant, d: seq<bv8>, w: nat, b: bv8, n: nat, t: Pair, buf: seq<bv8>, remain: nat) {
    && n < 8 && |buf| == 128 && w % 128 == 0 && w <= |d| < w + 128
    && remain == 8 * (|d| - w) + n
    && t == Blocks(v.iv, d[..w], v.sc)
    && buf[..|d|-w] == d[w..]
    && (n > 0 ==> buf[|d|-w] == Leading(b, n))
  }

  /** What the end of a hash writes stays in a buffer of n octets when the digest goes to position at. */
  predicate Fits(t: AlgType, at: nat, n: nat) {
    Unused(t) < 8 && at + Len(t) <= n && (Len(t) == 0 && Unused(t) > 0 ==> at > 0)
  }

  /** The buffer afterwards. With no octets in the digest the mask for its last one meets the octet before. */
  function Delivered(out: seq<bv8>, at: nat, t: AlgType, digest: seq<bv8>): seq<bv8>
    requires Fits(t, at, |out|)
  {
    if Len(t) > 0 then out[..at] + digest + out[at+Len(t)..]
    else if Unused(t) > 0 then out[..at-1] + [Leading(out[at-1], 8 - Unused(t))] + out[at..]
    else out
  }

  class LshObject {
    const sc: StepConstants
    var algtype: AlgType
    const cvL: array<bv32>
    const cvR: array<bv32>
    const lastBlock: array<bv8>
    var remain: nat
    /** The chaining value at the start, and what has been hashed since: octets, how many of them are
        compressed, and the bits of a last one. */
    ghost var first: Pair
    ghost var data: seq<bv8>
    ghost var whole: nat
    ghost var last: bv8
    ghost var bits: nat

    ghost predicate Shape() {
      && cvL.Length == cvR.Length == 8 && lastBlock.Length == 128
      && cvL != cvR && cvL as object != lastBlock && cvR as object != lastBlock
    }

    ghost function Chain(): Pair
      requires Shape()
      reads cvL, cvR
    {
      Pair(cvL[..], cvR[..])
    }

    ghost function Kind(): Variant
      reads this
    {
      Variant(sc, first, Len(algtype), Unused(algtype))
    }

    /** Data are taken. That is so after every initialisation that succeeds, and after one that fails when the
        type is not among those turned down; then the chaining value is what was there before. */
    ghost predicate Valid()
      reads this, cvL, cvR, lastBlock
    {
      && Shape() && !Refused(algtype)
      && Buffered(Kind(), data, whole, last, bits, Chain(), lastBlock[..], remain)
    }

    ghost predicate Refusing()
      reads this
    {
      Shape() && Refused(algtype)
    }

    /** As new, and after the end. */
    ghost predicate Cleared()
      reads this, cvL, cvR
    {
      Shape() && algtype == 0 && Chain() == NOTHING
    }

    constructor (sc: StepConstants)
      ensures this.sc == sc && Cleared() && fresh(cvL) && fresh(cvR) && fresh(lastBlock)
    {
      this.sc := sc;
      cvL := new bv32[8](_ => 0);
      cvR := new bv32[8](_ => 0);
      lastBlock := new bv8[128](_ => 0);
      algtype, remain := 0, 0;
    }

    /** lsh256_init. The type stays in the object also when it is not supported. */
    method Init(t: AlgType) returns (err: LshErr)
      requires Shape()
      modifies this, cvL, cvR
      ensures err == (if Supported(t) then Success else InvalidAlgType) && algtype == t
      ensures Refused(t) ==> Refusing()
      ensures !Refused(t) ==> Valid() && data == [] && bits == 0
      ensures first == if Supported(t) then InitialValue(sc, t) else old(Chain())
    {
      hide Stirred, Seed;
      algtype := t;
      remain := 0;
      data, whole, bits, first := [], 0, 0, Chain();
      assert lastBlock[..0] == [];
      if !IsLsh256(t) || Len(t) > 32 || Len(t) == 0 {
        return InvalidAlgType;
      }
      if t == TYPE_256 {
        SetChain(IV_256);
      } else if t == TYPE_224 {
        SetChain(IV_224);
      } else {
        SetChain(NOTHING);
        cvL[0] := 32;
        cvL[1] := LenBits(t);
        assert Chain() == Seed(t) by { SeedWords(cvL[..], t); }
        Stir();
      }
      first := Chain();
      return Success;
    }

    method SetChain(p: Pair)
      requires Shape()
      modifies cvL, cvR
      ensures Chain() == p
    {
      forall i | 0 <= i < 8 {
        cvL[i] := p.l[i];
      }
      forall i | 0 <= i < 8 {
        cvR[i] := p.r[i];
      }
      assert cvL[..] == p.l && cvR[..] == p.r;
    }

    /** All steps, two at a time, on the chaining value alone. */
    method Stir()
      requires Shape()
      modifies cvL, cvR
      ensures Chain() == Stirred(old(Chain()), sc, NUM_STEPS)
    {
      hide Mix, WordPerm;
      var i := 0;
      while i < NUM_STEPS / 2
        invariant 0 <= i <= NUM_STEPS / 2 && Chain() == Stirred(old(Chain()), sc, 2 * i)
      {
        MixInPlace(cvL, cvR, sc[2*i], Alpha(2 * i), Beta(2 * i));
        WordPermInPlace(cvL, cvR);
        MixInPlace(cvL, cvR, sc[2*i+1], Alpha(2 * i + 1), Beta(2 * i + 1));
        WordPermInPlace(cvL, cvR);
        i := i + 1;
      }
    }

    /** lsh256_update: n bits of x. */
    method Update(x: seq<bv8>, n: nat) returns (err: LshErr)
      requires (Valid() || Refusing()) && n <= 8 * |x|
      modifies `remain, `data, `whole, `last, `bits, cvL, cvR, lastBlock
      ensures err == if n == 0 then Success else if old(Refusing()) then InvalidState
        else if old(bits) > 0 then InvalidDataBitLen else Success
      ensures n == 0 || err != Success ==> unchanged(this, cvL, cvR, lastBlock)
      ensures n > 0 && err == Success ==>
        && Valid() && data == old(data) + x[..n/8] && bits == n % 8
        && (n % 8 > 0 ==> last == x[n/8])
    {
      hide Blocks;
      if n == 0 {
        return Success;
      }
      if algtype == 0 || Len(algtype) > 32 {
        return InvalidState;
      }
      if remain % 8 > 0 {
        return InvalidDataBitLen;
      }
      if n / 8 + remain / 8 < 128 {
        Keep(x, n, n / 8, n % 8);
        return Success;
      }
      var pos := FillBlock(x, n / 8);
      pos := WholeBlocks(x, n / 8, pos);
      Rest(x, n, pos);
      return Success;
    }

    method Copy(to: nat, x: seq<bv8>)
      requires Shape() && to + |x| <= 128
      modifies lastBlock
      ensures lastBlock[..] == old(lastBlock[..to]) + x + old(lastBlock[to+|x|..])
    {
      forall i | 0 <= i < |x| {
        lastBlock[to+i] := x[i];
      }
    }

    /** The data, k octets and p bits of another, stay below a block. */
    method Keep(x: seq<bv8>, n: nat, k: nat, p: nat)
      requires Valid() && bits == 0 && k <= |x| && p < 8 && (p > 0 ==> k < |x|) && n == 8 * k + p
      requires k + remain / 8 < 128
      modifies `remain, `data, `whole, `last, `bits, lastBlock
      ensures Valid() && data == old(data) + x[..k] && bits == p && (p > 0 ==> last == x[k])
    {
      hide Blocks, Leading, Refused;
      ghost var buf, was := lastBlock[..], remain;
      var r := remain / 8;
      assert r == |data| - whole;
      Copy(r, x[..k]);
      remain := remain + n;
      if p > 0 {
        lastBlock[r+k] := Leading(x[k], p);
        last := x[k];
      }
      KeepStep(Kind(), data, whole, Chain(), buf, was, x[..k], p, last, lastBlock[..]);
      hide Buffered;
      data, bits := data + x[..k], p;
    }

    /** The part of the data that completes the buffer, if there is anything in it. */
    method FillBlock(x: seq<bv8>, k: nat) returns (pos: nat)
      requires Valid() && bits == 0 && k <= |x| && k + remain / 8 >= 128
      modifies `remain, `data, `whole, `last, `bits, cvL, cvR, lastBlock
      ensures pos <= k && Shape() && !Refused(algtype) && remain == 0
      ensures data == old(data) + x[..pos] && whole == |data| && whole % 128 == 0
      ensures Chain() == Blocks(first, data, sc)
    {
      hide Blocks, Compress;
      pos := 0;
      var r := remain / 8;
      if r > 0 {
        pos := 128 - r;
        Copy(r, x[..pos]);
        assert lastBlock[..] == data[whole..] + x[..pos];
        BlocksSnoc(first, data[..whole], lastBlock[..], sc);
        CompressInPlace(cvL, cvR, lastBlock[..], sc);
        data := data + x[..pos];
        assert data == old(data)[..whole] + (old(data)[whole..] + x[..pos]);
        whole := whole + 128;
        remain := 0;
      } else {
        assert data[..whole] == data && x[..0] == [];
      }
    }

    method WholeBlocks(x: seq<bv8>, k: nat, start: nat) returns (pos: nat)
      requires Shape() && !Refused(algtype) && start <= k <= |x| && remain == 0
      requires whole == |data| && whole % 128 == 0 && Chain() == Blocks(first, data, sc)
      modifies `remain, `data, `whole, cvL, cvR
      ensures start <= pos <= k < pos + 128 && remain == 0
      ensures data == old(data) + x[start..pos] && whole == |data| && whole % 128 == 0
      ensures Chain() == Blocks(first, data, sc)
    {
      hide Blocks, Compress;
      pos := start;
      while pos + 128 <= k
        invariant start <= pos <= k && remain == 0
        invariant data == old(data) + x[start..pos] && whole == |data| && whole % 128 == 0
        invariant Chain() == Blocks(first, data, sc)
      {
        var block := x[pos..pos+128];
        BlocksSnoc(first, data, block, sc);
        CompressInPlace(cvL, cvR, block, sc);
        data, whole := data + block, whole + 128;
        assert x[start..pos+128] == x[start..pos] + block;
        pos := pos + 128;
      }
    }

    /** What is left of the data goes into the empty buffer. */
    method Rest(x: seq<bv8>, n: nat, pos: nat)
      requires Shape() && !Refused(algtype) && n <= 8 * |x| && pos <= n / 8 < pos + 128 && remain == 0
      requires whole == |data| && whole % 128 == 0 && Chain() == Blocks(first, data, sc)
      modifies `remain, `data, `whole, `last, `bits, lastBlock
      ensures Valid() && data == old(data) + x[pos..n/8] && bits == n % 8
      ensures n % 8 > 0 ==> last == x[n/8]
    {
      hide Blocks, Leading;
      var k := n / 8;
      if k > pos {
        Copy(0, x[pos..k]);
        remain := 8 * (k - pos);
      }
      if n % 8 > 0 {
        lastBlock[k-pos] := Leading(x[k], n % 8);
        remain := remain + n % 8;
        last := x[k];
      }
      data, bits := data + x[pos..k], n % 8;
      assert data[..whole] == old(data);
    }

    /** lsh256_final, the digest going to out from at on. A type without digest octets but with unused bits takes
        these from the octet before. */
    method Final(out: array<bv8>, at: nat) returns (err: LshErr)
      requires Valid() || Refusing()
      requires Valid() ==> Fits(algtype, at, out.Length)
      requires out != lastBlock && out as object != cvL && out as object != cvR
      modifies this, cvL, cvR, lastBlock, out
      ensures old(Refusing()) ==> err == InvalidState && unchanged(this, cvL, cvR, lastBlock, out)
      ensures old(Valid()) ==> err == Success && Cleared() && out[..] == old(Delivered(out[..], at, algtype,
        if Len(algtype) > 0 then Hash(Kind(), data, last, bits) else []))
    {
      hide Buffered, Hash, Delivered;
      if algtype == 0 || Len(algtype) > 32 {
        return InvalidState;
      }
      Digest(out, at);
      SetChain(NOTHING);
      forall i | 0 <= i < 128 {
        lastBlock[i] := 0;
      }
      algtype, remain := 0, 0;
      err := Success;
    }

    method Digest(out: array<bv8>, at: nat)
      requires Valid() && Fits(algtype, at, out.Length)
      requires out != lastBlock && out as object != cvL && out as object != cvR
      modifies cvL, cvR, lastBlock, out
      ensures out[..] == Delivered(old(out[..]), at, algtype,
        if Len(algtype) > 0 then Hash(Kind(), data, last, bits) else [])
    {
      assert Len(algtype) > 0 ==> IsVariant(Kind());
      hide Refused, Buffered, Hash, StoreHalf, Truncated, Leading, Delivered;
      Finish();
      GetHash(out, at);
    }

    /** The last compression, and both halves combined in the left one. */
    method Finish()
      requires Valid()
      modifies cvL, cvR, lastBlock
      ensures IsVariant(Kind()) ==> Truncated(StoreHalf(cvL[..]), Kind()) == Hash(Kind(), data, last, bits)
    {
      assert bits < 8;
      hide Blocks, Compress, Padded, Buffered, XorHalf, StoreHalf, Truncated;
      PaddedLength(data, last, bits);
      PadBlock();
      CompressInPlace(cvL, cvR, lastBlock[..], sc);
      Fin();
    }

    /** get_hash: the octets of the digest are copied, then the unused bits of the last one are cleared. */
    method GetHash(out: array<bv8>, at: nat)
      requires Shape() && !Refused(algtype) && Fits(algtype, at, out.Length)
      requires out != lastBlock && out as object != cvL && out as object != cvR
      modifies out
      ensures out[..] == Delivered(old(out[..]), at, algtype,
        if Len(algtype) > 0 then Truncated(StoreHalf(cvL[..]), Kind()) else [])
    {
      hide StoreHalf, Leading, Delivered, Truncated;
      var h, len := StoreHalf(cvL[..]), Len(algtype);
      ghost var was := out[..];
      forall i | 0 <= i < len {
        out[at+i] := h[i];
      }
      ghost var c := was[..at] + h[..len] + was[at+len..];
      assert out[..] == c && cvL[..] == old(cvL[..]);
      CutDigest(was, at, Kind(), algtype, h);
      if Unused(algtype) > 0 {
        out[at+len-1] := Leading(out[at+len-1], 8 - Unused(algtype));
        assert out[..] == c[at+len-1 := Leading(c[at+len-1], 8 - Unused(algtype))];
      }
    }

    /** The end mark and the zeros after it complete the last block of the padded data. */
    method PadBlock()
      requires Valid()
      modifies lastBlock
      ensures |Padded(data, last, bits)| % 128 == 0
      ensures Compress(Chain(), lastBlock[..], sc) == Blocks(first, Padded(data, last, bits), sc)
    {
      ghost var r, n, buf := |data| - whole, bits, lastBlock[..];
      assert remain / 8 == r && remain % 8 == n;
      Mark(remain / 8, remain % 8, last);
      LastBlock(Kind(), data, whole, last, bits, Chain(), buf, remain, lastBlock[..]);
      hide Blocks, Compress, Padded, Marked, Leading;
    }

    method Mark(r: nat, n: nat, ghost b: bv8)
      requires Shape() && r < 128 && n < 8
      requires n > 0 ==> lastBlock[r] == Leading(b, n)
      modifies lastBlock
      ensures lastBlock[..] == old(lastBlock[..r]) + [Marked(b, n)] + Zeros(127 - r)
    {
      NoBits(b);
      hide Leading, MarkBit;
      if n > 0 {
        lastBlock[r] := lastBlock[r] | MarkBit(n);
      } else {
        lastBlock[r] := 0x80;
      }
      assert lastBlock[r] == Marked(b, n);
      hide Marked;
      forall i | r < i < 128 {
        lastBlock[i] := 0;
      }
    }

    method Fin()
      requires Shape()
      modifies cvL
      ensures cvL[..] == XorHalf(old(cvL[..]), cvR[..])
    {
      hide XorWord;
      for i := 0 to 8
        invariant forall k | 0 <= k < i :: cvL[k] == XorWord(old(cvL[k]), cvR[k])
        invariant forall k | i <= k < 8 :: cvL[k] == old(cvL[k])
        invariant cvR[..] == old(cvR[..])
      {
        cvL[i] := XorWord(cvL[i], cvR[i]);
      }
    }
  }

  /** Copying the digest octets and masking the last octet before their end, all of it at once. */
  lemma CutDigest(out: seq<bv8>, at: nat, v: Variant, t: AlgType, h: seq<bv8>)
    requires |h| == 32 && v.len == Len(t) <= 32 && v.unused == Unused(t) && Fits(t, at, |out|)
    ensures var c := out[..at] + h[..v.len] + out[at+v.len..];
      Delivered(out, at, t, if v.len > 0 then Truncated(h, v) else [])
        == if v.unused > 0 then c[at+v.len-1 := Leading(c[at+v.len-1], 8 - v.unused)] else c
  {
    hide Leading, Len, Unused;
    if v.unused > 0 && v.len > 0 {
      CutSome(out, at, h, v.len, 8 - v.unused);
    } else if v.unused > 0 {
      CutNone(out, at, Leading(out[at-1], 8 - v.unused));
      assert h[..0] == [] && out[..at][at-1] == out[at-1];
    }
  }

  lemma CutSome(out: seq<bv8>, at: nat, h: seq<bv8>, len: nat, keep: nat)
    requires |h| == 32 && 0 < len <= 32 && at + len <= |out| && keep < 8
    ensures var c := out[..at] + h[..len] + out[at+len..];
      out[..at] + (h[..len-1] + [Leading(h[len-1], keep)]) + out[at+len..]
        == c[at+len-1 := Leading(c[at+len-1], keep)]
  {
    hide Leading;
    assert h[..len] == h[..len-1] + [h[len-1]];
  }

  lemma CutNone(out: seq<bv8>, at: nat, mask: bv8)
    requires 0 < at <= |out|
    ensures out[..at-1] + [mask] + out[at..] == (out[..at] + [] + out[at..])[at-1 := mask]
  {
  }

  lemma SeedWords(l: Half, t: AlgType)
    requires l == ZERO_HALF[0 := 32][1 := LenBits(t)]
    ensures Pair(l, ZERO_HALF) == Seed(t)
  {
  }

  lemma KeepStep(v: Variant, d: seq<bv8>, w: nat, t: Pair, buf: seq<bv8>, remain: nat, x: seq<bv8>, p: nat, b: bv8,
                 buf': seq<bv8>)
    requires Buffered(v, d, w, b, 0, t, buf, remain) && p < 8 && |d| - w + |x| < 128
    requires var r := |d| - w;
      var c := buf[..r] + x + buf[r+|x|..];
      buf' == if p > 0 then c[r+|x| := Leading(b, p)] else c
    ensures Buffered(v, d + x, w, b, p, t, buf', remain + 8 * |x| + p)
  {
    hide Blocks, Leading;
    assert (d + x)[..w] == d[..w];
    assert (d + x)[w..] == d[w..] + x;
  }

  lemma NoBits(b: bv8)
    ensures Marked(b, 0) == 0x80
  {
  }

  lemma LastBlock(v: Variant, d: seq<bv8>, w: nat, b: bv8, n: nat, t: Pair, buf: seq<bv8>, remain: nat, block: seq<bv8>)
    requires Buffered(v, d, w, b, n, t, buf, remain)
    requires block == buf[..|d|-w] + [Marked(b, n)] + Zeros(127 - (|d| - w))
    ensures |Padded(d, b, n)| % 128 == 0
    ensures Compress(t, block, v.sc) == Blocks(v.iv, Padded(d, b, n), v.sc)
  {
    hide Blocks, Compress, Marked, Leading, Padded;
    PaddedLength(d, b, n);
    PaddedBlock(d, w, b, n, block);
    BlocksSnoc(v.iv, d[..w], block, v.sc);
  }

  lemma PaddedBlock(d: seq<bv8>, w: nat, b: bv8, n: nat, block: seq<bv8>)
    requires n < 8 && w % 128 == 0 && w <= |d| < w + 128
    requires block == d[w..] + [Marked(b, n)] + Zeros(127 - (|d| - w))
    ensures Padded(d, b, n) == d[..w] + block
  {
    hide Marked;
    assert |d| % 128 == |d| - w;
    assert d == d[..w] + d[w..];
  }
}
