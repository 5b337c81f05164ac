/** Counter mode: the octet formula, its algebra, the block definition of section 6.5 of
    NIST SP 800-38A, and the batched loop of the library. */
module Ctr {
  import opened Bytes
  import opened Counter

  /** Octet j of the key stream that starts at counter block b. */
  function KeyOctet(E: BlockFn, b: Block, j: nat): bv8 {
    E(IncBy(b, j / 16))[j % 16]
  }

  /** x under the key stream from octet position off on. */
  function CtrAt(E: BlockFn, b: Block, x: seq<bv8>, off: nat): (y: seq<bv8>)
    ensures |y| == |x|
  {
    seq(|x|, j requires 0 <= j < |x| => XorOctet(x[j], KeyOctet(E, b, off + j)))
  }

  /** Section 6.5 of NIST SP 800-38A: one counter block after the other, the last one truncated. */
  function CtrBlocks(E: BlockFn, b: Block, x: seq<bv8>): seq<bv8>
    decreases |x|
  {
    if |x| <= 16 then Xor(x, E(b)[..|x|])
    else Xor(x[..16], E(b)) + CtrBlocks(E, Inc(b), x[16..])
  }

  lemma CtrConcat(E: BlockFn, b: Block, x: seq<bv8>, y: seq<bv8>, off: nat)
    ensures CtrAt(E, b, x + y, off) == CtrAt(E, b, x, off) + CtrAt(E, b, y, off + |x|)
  {
  }

  /** Encrypting twice at the same position gives back the text, whatever the block function is. */
  lemma CtrInverse(E: BlockFn, b: Block, x: seq<bv8>, off: nat)
    ensures CtrAt(E, b, CtrAt(E, b, x, off), off) == x
  {
    hide KeyOctet;
    forall j | 0 <= j < |x| ensures CtrAt(E, b, CtrAt(E, b, x, off), off)[j] == x[j] {
      XorOctetTwice(x[j], KeyOctet(E, b, off + j));
    }
  }

  lemma XorOctetTwice(a: bv8, k: bv8)
    ensures XorOctet(XorOctet(a, k), k) == a
  {
  }

  lemma OctetPosition(n: nat, j: nat)
    ensures (16 * n + j) / 16 == n + j / 16
    ensures (16 * n + j) % 16 == j % 16
  {
  }

  lemma KeyShift(E: BlockFn, b: Block, n: nat, j: nat)
    ensures KeyOctet(E, IncBy(b, n), j) == KeyOctet(E, b, 16 * n + j)
  {
    hide IncBy;
    IncByAdd(b, n, j / 16);
    OctetPosition(n, j);
  }

  /** Starting n blocks later is the same as starting 16n octets further on. */
  lemma CtrShift(E: BlockFn, b: Block, x: seq<bv8>, n: nat, off: nat)
    ensures CtrAt(E, IncBy(b, n), x, off) == CtrAt(E, b, x, 16 * n + off)
  {
    hide XorOctet, IncBy, KeyOctet;
    forall j | 0 <= j < |x|
      ensures CtrAt(E, IncBy(b, n), x, off)[j] == CtrAt(E, b, x, 16 * n + off)[j]
    {
      KeyShift(E, b, n, off + j);
    }
  }

  lemma KeyInBlock(E: BlockFn, b: Block, n: nat, j: nat)
    requires j < 16
    ensures KeyOctet(E, b, 16 * n + j) == E(IncBy(b, n))[j]
  {
    InBlock(n, j);
    hide IncBy;
  }

  lemma InBlock(n: nat, j: nat)
    requires j < 16
    ensures (16 * n + j) / 16 == n && (16 * n + j) % 16 == j
  {
  }

  /** Within one block the key stream is the encrypted counter. */
  lemma CtrBlock(E: BlockFn, b: Block, x: seq<bv8>, n: nat)
    requires |x| <= 16
    ensures CtrAt(E, b, x, 16 * n) == Xor(x, E(IncBy(b, n))[..|x|])
  {
    hide XorOctet, IncBy, KeyOctet;
    forall j | 0 <= j < |x| ensures CtrAt(E, b, x, 16 * n)[j] == XorOctet(x[j], E(IncBy(b, n))[j]) {
      KeyInBlock(E, b, n, j);
    }
  }

  lemma FirstBlock(E: BlockFn, b: Block, x: seq<bv8>)
    requires |x| <= 16
    ensures CtrAt(E, b, x, 0) == Xor(x, E(b)[..|x|])
  {
    CtrBlock(E, b, x, 0);
  }

  lemma {:induction false} CtrIsCtrBlocks(E: BlockFn, b: Block, x: seq<bv8>)
    ensures CtrAt(E, b, x, 0) == CtrBlocks(E, b, x)
    decreases |x|
  {
    hide CtrAt;
    if |x| <= 16 {
      FirstBlock(E, b, x);
    } else {
      CtrIsCtrBlocks(E, Inc(b), x[16..]);
      FirstBlock(E, b, x[..16]);
      CtrConcat(E, b, x[..16], x[16..], 0);
      assert x == x[..16] + x[16..] && E(b)[..16] == E(b);
      assert IncBy(b, 1) == Inc(b);
      CtrShift(E, b, x[16..], 1, 0);
    }
  }

  // ----- the library's loop -----

  /** n blocks at octet position pos: gather n counters, encrypt them, combine with the text. */
  method CtrChunk(E: BlockFn, ct: array<bv8>, pt: array<bv8>, pos: nat, n: nat, ctr: array<bv8>)
    requires ctr.Length == 16 && ct != ctr && pt != ctr
    requires pos + 16 * n <= ct.Length && pos + 16 * n <= pt.Length
    modifies ct, ctr
    ensures ctr[..] == IncBy(old(ctr[..]), n)
    ensures ct[pos..pos+16*n] == CtrAt(E, old(ctr[..]), old(pt[pos..pos+16*n]), 0)
    ensures ct[..pos] == old(ct[..pos]) && ct[pos+16*n..] == old(ct[pos+16*n..])
  {
    var block: seq<bv8> := [];
    var i := 0;
    ghost var b := ctr[..];
    while i < n
      invariant 0 <= i <= n && |block| == 16 * i
      invariant ctr[..] == IncBy(b, i)
      invariant forall j | 0 <= j < 16 * i :: block[j] == KeyOctet(E, b, j)
      invariant ct[..] == old(ct[..]) && pt[..] == old(pt[..])
    {
      ghost var before := block;
      block := block + E(ctr[..]);
      Ctr128Inc(ctr);
      forall j | 16 * i <= j < 16 * (i + 1) ensures block[j] == KeyOctet(E, b, j) {
        OctetPosition(i, j - 16 * i);
      }
      i := i + 1;
    }
    forall j | pos <= j < pos + 16 * n {
      ct[j] := XorOctet(pt[j], block[j-pos]);
    }
  }

  /** pos octets of the text p (in a buffer now holding t) are done: c holds their image, the
      counter has advanced by the blocks among them, and nothing else changed. */
  ghost predicate Progress(E: BlockFn, b: Block, p: seq<bv8>, c0: seq<bv8>,
                           c: seq<bv8>, t: seq<bv8>, ctr: Block, pos: nat)
  {
    && |p| <= |c| == |c0| && |p| <= |t| && pos <= |p| && pos % 16 == 0
    && ctr == IncBy(b, pos / 16)
    && c[..pos] == CtrAt(E, b, p[..pos], 0)
    && c[pos..] == c0[pos..]
    && t[pos..|p|] == p[pos..]
  }

  /** Encrypting the next m octets at the current counter extends the encrypted prefix. */
  lemma PrefixExtends(E: BlockFn, b: Block, p: seq<bv8>, c0: seq<bv8>, c: seq<bv8>, t: seq<bv8>, ctr: Block,
                      pos: nat, m: nat, c': seq<bv8>)
    requires Progress(E, b, p, c0, c, t, ctr, pos) && pos + m <= |p| && |c'| == |c|
    requires c'[pos..pos+m] == CtrAt(E, ctr, t[pos..pos+m], 0)
    requires c'[..pos] == c[..pos]
    ensures c'[..pos+m] == CtrAt(E, b, p[..pos+m], 0)
  {
    hide IncBy, CtrAt;
    CtrShift(E, b, p[pos..pos+m], pos / 16, 0);
    CtrConcat(E, b, p[..pos], p[pos..pos+m], 0);
    assert p[..pos] + p[pos..pos+m] == p[..pos+m];
    assert t[pos..pos+m] == t[pos..|p|][..m] == p[pos..][..m] == p[pos..pos+m];
    assert c'[..pos+m] == c'[..pos] + c'[pos..pos+m];
  }

  lemma ChunkProgress(E: BlockFn, b: Block, p: seq<bv8>, c0: seq<bv8>, c: seq<bv8>, t: seq<bv8>, ctr: Block,
                      pos: nat, n: nat, c': seq<bv8>, t': seq<bv8>)
    requires Progress(E, b, p, c0, c, t, ctr, pos) && pos + 16 * n <= |p| && |c'| == |c| && |t'| == |t|
    requires c'[pos..pos+16*n] == CtrAt(E, ctr, t[pos..pos+16*n], 0)
    requires c'[..pos] == c[..pos] && c'[pos+16*n..] == c[pos+16*n..] && t'[pos+16*n..] == t[pos+16*n..]
    ensures Progress(E, b, p, c0, c', t', IncBy(ctr, n), pos + 16 * n)
  {
    hide IncBy, CtrAt;
    PrefixExtends(E, b, p, c0, c, t, ctr, pos, 16 * n, c');
    IncByAdd(b, pos / 16, n);
    var q := pos + 16 * n;
    assert c[q..] == c[pos..][16*n..] == c0[pos..][16*n..] == c0[q..];
    assert t'[q..|p|] == t'[q..][..|p|-q] == t[q..][..|p|-q] == t[pos..|p|][16*n..] == p[q..];
  }

  lemma Slices(s: seq<bv8>, t: seq<bv8>, off: nat, i: nat, j: nat)
    requires i <= j && off + j <= |s| == |t|
    ensures s[off..][i..j] == s[off+i..off+j]
    ensures s[..off+i] == t[..off+i] ==> s[..off] == t[..off] && s[off..][..i] == t[off..][..i]
    ensures s[off+j..] == t[off+j..] ==> s[off..][j..] == t[off..][j..]
  {
    if s[..off+i] == t[..off+i] {
      assert s[..off] == s[..off+i][..off] && s[off..][..i] == s[..off+i][off..];
      assert t[..off] == t[..off+i][..off] && t[off..][..i] == t[..off+i][off..];
    }
    if s[off+j..] == t[off+j..] {
      assert s[off..][j..] == s[off+j..] && t[off..][j..] == t[off+j..];
    }
  }

  /** ctr_enc, in place or not, with both pointers off octets into their buffers, for a build with maxBlk
      blocks per cipher call. */
  method CtrEnc(E: BlockFn, ct: array<bv8>, pt: array<bv8>, off: nat, len: nat, ctr: array<bv8>, maxBlk: nat)
    requires ctr.Length == 16 && ct != ctr && pt != ctr
    requires off + len <= ct.Length && off + len <= pt.Length
    modifies ct, ctr
    ensures ct[off..off+len] == CtrAt(E, old(ctr[..]), old(pt[off..off+len]), 0)
    ensures ct[..off] == old(ct[..off]) && ct[off+len..] == old(ct[off+len..])
    ensures ctr[..] == IncBy(old(ctr[..]), len / 16)
  {
    hide CtrAt, IncBy, Progress;
    ghost var b: Block, p, c0 := ctr[..], pt[off..off+len], ct[off..];
    var pos := 0;
    StartProgress(E, b, p, ct[off..], pt[off..]);
    if maxBlk >= 8 {
      pos := CtrChunks(E, ct, pt, off, len, pos, 8, ctr, b, p, c0);
    }
    if maxBlk >= 4 {
      pos := CtrChunks(E, ct, pt, off, len, pos, 4, ctr, b, p, c0);
    }
    pos := CtrChunks(E, ct, pt, off, len, pos, 1, ctr, b, p, c0);
    ghost var c, t, before := ct[off..], pt[off..], ct[..];
    ghost var text := pt[..];
    ProgressParts(E, b, p, c0, c, t, ctr[..], pos);
    CtrTail(E, ct, pt, off + pos, off + len, ctr);
    Slices(ct[..], before, off, pos, len);
    Slices(text, text, off, pos, len);
    PrefixExtends(E, b, p, c0, c, t, ctr[..], pos, len - pos, ct[off..]);
    AllDone(ct[..], old(ct[..]), before, off, pos, len);
    OctetPosition(pos / 16, len - pos);
    assert p[..len] == p;
  }

  lemma ProgressParts(E: BlockFn, b: Block, p: seq<bv8>, c0: seq<bv8>, c: seq<bv8>, t: seq<bv8>, ctr: Block, pos: nat)
    requires Progress(E, b, p, c0, c, t, ctr, pos)
    ensures pos <= |p| <= |t| && |p| <= |c| == |c0| && pos % 16 == 0 && ctr == IncBy(b, pos / 16)
    ensures c[pos..] == c0[pos..] && t[pos..|p|] == p[pos..]
  {
  }

  lemma AllDone(c: seq<bv8>, c0: seq<bv8>, before: seq<bv8>, off: nat, pos: nat, len: nat)
    requires pos <= len && off + len <= |c| == |c0| == |before|
    requires before[off..][pos..] == c0[off..][pos..] && c[off+len..] == before[off+len..]
    ensures c[off+len..] == c0[off+len..] && c[off..][..len] == c[off..off+len]
  {
    assert c0[off+len..] == c0[off..][pos..][len-pos..];
    assert before[off+len..] == before[off..][pos..][len-pos..];
  }

  lemma StartProgress(E: BlockFn, b: Block, p: seq<bv8>, c: seq<bv8>, t: seq<bv8>)
    requires |p| <= |c| && p <= t
    ensures Progress(E, b, p, c, c, t, b, 0)
  {
  }

  /** The partial last block: the counter stays. */
  method CtrTail(E: BlockFn, ct: array<bv8>, pt: array<bv8>, pos: nat, len: nat, ctr: array<bv8>)
    requires ctr.Length == 16 && ct != ctr
    requires pos <= len < pos + 16 && len <= ct.Length && len <= pt.Length
    modifies ct
    ensures ct[pos..len] == CtrAt(E, ctr[..], old(pt[pos..len]), 0)
    ensures ct[..pos] == old(ct[..pos]) && ct[len..] == old(ct[len..])
  {
    ghost var k := ctr[..];
    FirstBlock(E, k, pt[pos..len]);
    hide CtrAt, XorOctet;
    var block := E(ctr[..]);
    forall i | pos <= i < len {
      ct[i] := XorOctet(pt[i], block[i-pos]);
    }
    assert ct[pos..len] == Xor(old(pt[pos..len]), block[..len-pos]) && ctr[..] == k;
  }

  /** The loop over chunks of n blocks while at least n whole blocks remain. */
  method CtrChunks(E: BlockFn, ct: array<bv8>, pt: array<bv8>, off: nat, len: nat, start: nat, n: nat,
                   ctr: array<bv8>, ghost b: Block, ghost p: seq<bv8>, ghost c0: seq<bv8>) returns (pos: nat)
    requires ctr.Length == 16 && ct != ctr && pt != ctr && n > 0
    requires len == |p| && off + len <= ct.Length && off + len <= pt.Length
    requires Progress(E, b, p, c0, ct[off..], pt[off..], ctr[..], start)
    modifies ct, ctr
    ensures Progress(E, b, p, c0, ct[off..], pt[off..], ctr[..], pos)
    ensures ct[..off] == old(ct[..off])
    ensures start <= pos && len < pos + 16 * n
  {
    hide CtrAt, IncBy;
    pos := start;
    while pos + 16 * n <= len
      invariant start <= pos && ct[..off] == old(ct[..off])
      invariant Progress(E, b, p, c0, ct[off..], pt[off..], ctr[..], pos)
    {
      ghost var c, t, k := ct[..], pt[..], ctr[..];
      CtrChunk(E, ct, pt, off + pos, n, ctr);
      Slices(ct[..], c, off, pos, pos + 16 * n);
      Slices(pt[..], t, off, pos, pos + 16 * n);
      Slices(t, t, off, pos, pos + 16 * n);
      ChunkProgress(E, b, p, c0, c[off..], t[off..], k, pos, n, ct[off..], pt[off..]);
      pos := pos + 16 * n;
    }
  }
}
