/** The library's loops for ECB, CBC, CFB128 and OFB over caller buffers, separate or shared. */
module ModeLoops {
  import opened Bytes
  import opened Modes

  // ----- loops that run forward -----

  /** The first pos octets of text p (in a buffer now holding t) are done in c, v is the chaining
      value, and nothing else has changed. */
  ghost predicate Forward(m: Mode, k: Cipher, iv: Block, p: seq<bv8>, c0: seq<bv8>,
                          c: seq<bv8>, t: seq<bv8>, v: Block, pos: nat)
  {
    && |p| <= |c| == |c0| && |p| <= |t| && pos <= |p| && pos % 16 == 0
    && c[..pos] == Run(m, k, iv, p[..pos])
    && v == RunValue(m, k, iv, p[..pos])
    && c[pos..] == c0[pos..]
    && t[pos..|p|] == p[pos..]
  }

  lemma ForwardStart(m: Mode, k: Cipher, iv: Block, p: seq<bv8>, c: seq<bv8>, t: seq<bv8>)
    requires |p| <= |c| && p <= t
    ensures Forward(m, k, iv, p, c, c, t, iv, 0)
  {
  }

  /** One more block, when the output buffer differs only there and the rest of the text is intact. */
  lemma ForwardStep(m: Mode, k: Cipher, iv: Block, p: seq<bv8>, c0: seq<bv8>, c: seq<bv8>, t: seq<bv8>,
                    v: Block, pos: nat, c': seq<bv8>, t': seq<bv8>)
    requires Forward(m, k, iv, p, c0, c, t, v, pos) && pos + 16 <= |p| && |c'| == |c| && |t'| == |t|
    requires c'[pos..pos+16] == Out(m, k, v, t[pos..pos+16])
    requires c'[..pos] == c[..pos] && c'[pos+16..] == c[pos+16..] && t'[pos+16..] == t[pos+16..]
    ensures Forward(m, k, iv, p, c0, c', t', Next(m, k, v, t[pos..pos+16]), pos + 16)
  {
    hide Run, RunValue, Out, Next;
    var x, q := t[pos..pos+16], pos + 16;
    assert x == t[pos..|p|][..16] == p[pos..][..16] == p[pos..q];
    RunSnoc(m, k, iv, p[..pos], x);
    assert p[..pos] + x == p[..q];
    assert c'[..q] == c'[..pos] + c'[pos..q];
    assert c'[q..] == c[q..] == c[pos..][16..] == c0[pos..][16..] == c0[q..];
    assert t'[q..|p|] == t'[q..][..|p|-q] == t[q..][..|p|-q] == t[pos..|p|][16..] == p[q..];
  }

  /** Write one block at pos. */
  method Put(a: array<bv8>, pos: nat, x: Block)
    requires pos + 16 <= a.Length
    modifies a
    ensures a[pos..pos+16] == x && a[..pos] == old(a[..pos]) && a[pos+16..] == old(a[pos+16..])
  {
    forall i | 0 <= i < 16 {
      a[pos+i] := x[i];
    }
  }

  /** cbc_enc: nothing happens unless the length is a positive multiple of 16. */
  method CbcEncLoop(k: Cipher, ct: array<bv8>, pt: array<bv8>, len: nat, iv: Block)
    requires len <= ct.Length && len <= pt.Length
    modifies ct
    ensures len % 16 != 0 ==> ct[..] == old(ct[..])
    ensures len % 16 == 0 ==> ct[..] == Run(CbcEnc, k, iv, old(pt[..len])) + old(ct[len..])
  {
    hide Run, RunValue;
    if len == 0 || len % 16 != 0 {
      RunNothing(CbcEnc, k, iv);
      return;
    }
    ghost var p := pt[..len];
    ForwardStart(CbcEnc, k, iv, p, ct[..], pt[..]);
    var pos := 0;
    var v: Block := iv;
    while pos < len
      invariant Forward(CbcEnc, k, iv, p, old(ct[..]), ct[..], pt[..], v, pos)
    {
      ghost var c, t := ct[..], pt[..];
      Put(ct, pos, XorBlock(pt[pos..pos+16], v));
      Put(ct, pos, k.enc(ct[pos..pos+16]));
      ForwardStep(CbcEnc, k, iv, p, old(ct[..]), c, t, v, pos, ct[..], pt[..]);
      v := ct[pos..pos+16];
      pos := pos + 16;
    }
    assert p[..len] == p && ct[..] == ct[..len] + ct[len..];
  }

  lemma RunNothing(m: Mode, k: Cipher, v: Block)
    ensures Run(m, k, v, []) == [] && RunValue(m, k, v, []) == v
  {
  }

  /** ecb_enc and ecb_dec, block by block; nothing happens unless the length is a multiple of 16. */
  method EcbLoop(m: Mode, k: Cipher, ct: array<bv8>, pt: array<bv8>, len: nat)
    requires m == EcbEnc || m == EcbDec
    requires len <= ct.Length && len <= pt.Length
    modifies ct
    ensures len % 16 != 0 ==> ct[..] == old(ct[..])
    ensures len % 16 == 0 ==> ct[..] == Run(m, k, ZERO, old(pt[..len])) + old(ct[len..])
  {
    hide Run, RunValue;
    if len % 16 != 0 {
      return;
    }
    ghost var p := pt[..len];
    ForwardStart(m, k, ZERO, p, ct[..], pt[..]);
    var pos := 0;
    while pos < len
      invariant Forward(m, k, ZERO, p, old(ct[..]), ct[..], pt[..], ZERO, pos)
    {
      ghost var c, t := ct[..], pt[..];
      Put(ct, pos, if m.EcbEnc? then k.enc(pt[pos..pos+16]) else k.dec(pt[pos..pos+16]));
      ForwardStep(m, k, ZERO, p, old(ct[..]), c, t, ZERO, pos, ct[..], pt[..]);
      pos := pos + 16;
    }
    assert p[..len] == p && ct[..] == ct[..len] + ct[len..];
  }

  /** The octets after the whole blocks, combined with the key block. */
  method PutTail(a: array<bv8>, src: array<bv8>, pos: nat, len: nat, key: Block)
    requires pos <= len < pos + 16 && len <= a.Length && len <= src.Length
    modifies a
    ensures a[pos..len] == Xor(old(src[pos..len]), key[..len-pos])
    ensures a[..pos] == old(a[..pos]) && a[len..] == old(a[len..])
  {
    hide XorOctet;
    forall i | pos <= i < len {
      a[i] := XorOctet(src[i], key[i-pos]);
    }
  }

  lemma RunShort(m: Mode, k: Cipher, v: Block, x: seq<bv8>)
    requires |x| < 16
    ensures Run(m, k, v, x) == [] && RunValue(m, k, v, x) == v
  {
  }

  lemma RunShorter(m: Mode, k: Cipher, v: Block, x: seq<bv8>)
    ensures var w := |x| / 16 * 16;
            Run(m, k, v, x[..w]) == Run(m, k, v, x) && RunValue(m, k, v, x[..w]) == RunValue(m, k, v, x)
  {
    hide Run, RunValue;
    var w := |x| / 16 * 16;
    assert x == x[..w] + x[w..];
    RunConcat(m, k, v, x[..w], x[w..]);
    RunShort(m, k, RunValue(m, k, v, x[..w]), x[w..]);
  }

  /** The text after a forward loop and its tail. */
  lemma ForwardDone(m: Mode, k: Cipher, iv: Block, p: seq<bv8>, c0: seq<bv8>, c: seq<bv8>, t: seq<bv8>,
                    v: Block, pos: nat, c': seq<bv8>)
    requires Forward(m, k, iv, p, c0, c, t, v, pos) && |p| < pos + 16 && |c'| == |c|
    requires c'[pos..|p|] == Xor(t[pos..|p|], k.enc(v)[..|p|-pos])
    requires c'[..pos] == c[..pos] && c'[|p|..] == c[|p|..]
    ensures c' == Crypt(m, k, iv, p) + c0[|p|..]
    ensures v == RunValue(m, k, iv, p)
  {
    hide Run, RunValue, XorOctet;
    var n := |p|;
    assert n / 16 * 16 == pos;
    RunShorter(m, k, iv, p);
    BlockTail(p, c0, c, t, pos, c');
  }

  lemma BlockTail(p: seq<bv8>, c0: seq<bv8>, c: seq<bv8>, t: seq<bv8>, pos: nat, c': seq<bv8>)
    requires pos <= |p| <= |c| == |c0| == |c'| && |p| <= |t|
    requires c[pos..] == c0[pos..] && c'[..pos] == c[..pos] && c'[|p|..] == c[|p|..]
    ensures c' == c[..pos] + c'[pos..|p|] + c0[|p|..]
  {
    var n := |p|;
    assert c'[n..] == c[n..] == c[pos..][n-pos..] == c0[pos..][n-pos..] == c0[n..];
    assert c' == c'[..pos] + c'[pos..n] + c'[n..];
  }

  /** cfb128_enc */
  method CfbEncLoop(k: Cipher, ct: array<bv8>, pt: array<bv8>, len: nat, iv: Block)
    requires len <= ct.Length && len <= pt.Length
    modifies ct
    ensures ct[..] == Crypt(CfbEnc, k, iv, old(pt[..len])) + old(ct[len..])
  {
    hide Run, RunValue, Crypt, XorBlock;
    ghost var p := pt[..len];
    ForwardStart(CfbEnc, k, iv, p, ct[..], pt[..]);
    var pos := 0;
    var v: Block := iv;
    while pos + 16 <= len
      invariant Forward(CfbEnc, k, iv, p, old(ct[..]), ct[..], pt[..], v, pos)
    {
      ghost var c, t := ct[..], pt[..];
      var block := k.enc(v);
      Put(ct, pos, XorBlock(pt[pos..pos+16], block));
      ForwardStep(CfbEnc, k, iv, p, old(ct[..]), c, t, v, pos, ct[..], pt[..]);
      v := ct[pos..pos+16];
      pos := pos + 16;
    }
    ghost var c, t := ct[..], pt[..];
    PutTail(ct, pt, pos, len, k.enc(v));
    ForwardDone(CfbEnc, k, iv, p, old(ct[..]), c, t, v, pos, ct[..]);
  }

  /** ofb_enc: the chaining value is kept in the caller's buffer, and moves once more for a tail. */
  method OfbLoop(k: Cipher, ct: array<bv8>, pt: array<bv8>, len: nat, iv: array<bv8>)
    requires len <= ct.Length && len <= pt.Length && iv.Length == 16 && iv != ct && iv != pt
    modifies ct, iv
    ensures ct[..] == Crypt(Ofb, k, old(iv[..]), old(pt[..len])) + old(ct[len..])
    ensures len % 16 == 0 ==> iv[..] == RunValue(Ofb, k, old(iv[..]), old(pt[..len]))
  {
    hide Run, RunValue, Crypt, XorBlock;
    ghost var p := pt[..len];
    ghost var v0: Block := iv[..];
    ForwardStart(Ofb, k, v0, p, ct[..], pt[..]);
    var pos := 0;
    while pos + 16 <= len
      invariant Forward(Ofb, k, v0, p, old(ct[..]), ct[..], pt[..], iv[..], pos)
    {
      ghost var c, t := ct[..], pt[..];
      ghost var v: Block := iv[..];
      Put(iv, 0, k.enc(iv[..]));
      assert iv[..] == k.enc(v);
      Put(ct, pos, XorBlock(pt[pos..pos+16], iv[..]));
      ForwardStep(Ofb, k, v0, p, old(ct[..]), c, t, v, pos, ct[..], pt[..]);
      pos := pos + 16;
    }
    ghost var c, t := ct[..], pt[..];
    ghost var v: Block := iv[..];
    if pos != len {
      Put(iv, 0, k.enc(iv[..]));
      assert iv[..] == k.enc(v);
      PutTail(ct, pt, pos, len, iv[..]);
    }
    ForwardDone(Ofb, k, v0, p, old(ct[..]), c, t, v, pos, ct[..]);
  }

  // ----- loops that run backward, so that the input survives in a shared buffer -----

  /** In CBC and CFB decryption the chaining value is the last ciphertext block. */
  lemma {:induction false} ChainIsLast(m: Mode, k: Cipher, v: Block, x: seq<bv8>)
    requires m == CbcDec || m == CfbDec
    requires |x| % 16 == 0
    ensures RunValue(m, k, v, x) == if x == [] then v else x[|x|-16..]
  {
    if x != [] {
      var head, b := x[..|x|-16], x[|x|-16..];
      RunSnoc(m, k, v, head, b);
      assert x == head + b;
    }
  }

  /** The ciphertext block before block b, or the IV. */
  function Before(iv: Block, x: seq<bv8>, b: nat): Block
    requires 16 * b <= |x|
  {
    if b == 0 then iv else x[16*b-16..16*b]
  }

  /** The textbook formula: a decrypted block needs its own and the preceding ciphertext block only. */
  lemma BlockAt(m: Mode, k: Cipher, iv: Block, x: seq<bv8>, b: nat)
    requires m == CbcDec || m == CfbDec
    requires 16 * b + 16 <= |x|
    ensures 16 * b + 16 <= |Run(m, k, iv, x)|
    ensures Run(m, k, iv, x)[16*b..16*b+16] == Out(m, k, Before(iv, x, b), x[16*b..16*b+16])
  {
    hide Out, Next, Run, RunValue;
    RunAt(m, k, iv, x, b);
    ChainIsLast(m, k, iv, x[..16*b]);
  }

  /** Octets of y from pos on are in place; everything before pos is as it was. */
  ghost predicate Backward(y: seq<bv8>, x: seq<bv8>, c0: seq<bv8>, c: seq<bv8>, t: seq<bv8>, pos: nat)
  {
    && |x| == |y| <= |c| == |c0| && |x| <= |t| && pos <= |x|
    && c[..pos] == c0[..pos]
    && c[pos..|x|] == y[pos..]
    && c[|x|..] == c0[|x|..]
    && t[..pos] == x[..pos]
  }

  lemma BackwardStep(y: seq<bv8>, x: seq<bv8>, c0: seq<bv8>, c: seq<bv8>, t: seq<bv8>, pos: nat,
                     q: nat, c': seq<bv8>, t': seq<bv8>)
    requires Backward(y, x, c0, c, t, pos) && q <= pos && |c'| == |c| && |t'| == |t|
    requires c'[q..pos] == y[q..pos] && c'[..q] == c[..q] && c'[pos..] == c[pos..] && t'[..q] == t[..q]
    ensures Backward(y, x, c0, c', t', q)
  {
    var n := |x|;
    assert c'[q..n] == c'[q..pos] + c'[pos..][..n-pos] == y[q..pos] + c[pos..n] == y[q..];
    assert c'[n..] == c'[pos..][n-pos..] == c[pos..][n-pos..] == c[n..];
    assert c[..q] == c[..pos][..q] == c0[..pos][..q] == c0[..q];
    assert t[..q] == t[..pos][..q] == x[..pos][..q] == x[..q];
  }

  lemma BackwardDone(y: seq<bv8>, x: seq<bv8>, c0: seq<bv8>, c: seq<bv8>, t: seq<bv8>)
    requires Backward(y, x, c0, c, t, 0)
    ensures c == y + c0[|x|..]
  {
    assert c == c[0..|x|] + c[|x|..];
  }

  /** The unread input of a block, read from the buffer. */
  lemma BackwardInput(y: seq<bv8>, x: seq<bv8>, c0: seq<bv8>, c: seq<bv8>, t: seq<bv8>, pos: nat, i: nat, j: nat)
    requires Backward(y, x, c0, c, t, pos) && i <= j <= pos
    ensures t[i..j] == x[i..j]
  {
    assert t[i..j] == t[..pos][i..j];
  }

  lemma BlockOfSum(y: seq<bv8>, z: Block, i: nat, b: nat)
    requires |y| == 16 * i && b <= i
    ensures (y + z)[16*b..16*b+16] == if b < i then y[16*b..16*b+16] else z
  {
  }

  /** A call of the multi-block decryption function on n blocks. */
  method DecryptBlocks(k: Cipher, x: seq<bv8>, n: nat) returns (y: seq<bv8>)
    requires |x| == 16 * n
    ensures |y| == 16 * n
    ensures forall b | 0 <= b < n :: y[16*b..16*b+16] == k.dec(x[16*b..16*b+16])
  {
    y := [];
    var i := 0;
    while i < n
      invariant 0 <= i <= n && |y| == 16 * i
      invariant forall b | 0 <= b < i :: y[16*b..16*b+16] == k.dec(x[16*b..16*b+16])
    {
      var y0 := y;
      var z := k.dec(x[16*i..16*i+16]);
      y := y0 + z;
      forall b | 0 <= b <= i ensures y[16*b..16*b+16] == k.dec(x[16*b..16*b+16]) {
        BlockOfSum(y0, z, i, b);
      }
      i := i + 1;
    }
  }

  /** Octet j of CBC decryption, from the decrypted blocks (in tmp, starting with block f). */
  lemma CbcOctet(k: Cipher, iv: Block, x: seq<bv8>, f: nat, n: nat, tmp: seq<bv8>, b: nat, i: nat)
    requires 0 < f <= b < f + n && i < 16 && 16 * (f + n) <= |x| && |tmp| == 16 * n
    requires tmp[16*(b-f)..16*(b-f)+16] == k.dec(x[16*b..16*b+16])
    ensures 16 * b + i < |Run(CbcDec, k, iv, x)|
    ensures Run(CbcDec, k, iv, x)[16*b+i] == XorOctet(tmp[16*(b-f)+i], x[16*b+i-16])
  {
    hide Run, RunValue, XorOctet;
    BlockAt(CbcDec, k, iv, x, b);
    assert Run(CbcDec, k, iv, x)[16*b+i] == Run(CbcDec, k, iv, x)[16*b..16*b+16][i];
    assert tmp[16*(b-f)+i] == tmp[16*(b-f)..16*(b-f)+16][i];
    assert Before(iv, x, b)[i] == x[16*b+i-16];
  }

  /** Sixteen octets of a part of x, as octets of x. */
  lemma SliceOfSlice(x: seq<bv8>, from: nat, to: nat, at: nat, z: seq<bv8>)
    requires from <= to <= |x| && z == x[from..to] && at + 16 <= |z|
    ensures z[at..at+16] == x[from+at..from+at+16]
  {
    var l, r := z[at..at+16], x[from+at..from+at+16];
    forall j | 0 <= j < 16 ensures l[j] == r[j] {
      assert z[at+j] == x[from+(at+j)];
    }
  }

  lemma CbcOctetAt(k: Cipher, iv: Block, x: seq<bv8>, f: nat, n: nat, z: seq<bv8>, tmp: seq<bv8>, j: nat)
    requires 0 < f && 16 * f <= j < 16 * (f + n) <= |x| && |tmp| == |z| == 16 * n && z == x[16*f..16*(f+n)]
    requires forall b | 0 <= b < n :: tmp[16*b..16*b+16] == k.dec(z[16*b..16*b+16])
    ensures j < |Run(CbcDec, k, iv, x)|
    ensures Run(CbcDec, k, iv, x)[j] == XorOctet(tmp[j-16*f], x[j-16])
  {
    hide Run, XorOctet;
    var b, i := j / 16, j % 16;
    SliceOfSlice(x, 16 * f, 16 * (f + n), 16 * (b - f), z);
    assert 16 * f + 16 * (b - f) == 16 * b;
    CbcOctet(k, iv, x, f, n, tmp, b, i);
  }

  /** n blocks of cbc_dec from block f on: decrypt them into tmp, then combine each octet with the
      ciphertext 16 octets before it, last octet first. */
  method CbcDecBatch(k: Cipher, pt: array<bv8>, ct: array<bv8>, f: nat, n: nat, ghost x: seq<bv8>, ghost iv: Block)
    requires 0 < f && 16 * (f + n) <= |x| && 16 * (f + n) <= ct.Length && 16 * (f + n) <= pt.Length
    requires ct[..16*(f+n)] == x[..16*(f+n)]
    modifies pt
    ensures |Run(CbcDec, k, iv, x)| >= 16 * (f + n)
    ensures pt[16*f..16*(f+n)] == Run(CbcDec, k, iv, x)[16*f..16*(f+n)]
    ensures pt[..16*f] == old(pt[..16*f]) && pt[16*(f+n)..] == old(pt[16*(f+n)..])
    ensures ct[..16*f] == old(ct[..16*f])
  {
    hide Run, XorOctet;
    var q, pos := 16 * f, 16 * (f + n);
    var tmp := DecryptBlocks(k, ct[q..pos], n);
    ghost var y, t := Run(CbcDec, k, iv, x), ct[..pos];
    ghost var z := ct[q..pos];
    assert z == t[q..pos] == x[q..pos];
    var j := pos;
    while j > q
      invariant q <= j <= pos
      invariant pt[..j] == old(pt[..j]) && pt[pos..] == old(pt[pos..])
      invariant ct[..j] == x[..j]
      invariant forall i | j <= i < pos :: pt[i] == y[i]
    {
      CbcOctetAt(k, iv, x, f, n, z, tmp, j - 1);
      assert ct[..j][j-17] == x[..j][j-17];
      pt[j-1] := XorOctet(tmp[j-1-q], ct[j-17]);
      j := j - 1;
    }
  }

  /** cbc_dec, in place or not: batches of 8 and 4 while more than that many blocks remain, then
      single blocks, and the first block last. */
  method CbcDecLoop(k: Cipher, pt: array<bv8>, ct: array<bv8>, len: nat, iv: Block, maxBlk: nat)
    requires len <= ct.Length && len <= pt.Length
    modifies pt
    ensures len % 16 != 0 ==> pt[..] == old(pt[..])
    ensures len % 16 == 0 ==> pt[..] == Run(CbcDec, k, iv, old(ct[..len])) + old(pt[len..])
  {
    hide Run;
    if len == 0 || len % 16 != 0 {
      RunNothing(CbcDec, k, iv);
      return;
    }
    ghost var x, c0 := ct[..len], pt[..];
    ghost var y := Run(CbcDec, k, iv, x);
    var remain := len / 16;
    if maxBlk >= 8 {
      remain := CbcDecBatches(k, pt, ct, remain, 8, x, iv, c0);
    }
    if maxBlk >= 4 {
      remain := CbcDecBatches(k, pt, ct, remain, 4, x, iv, c0);
    }
    remain := CbcDecBatches(k, pt, ct, remain, 1, x, iv, c0);
    ghost var c, t := pt[..], ct[..];
    CbcDecFirst(k, pt, ct, iv, x);
    BackwardStep(y, x, c0, c, t, 16, 0, pt[..], ct[..]);
    BackwardDone(y, x, c0, pt[..], ct[..]);
  }

  /** The first block, against the IV. */
  method CbcDecFirst(k: Cipher, pt: array<bv8>, ct: array<bv8>, iv: Block, ghost x: seq<bv8>)
    requires 16 <= |x| && 16 <= ct.Length && 16 <= pt.Length && ct[..16] == x[..16]
    modifies pt
    ensures 16 <= |Run(CbcDec, k, iv, x)|
    ensures pt[..16] == Run(CbcDec, k, iv, x)[..16] && pt[16..] == old(pt[16..])
  {
    hide Run;
    ghost var b := 0;
    BlockAt(CbcDec, k, iv, x, b);
    assert Run(CbcDec, k, iv, x)[..16] == Run(CbcDec, k, iv, x)[16*b..16*b+16];
    assert x[..16] == x[16*b..16*b+16];
    Put(pt, 0, k.dec(ct[..16]));
    Put(pt, 0, XorBlock(pt[..16], iv));
  }

  /** The loop over batches of n blocks while more than n blocks remain. */
  method CbcDecBatches(k: Cipher, pt: array<bv8>, ct: array<bv8>, start: nat, n: nat,
                       ghost x: seq<bv8>, ghost iv: Block, ghost c0: seq<bv8>) returns (remain: nat)
    requires n > 0 && 0 < start && 16 * start <= |x| <= ct.Length && |x| <= pt.Length
    requires Backward(Run(CbcDec, k, iv, x), x, c0, pt[..], ct[..], 16 * start)
    modifies pt
    ensures 0 < remain <= start && remain <= n
    ensures Backward(Run(CbcDec, k, iv, x), x, c0, pt[..], ct[..], 16 * remain)
  {
    hide Run;
    remain := start;
    while remain > n
      invariant 0 < remain <= start
      invariant Backward(Run(CbcDec, k, iv, x), x, c0, pt[..], ct[..], 16 * remain)
    {
      ghost var c, t, f := pt[..], ct[..], remain - n;
      assert ct[..16*(f+n)] == t[..16*remain] == x[..16*(f+n)];
      CbcDecBatch(k, pt, ct, remain - n, n, x, iv);
      BackwardStep(Run(CbcDec, k, iv, x), x, c0, c, t, 16 * remain, 16 * f, pt[..], ct[..]);
      remain := remain - n;
    }
  }

  /** What cfb128_dec must produce: the whole blocks, then the tail against the last whole block. */
  lemma CfbParts(k: Cipher, iv: Block, x: seq<bv8>, n: nat)
    requires n == |x| / 16
    ensures |Run(CfbDec, k, iv, x)| == 16 * n
    ensures Crypt(CfbDec, k, iv, x) ==
            Run(CfbDec, k, iv, x) + Xor(x[16*n..], k.enc(Before(iv, x, n))[..|x|-16*n])
  {
    hide Run, RunValue, XorOctet;
    RunShorter(CfbDec, k, iv, x);
    ChainIsLast(CfbDec, k, iv, x[..16*n]);
  }

  /** Block b of cfb128_dec: the key block comes from the ciphertext block before it. */
  method CfbDecBlock(k: Cipher, pt: array<bv8>, ct: array<bv8>, b: nat, prev: Block,
                     ghost x: seq<bv8>, ghost iv: Block, ghost c0: seq<bv8>)
    requires 16 * b + 16 <= |x| <= pt.Length && |x| <= ct.Length && prev == Before(iv, x, b)
    requires Backward(Crypt(CfbDec, k, iv, x), x, c0, pt[..], ct[..], 16 * b + 16)
    modifies pt
    ensures Backward(Crypt(CfbDec, k, iv, x), x, c0, pt[..], ct[..], 16 * b)
  {
    hide Run, RunValue, Crypt, XorBlock, Before, XorOctet;
    ghost var c, t, y := pt[..], ct[..], Crypt(CfbDec, k, iv, x);
    CfbParts(k, iv, x, |x| / 16);
    BlockAt(CfbDec, k, iv, x, b);
    assert y[16*b..16*b+16] == Run(CfbDec, k, iv, x)[16*b..16*b+16];
    BackwardInput(y, x, c0, c, t, 16 * b + 16, 16 * b, 16 * b + 16);
    var block := k.enc(prev);
    Put(pt, 16 * b, XorBlock(ct[16*b..16*b+16], block));
    BackwardStep(y, x, c0, c, t, 16 * b + 16, 16 * b, pt[..], ct[..]);
  }

  /** The tail of cfb128_dec, if any. */
  method CfbDecTail(k: Cipher, pt: array<bv8>, ct: array<bv8>, n: nat, len: nat, iv: Block)
    requires len <= pt.Length && len <= ct.Length && n == len / 16
    modifies pt
    ensures Backward(Crypt(CfbDec, k, iv, old(ct[..len])), old(ct[..len]), old(pt[..]), pt[..], ct[..], 16 * n)
  {
    hide Run, RunValue, Crypt, XorOctet;
    ghost var x, t, c0 := ct[..len], ct[..], pt[..];
    CfbParts(k, iv, x, n);
    assert n > 0 ==> ct[16*n-16..16*n] == x[16*n-16..16*n];
    assert ct[16*n..len] == x[16*n..];
    PutTail(pt, ct, 16 * n, len, k.enc(if n == 0 then iv else ct[16*n-16..16*n]));
    ghost var y := Crypt(CfbDec, k, iv, x);
    assert y[16*n..] == pt[16*n..len];
    assert ct[..16*n] == t[..16*n] == x[..16*n];
  }

  /** cfb128_dec, in place or not: the tail first, then the blocks from the last to the first. */
  method CfbDecLoop(k: Cipher, pt: array<bv8>, ct: array<bv8>, len: nat, iv: Block)
    requires len <= ct.Length && len <= pt.Length
    modifies pt
    ensures pt[..] == Crypt(CfbDec, k, iv, old(ct[..len])) + old(pt[len..])
  {
    hide Run, RunValue, Crypt, Backward;
    ghost var x, c0 := ct[..len], pt[..];
    ghost var y := Crypt(CfbDec, k, iv, x);
    var n := len / 16;
    CfbDecTail(k, pt, ct, n, len, iv);
    while n > 1
      invariant 0 <= n && 16 * n <= len
      invariant Backward(y, x, c0, pt[..], ct[..], 16 * n)
    {
      n := n - 1;
      BackwardInput(y, x, c0, pt[..], ct[..], 16 * n + 16, 16 * n - 16, 16 * n);
      CfbDecBlock(k, pt, ct, n, ct[16*n-16..16*n], x, iv, c0);
    }
    if n == 1 {
      CfbDecBlock(k, pt, ct, 0, iv, x, iv, c0);
    }
    BackwardDone(y, x, c0, pt[..], ct[..]);
  }
}
