/** CMAC: the mode of NIST SP 800-38B, and the context object that computes it piece by piece. */
module Cmac {
  import opened Bytes
  import opened GfMul
  import opened Modes
  import opened Online
  import opened Pieces

  // ----- subkeys -----

  function CarryIn(next: bv8): bv8 {
    if next & 0x80 != 0 then 1 else 0
  }

  function ShiftLeft(b: bv8, next: bv8): bv8 {
    (b << 1) | CarryIn(next)
  }

  function Reduction(b: bv8): bv8 {
    if b & 0x80 != 0 then 0x87 else 0
  }

  /** The block moved one bit to the left, with the reduction in its last octet. */
  function Double(b: Block): Block {
    seq(16, i requires 0 <= i < 16 =>
      if i < 15 then ShiftLeft(b[i], b[i+1]) else XorOctet(ShiftLeft(b[15], 0), Reduction(b[0])))
  }

  /** The coefficient of x^i: bit i counted from the right. */
  predicate Coefficient(b: Block, i: nat)
    requires i < 128
  {
    BitOf(b[15 - i/8], 7 - i%8)
  }

  /** x^128 is x^7 + x^2 + x + 1. */
  predicate Reduces(i: nat) {
    i == 0 || i == 1 || i == 2 || i == 7
  }

  predicate Differ(p: bool, q: bool) {
    p != q
  }

  lemma ShiftedBit(b: bv8, next: bv8, j: nat)
    requires j < 8
    ensures BitOf(ShiftLeft(b, next), j) == if j < 7 then BitOf(b, j + 1) else BitOf(next, 0)
  {
    match j
    case 0 => case 1 => case 2 => case 3 => case 4 => case 5 => case 6 => case _ =>
  }

  lemma ReducedBit(b: bv8, top: bv8, j: nat)
    requires j < 8
    ensures BitOf(XorOctet(b, Reduction(top)), j) == Differ(BitOf(b, j), BitOf(top, 0) && Reduces(7 - j))
  {
    match j
    case 0 => case 1 => case 2 => case 3 => case 4 => case 5 => case 6 => case _ =>
  }

  lemma ZeroBit()
    ensures !BitOf(0, 0)
  {
  }

  /** Doubling is multiplication by x in GF(2^128). */
  lemma DoubleIsTimesX(b: Block, i: nat)
    requires i < 128
    ensures Coefficient(Double(b), i) ==
      Differ(i > 0 && Coefficient(b, i - 1), Coefficient(b, 127) && Reduces(i))
  {
    var k, j := 15 - i / 8, 7 - i % 8;
    var next := if k < 15 then b[k+1] else 0;
    ShiftedBit(b[k], next, j);
    ReducedBit(ShiftLeft(b[15], 0), b[0], j);
    ZeroBit();
    hide BitOf, ShiftLeft, Reduction, XorOctet;
    assert i > 0 && j < 7 ==> (i - 1) / 8 == i / 8 && (i - 1) % 8 == i % 8 - 1;
    assert i > 0 && j == 7 ==> (i - 1) / 8 == i / 8 - 1 && (i - 1) % 8 == 7;
    assert i == 0 <==> k == 15 && j == 7;
    assert k < 15 <==> i >= 8;
  }

  /** The loop over the octets, in the form of the library. */
  method MakeSubkey(oldKey: Block) returns (key: Block)
    ensures key == Double(oldKey)
  {
    hide Reduction;
    var newKey := new bv8[16](_ => 0);
    var i := 0;
    while i < 16
      invariant 0 <= i <= 16
      invariant forall k | 0 <= k < i :: newKey[k] == ShiftLeft(oldKey[k], if k < 15 then oldKey[k+1] else 0)
    {
      newKey[i] := ShiftBit(oldKey[i], i < 15 && oldKey[i+1] & 0x80 != 0, if i < 15 then oldKey[i+1] else 0);
      i := i + 1;
    }
    hide ShiftLeft;
    if oldKey[0] & 0x80 != 0 {
      newKey[15] := Reduce(newKey[15], oldKey[0]);
    } else {
      NoReduction(newKey[15], oldKey[0]);
    }
    key := newKey[..];
  }

  method ShiftBit(b: bv8, carry: bool, ghost next: bv8) returns (r: bv8)
    requires carry == (next & 0x80 != 0)
    ensures r == ShiftLeft(b, next)
  {
    r := b << 1;
    if carry {
      r := r | 1;
    }
  }

  method Reduce(b: bv8, top: bv8) returns (r: bv8)
    requires top & 0x80 != 0
    ensures r == XorOctet(b, Reduction(top))
  {
    r := b ^ 0x87;
  }

  lemma NoReduction(b: bv8, top: bv8)
    requires top & 0x80 == 0
    ensures XorOctet(b, Reduction(top)) == b
  {
  }

  // ----- the mode of section 6.2 of NIST SP 800-38B -----

  /** The length of all blocks but the last; the empty text has one, empty, block. */
  function AllButLast(n: nat): (w: nat)
    ensures w <= n <= w + 16 && w % 16 == 0
  {
    if n == 0 then 0 else (n - 1) / 16 * 16
  }

  function Filled(t: seq<bv8>): Block
    requires |t| < 16
  {
    t + [0x80] + ZERO[..15-|t|]
  }

  /** The last block with its subkey: a whole one with the first, a filled one with the second. */
  function LastBlock(t: seq<bv8>, k1: Block, k2: Block): Block
    requires |t| <= 16
  {
    if |t| == 16 then XorBlock(t, k1) else XorBlock(Filled(t), k2)
  }

  /** The full tag: the cipher over the chained blocks. */
  function Tag(k: Cipher, m: seq<bv8>): Block {
    var k1 := Double(k.enc(ZERO));
    var k2 := Double(k1);
    var w := AllButLast(|m|);
    k.enc(XorBlock(RunValue(CbcEnc, k, ZERO, m[..w]), LastBlock(m[w..], k1, k2)))
  }

  lemma NoChain(k: Cipher, m: seq<bv8>)
    ensures RunValue(CbcEnc, k, ZERO, m[..0]) == ZERO
  {
  }

  /** A last block, filled with a one bit and zeros when it is not whole. */
  function Completed(t: seq<bv8>): Block
    requires |t| <= 16
  {
    if |t| == 16 then t else t + [0x80] + ZERO[|t|+1..]
  }

  lemma LastBlockIs(t: seq<bv8>, k1: Block, k2: Block)
    requires |t| <= 16
    ensures LastBlock(t, k1, k2) == XorBlock(Completed(t), if |t| == 16 then k1 else k2)
  {
    hide XorBlock;
    if |t| < 16 {
      assert Completed(t) == Filled(t);
    }
  }

  /** Section 6.2 of NIST SP 800-38B by blocks: the last block, with the one subkey when it is whole and with the other
      when it is filled up, goes through the cipher after the CBC ciphertext of those before it. */
  lemma TagByBlocks(k: Cipher, m: seq<bv8>, w: nat, before: Block)
    requires w % 16 == 0 && w <= |m| <= w + 16 && (w == |m| ==> w == 0)
    requires before == if w == 0 then ZERO else Run(CbcEnc, k, ZERO, m[..w])[w-16..]
    ensures var subkey := if |m| == w + 16 then Double(k.enc(ZERO)) else Double(Double(k.enc(ZERO)));
      Tag(k, m) == k.enc(XorBlock(before, XorBlock(Completed(m[w..]), subkey)))
  {
    hide Double, Run, RunValue, XorBlock, AllButLast, LastBlock, Completed;
    BlockStart(|m|, w);
    NoChain(k, m);
    LastBlockIs(m[w..], Double(k.enc(ZERO)), Double(Double(k.enc(ZERO))));
    if w > 0 {
      ChainIsLastOut(CbcEnc, k, ZERO, m[..w]);
    }
  }

  // ----- the context -----

  lemma NothingHeld(d: seq<bv8>, w: nat)
    requires w == AllButLast(|d|)
    ensures w == |d| ==> d == []
  {
  }

  lemma SplitText(d: seq<bv8>, x: seq<bv8>, pos: nat)
    requires pos <= |x|
    ensures d + x[..pos] + x[pos..] == d + x && (pos == 0 ==> d + x[pos..] == d + x)
  {
    assert x == x[..pos] + x[pos..];
  }

  lemma BlockStart(n: nat, w: nat)
    requires w % 16 == 0 && w <= n <= w + 16 && (w == n ==> n == 0)
    ensures AllButLast(n) == w
  {
  }

  /** One more block of the chain. */
  lemma Chained(k: Cipher, head: seq<bv8>, b: Block)
    requires |head| % 16 == 0
    ensures RunValue(CbcEnc, k, ZERO, head + b) == k.enc(XorBlock(RunValue(CbcEnc, k, ZERO, head), b))
  {
    RunSnoc(CbcEnc, k, ZERO, head, b);
    XorComm(b, RunValue(CbcEnc, k, ZERO, head));
    hide RunValue, XorBlock;
  }

  class CmacContext {
    var cipher: Cipher
    var k1: Block
    var k2: Block
    var tbl: Block
    var lastBlock: Block
    var nlast: nat
    /** What has been authenticated so far, and the length of its chained blocks. */
    ghost var data: seq<bv8>
    ghost var whole: nat

    ghost predicate Valid()
      reads this
    {
      && k1 == Double(cipher.enc(ZERO)) && k2 == Double(k1)
      && whole == AllButLast(|data|) && nlast == |data| - whole
      && tbl == RunValue(CbcEnc, cipher, ZERO, data[..whole])
      && lastBlock[..nlast] == data[whole..]
    }

    constructor (k: Cipher)
      ensures Valid() && cipher == k && data == []
    {
      hide Double;
      var zero := k.enc(ZERO);
      var first := MakeSubkey(zero);
      var second := MakeSubkey(first);
      cipher, k1, k2 := k, first, second;
      tbl, lastBlock, nlast := ZERO, ZERO, 0;
      data, whole := [], 0;
    }

    method Update(x: seq<bv8>)
      requires Valid()
      modifies this
      ensures Valid() && cipher == old(cipher) && data == old(data) + x
    {
      NothingHeld(data, whole);
      hide RunValue, Double, AllButLast;
      ghost var d := data;
      if nlast > 0 {
        var pos := FillLast(x);
        if pos == |x| {
          return;
        }
        AbsorbLast();
        AbsorbRest(x, pos);
        SplitText(d, x, pos);
      } else {
        assert data[..whole] == data;
        AbsorbRest(x, 0);
        SplitText(d, x, 0);
      }
    }

    method AbsorbRest(x: seq<bv8>, start: nat)
      requires k1 == Double(cipher.enc(ZERO)) && k2 == Double(k1)
      requires start <= |x| && |data| % 16 == 0 && tbl == RunValue(CbcEnc, cipher, ZERO, data)
      requires start == |x| ==> data == []
      modifies this
      ensures Valid() && cipher == old(cipher) && data == old(data) + x[start..]
    {
      hide RunValue, Double, AllButLast;
      var pos := AbsorbBlocks(x, start);
      KeepLast(x, pos);
      assert x[start..] == x[start..pos] + x[pos..];
    }

    /** The block held back takes what it has room for. */
    method FillLast(x: seq<bv8>) returns (empty: nat)
      requires Valid() && nlast > 0
      modifies this
      ensures Valid() && cipher == old(cipher) && empty <= |x| && data == old(data) + x[..empty]
      ensures nlast > 0 && (empty < |x| ==> nlast == 16)
      ensures empty == |x| ==> data == old(data) + x
    {
      hide RunValue, Double;
      empty := 16 - nlast;
      if empty > |x| {
        empty := |x|;
      }
      lastBlock := lastBlock[..nlast] + x[..empty] + lastBlock[nlast+empty..];
      nlast := nlast + empty;
      data := data + x[..empty];
      BlockStart(|data|, whole);
      assert data[..whole] == old(data)[..whole];
      assert empty == |x| ==> x[..empty] == x;
    }

    /** More data follow: the block held back was not the last. */
    method AbsorbLast()
      requires Valid() && nlast == 16
      modifies this
      ensures cipher == old(cipher) && k1 == old(k1) && k2 == old(k2) && data == old(data)
      ensures |data| % 16 == 0 && tbl == RunValue(CbcEnc, cipher, ZERO, data)
    {
      hide RunValue, Double, XorBlock;
      assert lastBlock == lastBlock[..nlast] && data == data[..whole] + data[whole..];
      Chained(cipher, data[..whole], lastBlock);
      tbl := cipher.enc(XorBlock(tbl, lastBlock));
    }

    method AbsorbBlocks(x: seq<bv8>, start: nat) returns (pos: nat)
      requires start <= |x| && |data| % 16 == 0 && tbl == RunValue(CbcEnc, cipher, ZERO, data)
      modifies this
      ensures cipher == old(cipher) && k1 == old(k1) && k2 == old(k2)
      ensures start <= pos <= |x| <= pos + 16 && (start < |x| ==> pos < |x|)
      ensures data == old(data) + x[start..pos] && |data| % 16 == 0
      ensures tbl == RunValue(CbcEnc, cipher, ZERO, data)
    {
      hide RunValue, Double, XorBlock;
      pos := start;
      while |x| - pos > 16
        invariant start <= pos <= |x| && (start < |x| ==> pos < |x|)
        invariant cipher == old(cipher) && k1 == old(k1) && k2 == old(k2)
        invariant data == old(data) + x[start..pos] && |data| % 16 == 0
        invariant tbl == RunValue(CbcEnc, cipher, ZERO, data)
      {
        var b: Block := x[pos..pos+16];
        Chained(cipher, data, b);
        tbl := cipher.enc(XorBlock(tbl, b));
        data := data + b;
        assert x[start..pos+16] == x[start..pos] + b;
        pos := pos + 16;
      }
    }

    method KeepLast(x: seq<bv8>, pos: nat)
      requires k1 == Double(cipher.enc(ZERO)) && k2 == Double(k1)
      requires pos <= |x| <= pos + 16 && |data| % 16 == 0 && (pos == |x| ==> data == [])
      requires tbl == RunValue(CbcEnc, cipher, ZERO, data)
      modifies this
      ensures Valid() && cipher == old(cipher) && data == old(data) + x[pos..]
    {
      hide RunValue, Double;
      whole := |data|;
      nlast := |x| - pos;
      lastBlock := x[pos..] + lastBlock[nlast..];
      data := data + x[pos..];
      BlockStart(|data|, whole);
      assert data[..whole] == old(data);
    }

    /** The first n octets of the tag, after which the context is ready for another text; a request for
        no octets does nothing. */
    method Final(n: int) returns (mac: seq<bv8>)
      requires Valid() && n <= 16
      modifies this
      ensures n <= 0 ==> mac == [] && unchanged(this)
      ensures n > 0 ==> mac == Tag(cipher, old(data))[..n] && cipher == old(cipher) && data == []
      ensures Valid()
    {
      hide Double, XorBlock;
      if n <= 0 {
        return [];
      }
      ghost var c := tbl;
      if nlast != 16 {
        tbl := MixFilled();
        tbl := XorBlock(tbl, k2);
      } else {
        assert lastBlock[..nlast] == lastBlock;
        tbl := XorBlock(tbl, lastBlock);
        tbl := XorBlock(tbl, k1);
      }
      LastMixed(c, data[whole..], lastBlock[..nlast], k1, k2, tbl);
      tbl := cipher.enc(tbl);
      mac := tbl[..n];
      tbl, lastBlock, nlast := ZERO, ZERO, 0;
      data, whole := [], 0;
    }

    /** The mark and the zeros after it; only the octets up to the mark are combined. */
    method MixFilled() returns (mixed: Block)
      requires nlast < 16
      modifies this`lastBlock
      ensures mixed == XorBlock(tbl, Filled(old(lastBlock[..nlast]))) && lastBlock[..nlast] == old(lastBlock[..nlast])
    {
      hide XorOctet;
      lastBlock := lastBlock[..nlast] + [0x80] + ZERO[..15-nlast];
      mixed := tbl;
      var i: int := nlast;
      while i >= 0
        invariant -1 <= i <= nlast
        invariant forall j | 0 <= j < 16 ::
          mixed[j] == if i < j <= nlast then XorOctet(tbl[j], lastBlock[j]) else tbl[j]
      {
        mixed := mixed[i := XorOctet(mixed[i], lastBlock[i])];
        i := i - 1;
      }
      forall j | 0 <= j < 16 ensures mixed[j] == XorOctet(tbl[j], lastBlock[j]) {
        if j > nlast {
          XorNothing(tbl[j]);
        }
      }
      assert mixed == XorBlock(tbl, lastBlock);
    }
  }

  lemma XorNothing(b: bv8)
    ensures XorOctet(b, 0) == b
  {
  }

  lemma LastMixed(c: Block, t: seq<bv8>, last: seq<bv8>, k1: Block, k2: Block, mixed: Block)
    requires t == last && |t| <= 16
    requires mixed == if |t| == 16 then XorBlock(XorBlock(c, t), k1) else XorBlock(XorBlock(c, Filled(t)), k2)
    ensures mixed == XorBlock(c, LastBlock(t, k1, k2))
  {
    hide XorOctet;
    if |t| == 16 {
      XorAssoc(c, t, k1);
    } else {
      XorAssoc(c, Filled(t), k2);
    }
  }

  /** Any chunking gives the tag of the whole text, and the same context serves the next text. */
  method TagPieces(ctx: CmacContext, pieces: seq<seq<bv8>>, n: nat) returns (mac: seq<bv8>)
    requires ctx.Valid() && ctx.data == [] && 0 < n <= 16
    modifies ctx
    ensures mac == Tag(ctx.cipher, Concat(pieces))[..n]
    ensures ctx.Valid() && ctx.cipher == old(ctx.cipher) && ctx.data == []
  {
    hide Tag, Double, RunValue;
    var i := 0;
    while i < |pieces|
      invariant 0 <= i <= |pieces|
      invariant ctx.Valid() && ctx.cipher == old(ctx.cipher) && ctx.data == Concat(pieces[..i])
    {
      ConcatTake(pieces, i);
      ctx.Update(pieces[i]);
      i := i + 1;
    }
    assert pieces[..i] == pieces;
    mac := ctx.Final(n);
  }
}
