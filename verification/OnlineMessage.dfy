/** Whole messages through the buffered cipher, in arbitrary pieces. */
module OnlineMessage {
  import opened Bytes
  import opened ModeBlocks
  import opened ModeLoops
  import opened Modes
  import opened Online
  import opened OnlineContext
  import opened Pieces

  /** Init, one update per piece, final: everything that came out, and the status of final. */
  method Process(t: EncType, k: Cipher, iv: Block, pieces: seq<seq<bv8>>, maxBlk: nat)
    returns (out: seq<bv8>, status: int)
    requires t != Cleared
    ensures exists e, last ::
      out == e + last && FinalResult(t, k, iv, Concat(pieces), e, status, last)
  {
    hide FinalResult;
    var ctx := new OnlineContext(t, iv, k);
    out := [];
    var i := 0;
    while i < |pieces|
      invariant 0 <= i <= |pieces|
      invariant ctx.Valid() && ctx.encType == t && ctx.iv0 == iv && fresh(ctx)
      invariant ctx.data == Concat(pieces[..i]) && ctx.emitted == out
    {
      ConcatTake(pieces, i);
      var n, y := ctx.Update(pieces[i], maxBlk);
      out := out + y;
      i := i + 1;
    }
    assert pieces[..i] == pieces;
    ghost var e := out;
    var last;
    status, last := ctx.Final(maxBlk);
    out := out + last;
    assert out == e + last && FinalResult(t, k, iv, Concat(pieces), e, status, last);
  }

  /** A stream cipher in pieces is the one-shot mode on the whole text. */
  method CryptPieces(t: EncType, k: Cipher, iv: Block, pieces: seq<seq<bv8>>, maxBlk: nat) returns (out: seq<bv8>)
    requires t != Cleared && Streams(ModeOf(t))
    ensures out == Crypt(ModeOf(t), k, iv, Concat(pieces))
    ensures OctetByOctet(t, k, iv, Concat(pieces), out)
  {
    hide Crypt, OctetByOctet;
    CryptIsOctetByOctet(t, k, iv, Concat(pieces));
    var status;
    out, status := Process(t, k, iv, pieces, maxBlk);
  }

  /** A block cipher without padding is the one-shot mode on texts of whole blocks, and only those
      are taken. */
  method CryptBlocks(t: EncType, k: Cipher, iv: Block, pieces: seq<seq<bv8>>, maxBlk: nat)
    returns (out: seq<bv8>, status: int)
    requires t != Cleared && Len16(t) && !KeepLast(t)
    ensures status == if |Concat(pieces)| % 16 == 0 then 0 else -2
    ensures status == 0 ==> out == Run(ModeOf(t), k, iv, Concat(pieces))
    ensures status == 0 ==> BlockByBlock(t, k, iv, Concat(pieces), out)
  {
    hide Run, BlockByBlock;
    RunIsBlockByBlock(t, k, iv, Concat(pieces));
    Flags(t);
    out, status := Process(t, k, iv, pieces, maxBlk);
  }

  function Partner(t: EncType): EncType
    requires PadsOutput(t)
  {
    if t.EcbPkcs5Enc? then EcbPkcs5Dec else CbcPkcs5Dec
  }

  /** What final delivers for the encryption of a padded text. */
  lemma OpenPadded(t: EncType, k: Cipher, iv: Block, x: seq<bv8>, c: seq<bv8>, e: seq<bv8>, status: int, last: seq<bv8>)
    requires PadsOutput(t) && |c| % 16 == 0 && c != []
    requires Run(ModeOf(Partner(t)), k, iv, c) == Pad(x)
    requires FinalResult(Partner(t), k, iv, c, e, status, last)
    ensures e + last == x && status >= 0
  {
    Flags(Partner(t));
    StripPad(x);
    PadLastBlock(x);
    hide Run, Pad, Strip, KeepLast, Len16;
    assert x == x[..|x|/16*16] + x[|x|/16*16..];
  }

  /** A text and as many octets as complete its last block, at least one, each giving their number. */
  function WithPadding(x: seq<bv8>): seq<bv8> {
    var n := 16 - |x| % 16;
    x + seq(n, _ => Octet(n))
  }

  lemma PadIs(x: seq<bv8>)
    ensures Pad(x) == WithPadding(x)
    ensures forall j | |x| <= j < |Pad(x)| :: Num(Pad(x)[j]) == |Pad(x)| - |x| == 16 - |x| % 16
  {
    hide Octet, Num;
    NumOctet(16 - |x| % 16);
  }

  /** With padding, every text comes back however it and its ciphertext are cut. */
  method PaddedRoundTrip(t: EncType, k: Cipher, iv: Block, pieces: seq<seq<bv8>>, sizes: seq<nat>, maxBlk: nat)
    returns (c: seq<bv8>, p: seq<bv8>, status: int)
    requires PadsOutput(t) && Inverse(k)
    ensures c == Run(ModeOf(t), k, iv, Pad(Concat(pieces)))
    ensures BlockByBlock(t, k, iv, WithPadding(Concat(pieces)), c)
    ensures p == Concat(pieces) && status >= 0
  {
    hide Run, FinalResult, Inverse, Pad, BlockByBlock, WithPadding;
    var x := Concat(pieces);
    PadIs(x);
    RunIsBlockByBlock(t, k, iv, Pad(x));
    c, status := Process(t, k, iv, pieces, maxBlk);
    SealPadded(t, k, iv, x, c, status);
    RunInverse(ModeOf(t), k, iv, Pad(x));
    ConcatCut(c, sizes);
    p, status := Process(Partner(t), k, iv, Cut(c, sizes), maxBlk);
    ghost var e, last :| p == e + last && FinalResult(Partner(t), k, iv, c, e, status, last);
    OpenPadded(t, k, iv, x, c, e, status, last);
  }

  lemma SealPadded(t: EncType, k: Cipher, iv: Block, x: seq<bv8>, c: seq<bv8>, status: int)
    requires PadsOutput(t)
    requires exists e, last :: c == e + last && FinalResult(t, k, iv, x, e, status, last)
    ensures c == Run(ModeOf(t), k, iv, Pad(x)) && |c| == |Pad(x)|
  {
    hide Run, Pad;
  }

  // ----- in place, from call to call -----

  /** In CBC and CFB decryption only the first block depends on where the chain starts. */
  lemma SameFromFirst(m: Mode, k: Cipher, v: Block, w: Block, x: seq<bv8>)
    requires ChainsInput(m) && |x| >= 16
    ensures Run(m, k, v, x) == Run(m, k, w, x) <==> Out(m, k, v, x[..16]) == Out(m, k, w, x[..16])
  {
    hide Out;
    var rest: seq<bv8> := Run(m, k, x[..16], x[16..]);
    var a: seq<bv8>, b: seq<bv8> := Out(m, k, v, x[..16]), Out(m, k, w, x[..16]);
    assert Run(m, k, v, x) == a + rest && Run(m, k, w, x) == b + rest;
    assert (a + rest)[..16] == a && (b + rest)[..16] == b;
  }

  /** A text in two parts, the second run from what the first left behind. */
  lemma TwoRuns(m: Mode, k: Cipher, iv: Block, x: seq<bv8>, x': seq<bv8>, v: Block)
    requires ChainsInput(m) && x != [] && |x| % 16 == 0 && |x'| >= 16
    ensures Run(m, k, iv, x) + Run(m, k, v, x') == Run(m, k, iv, x + x')
       <==> Out(m, k, v, x'[..16]) == Out(m, k, x[|x|-16..], x'[..16])
  {
    hide Run, RunValue, Out;
    RunConcat(m, k, iv, x, x');
    ChainIsLast(m, k, iv, x);
    var y, z, z' := Run(m, k, iv, x), Run(m, k, v, x'), Run(m, k, x[|x|-16..], x');
    assert (y + z)[|y|..] == z && (y + z')[|y|..] == z';
    SameFromFirst(m, k, v, x[|x|-16..], x');
  }

  /** Whole blocks over themselves, on a context without earlier data. */
  method BlocksOver(ctx: OnlineContext, x: seq<bv8>, maxBlk: nat) returns (y: seq<bv8>)
    requires ctx.Valid() && ctx.data == [] && ctx.emitted == [] && !KeepLast(ctx.encType)
    requires ChainsInput(ModeOf(ctx.encType)) && |x| > 16 && |x| % 16 == 0
    modifies ctx
    ensures ctx.encType == old(ctx.encType) && ctx.nlast == 0
    ensures y == Run(ModeOf(ctx.encType), ctx.k, old(ctx.iv0), x)
    ensures |y| == |x| && ctx.iv == y[|x|-16..]
  {
    hide Run, KeepLast, LastStays;
    var buf := new bv8[|x|](i requires 0 <= i < |x| => x[i]);
    assert buf[..|x|] == x;
    var n := ctx.UpdateInPlace(buf, |x|, maxBlk);
    SameMultiple(n, |x|);
    y := buf[..|x|];
    assert ctx.data == [] + x == x == x[..|x|] && ctx.emitted == [] + y == y;
  }

  lemma SameMultiple(m: nat, n: nat)
    requires m % 16 == 0 && n % 16 == 0 && m <= n < m + 16
    ensures m == n
  {
  }

  /** Two calls over their own input in CBC or CFB decryption. The text is right exactly when the first block of the
      second call does not tell the last text block of the first from its last ciphertext block. */
  method TwoCallsInPlace(t: EncType, k: Cipher, iv: Block, x: seq<bv8>, x': seq<bv8>, maxBlk: nat)
    returns (out: seq<bv8>)
    requires t == CbcNopadDec || t == Cfb128DecType
    requires |x| > 16 && |x| % 16 == 0 && |x'| > 16 && |x'| % 16 == 0
    ensures var m := ModeOf(t);
      (out == Run(m, k, iv, x + x')) <==>
      (Out(m, k, LastText(m, k, iv, x), x'[..16]) == Out(m, k, x[|x|-16..], x'[..16]))
  {
    hide Run, RunValue, KeepLast, Len16, LastText, Out;
    Flags(t);
    var ctx := new OnlineContext(t, iv, k);
    var y := BlocksOver(ctx, x, maxBlk);
    LastOfRun(ModeOf(t), k, iv, x);
    ctx.Rebase();
    var y' := BlocksOver(ctx, x', maxBlk);
    TwoRuns(ModeOf(t), k, iv, x, x', LastText(ModeOf(t), k, iv, x));
    out := y + y';
  }

  /** For CBC that is exactly when the two blocks are equal. */
  lemma CbcTells(k: Cipher, v: Block, w: Block, x: Block)
    ensures Out(CbcDec, k, v, x) == Out(CbcDec, k, w, x) <==> v == w
  {
    XorSelfInverse(k.dec(x), v);
    XorSelfInverse(k.dec(x), w);
  }

  /** Under every cipher and IV some text in two calls goes wrong: for CBC when b is not the decryption of zero. */
  method InPlaceGoesWrong(t: EncType, k: Cipher, iv: Block, b: Block, maxBlk: nat) returns (out: seq<bv8>)
    requires t == CbcNopadDec || t == Cfb128DecType
    requires var m := ModeOf(t); Out(m, k, Out(m, k, b, ZERO), ZERO) != Out(m, k, ZERO, ZERO)
    ensures out != Run(ModeOf(t), k, iv, (b + ZERO) + (ZERO + ZERO))
  {
    hide Run, Out;
    var x, x' := b + ZERO, ZERO + ZERO;
    assert x[16*1..16*1+16] == ZERO && x[|x|-16..] == ZERO && x'[..16] == ZERO && Before(iv, x, 1) == b;
    out := TwoCallsInPlace(t, k, iv, x, x', maxBlk);
  }

  /** Which blocks b serve there. */
  lemma WrongStarts(k: Cipher, b: Block)
    ensures Out(CbcDec, k, Out(CbcDec, k, b, ZERO), ZERO) != Out(CbcDec, k, ZERO, ZERO) <==> b != k.dec(ZERO)
    ensures Out(CfbDec, k, Out(CfbDec, k, b, ZERO), ZERO) != Out(CfbDec, k, ZERO, ZERO)
       <==> k.enc(k.enc(b)) != k.enc(ZERO)
  {
    CbcTells(k, Out(CbcDec, k, b, ZERO), ZERO, ZERO);
    XorSelfInverse(k.dec(ZERO), b);
    XorZero(b);
    XorZero(k.dec(ZERO));
    XorZero(k.enc(b));
    XorZero(k.enc(k.enc(b)));
    XorZero(k.enc(ZERO));
  }
}
