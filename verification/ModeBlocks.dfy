/** The operations of the library block by block, as NIST SP 800-38A writes them: every output block from the text
    blocks and output blocks around it. */
module ModeBlocks {
  import opened Bytes
  import opened Counter
  import opened ModeLoops
  import opened Modes
  import opened Online

  function BlockAt(s: seq<bv8>, i: nat): Block
    requires 16 * i + 16 <= |s|
  {
    s[16*i..16*i+16]
  }

  /** The block before block i, the initial one before the first. */
  function Previous(iv: Block, s: seq<bv8>, i: nat): Block
    requires 16 * i <= |s|
  {
    if i == 0 then iv else BlockAt(s, i - 1)
  }

  /** The key block of a stream cipher at block i, from the input x and the output y. */
  function KeyBlock(t: EncType, k: Cipher, iv: Block, x: seq<bv8>, y: seq<bv8>, i: nat): Block
    requires 16 * i <= |x| && 16 * i <= |y|
  {
    match t
    case CtrEncType | CtrDecType => k.enc(IncBy(iv, i))
    case OfbEncType | OfbDecType =>
      k.enc(if i == 0 then iv else XorBlock(BlockAt(x, i - 1), BlockAt(y, i - 1)))
    case Cfb128EncType => k.enc(Previous(iv, y, i))
    case _ => k.enc(Previous(iv, x, i))
  }

  /** Output block i. */
  function OutputBlock(t: EncType, k: Cipher, iv: Block, x: seq<bv8>, y: seq<bv8>, i: nat): Block
    requires 16 * i + 16 <= |x| && 16 * i <= |y|
  {
    match t
    case EcbNopadEnc | EcbPkcs5Enc => k.enc(BlockAt(x, i))
    case EcbNopadDec | EcbPkcs5Dec => k.dec(BlockAt(x, i))
    case CbcNopadEnc | CbcPkcs5Enc => k.enc(XorBlock(BlockAt(x, i), Previous(iv, y, i)))
    case CbcNopadDec | CbcPkcs5Dec => XorBlock(k.dec(BlockAt(x, i)), Previous(iv, x, i))
    case _ => XorBlock(BlockAt(x, i), KeyBlock(t, k, iv, x, y, i))
  }

  lemma RunPrefix(m: Mode, k: Cipher, v: Block, x: seq<bv8>, i: nat)
    requires 16 * i <= |x|
    ensures 16 * i <= |Run(m, k, v, x)| && Run(m, k, v, x)[..16*i] == Run(m, k, v, x[..16*i])
  {
    hide Run, RunValue;
    assert x == x[..16*i] + x[16*i..];
    RunConcat(m, k, v, x[..16*i], x[16*i..]);
  }

  lemma OfbValue(k: Cipher, v: Block, x: seq<bv8>, i: nat)
    requires 0 < i && 16 * i <= |x|
    ensures 16 * i <= |Run(Ofb, k, v, x)|
    ensures RunValue(Ofb, k, v, x[..16*i]) == XorBlock(BlockAt(x, i - 1), BlockAt(Run(Ofb, k, v, x), i - 1))
  {
    hide Run, RunValue, XorOctet;
    var h := i - 1;
    var u := RunValue(Ofb, k, v, x[..16*h]);
    assert x[..16*i] == x[..16*h] + BlockAt(x, h);
    RunSnoc(Ofb, k, v, x[..16*h], BlockAt(x, h));
    RunAt(Ofb, k, v, x, h);
    XorSelfInverse(BlockAt(x, h), k.enc(u));
  }

  lemma OutputValue(m: Mode, k: Cipher, v: Block, x: seq<bv8>, i: nat)
    requires (m == CbcEnc || m == CfbEnc) && 16 * i <= |x|
    ensures RunValue(m, k, v, x[..16*i]) == Previous(v, Run(m, k, v, x), i)
  {
    RunPrefix(m, k, v, x, i);
    hide Run;
    if i > 0 {
      ChainIsLastOut(m, k, v, x[..16*i]);
    }
  }

  lemma InputValue(m: Mode, k: Cipher, v: Block, x: seq<bv8>, i: nat)
    requires ChainsInput(m) && 16 * i <= |x|
    ensures RunValue(m, k, v, x[..16*i]) == Previous(v, x, i)
  {
    if i > 0 {
      ChainIsLast(m, k, v, x[..16*i]);
    }
  }

  lemma NoBlocks(m: Mode, k: Cipher, v: Block, x: seq<bv8>)
    ensures RunValue(m, k, v, x[..16*0]) == v
  {
  }

  /** The key block before whole block i, or before the partial last one. */
  lemma KeyBlockIs(t: EncType, k: Cipher, iv: Block, x: seq<bv8>, i: nat)
    requires t != Cleared && Streams(ModeOf(t)) && 16 * i <= |x|
    ensures 16 * i <= |Run(ModeOf(t), k, iv, x)|
    ensures k.enc(RunValue(ModeOf(t), k, iv, x[..16*i])) == KeyBlock(t, k, iv, x, Run(ModeOf(t), k, iv, x), i)
  {
    hide Run, RunValue, IncBy, XorBlock;
    NoBlocks(ModeOf(t), k, iv, x);
    RunPrefix(ModeOf(t), k, iv, x, i);
    match ModeOf(t) {
      case CtrMode => CtrRun(k, iv, x[..16*i]);
      case Ofb =>
        if i > 0 {
          OfbValue(k, iv, x, i);
        }
      case CfbEnc => OutputValue(CfbEnc, k, iv, x, i);
      case _ => InputValue(CfbDec, k, iv, x, i);
    }
  }

  /** Every whole block of the fold is the block of the standard. */
  lemma RunBlock(t: EncType, k: Cipher, iv: Block, x: seq<bv8>, i: nat)
    requires t != Cleared && 16 * i + 16 <= |x|
    ensures var y := Run(ModeOf(t), k, iv, x);
      16 * i + 16 <= |y| && BlockAt(y, i) == OutputBlock(t, k, iv, x, y, i)
  {
    var m := ModeOf(t);
    RunAt(m, k, iv, x, i);
    if Streams(m) {
      KeyBlockIs(t, k, iv, x, i);
      hide Run, RunValue, XorBlock, KeyBlock;
    } else if m == CbcEnc {
      OutputValue(m, k, iv, x, i);
      hide Run, RunValue, XorBlock, Previous;
    } else if m == CbcDec {
      InputValue(m, k, iv, x, i);
      hide Run, RunValue, XorBlock, Previous;
    }
  }

  /** All whole blocks of the text are in the output as the standard has them. */
  ghost predicate BlockByBlock(t: EncType, k: Cipher, iv: Block, x: seq<bv8>, y: seq<bv8>) {
    && |y| == |x| / 16 * 16
    && forall i: nat | 16 * i + 16 <= |x| :: BlockAt(y, i) == OutputBlock(t, k, iv, x, y, i)
  }

  lemma RunIsBlockByBlock(t: EncType, k: Cipher, iv: Block, x: seq<bv8>)
    requires t != Cleared
    ensures BlockByBlock(t, k, iv, x, Run(ModeOf(t), k, iv, x))
  {
    hide Run, OutputBlock, BlockAt, ModeOf;
    forall i: nat | 16 * i + 16 <= |x|
      ensures BlockAt(Run(ModeOf(t), k, iv, x), i) == OutputBlock(t, k, iv, x, Run(ModeOf(t), k, iv, x), i)
    {
      RunBlock(t, k, iv, x, i);
    }
  }

  /** Every octet of a stream, also of a partial last block: the text and the key block of its place. */
  ghost predicate OctetByOctet(t: EncType, k: Cipher, iv: Block, x: seq<bv8>, y: seq<bv8>) {
    && |y| == |x|
    && forall j: nat | j < |x| :: y[j] == XorOctet(x[j], KeyBlock(t, k, iv, x, y, j / 16)[j % 16])
  }

  lemma SameKeyBlock(t: EncType, k: Cipher, iv: Block, x: seq<bv8>, y: seq<bv8>, y': seq<bv8>, i: nat)
    requires 16 * i <= |x| && 16 * i <= |y| && y <= y'
    ensures KeyBlock(t, k, iv, x, y, i) == KeyBlock(t, k, iv, x, y', i)
  {
    hide IncBy, XorBlock;
    if i > 0 {
      assert BlockAt(y, i - 1) == BlockAt(y', i - 1);
    }
  }

  lemma WholeOctet(t: EncType, k: Cipher, iv: Block, x: seq<bv8>, i: nat, o: nat)
    requires t != Cleared && Streams(ModeOf(t)) && 16 * i + 16 <= |x| && o < 16
    ensures 16 * i + 16 <= |Run(ModeOf(t), k, iv, x)|
    ensures Run(ModeOf(t), k, iv, x)[16*i+o]
      == XorOctet(x[16*i+o], k.enc(RunValue(ModeOf(t), k, iv, x[..16*i]))[o])
  {
    hide Run, RunValue, XorOctet, ModeOf;
    var y := Run(ModeOf(t), k, iv, x);
    RunAt(ModeOf(t), k, iv, x, i);
    assert y[16*i..16*i+16][o] == y[16*i+o] && x[16*i..16*i+16][o] == x[16*i+o];
  }

  lemma TailOctet(m: Mode, k: Cipher, iv: Block, x: seq<bv8>, i: nat, o: nat)
    requires 16 * i <= 16 * i + o < |x| < 16 * i + 16
    ensures |Run(m, k, iv, x)| == 16 * i && |Crypt(m, k, iv, x)| == |x|
    ensures Crypt(m, k, iv, x)[16*i+o] == XorOctet(x[16*i+o], k.enc(RunValue(m, k, iv, x[..16*i]))[o])
  {
    RunShorter(m, k, iv, x);
    hide Run, RunValue, XorOctet;
    assert |x| / 16 == i;
    assert x[16*i..][o] == x[16*i+o];
  }

  lemma Places(j: nat, n: nat)
    requires j < n
    ensures j == 16 * (j / 16) + j % 16 && (16 * (j / 16) + 16 <= n || n < 16 * (j / 16) + 16)
  {
  }

  lemma CryptOctet(t: EncType, k: Cipher, iv: Block, x: seq<bv8>, i: nat, o: nat)
    requires t != Cleared && Streams(ModeOf(t)) && o < 16 && 16 * i + o < |x|
    ensures var y := Crypt(ModeOf(t), k, iv, x);
      |y| == |x| && y[16*i+o] == XorOctet(x[16*i+o], KeyBlock(t, k, iv, x, y, i)[o])
  {
    hide Run, RunValue, KeyBlock, XorOctet, ModeOf;
    var m := ModeOf(t);
    KeyBlockIs(t, k, iv, x, i);
    SameKeyBlock(t, k, iv, x, Run(m, k, iv, x), Crypt(m, k, iv, x), i);
    if 16 * i + 16 <= |x| {
      WholeOctet(t, k, iv, x, i, o);
    } else {
      TailOctet(m, k, iv, x, i, o);
    }
  }

  lemma CryptIsOctetByOctet(t: EncType, k: Cipher, iv: Block, x: seq<bv8>)
    requires t != Cleared && Streams(ModeOf(t))
    ensures OctetByOctet(t, k, iv, x, Crypt(ModeOf(t), k, iv, x))
  {
    hide Run, RunValue, KeyBlock, XorOctet, ModeOf;
    var m, y := ModeOf(t), Crypt(ModeOf(t), k, iv, x);
    forall j: nat | j < |x| ensures y[j] == XorOctet(x[j], KeyBlock(t, k, iv, x, y, j / 16)[j % 16]) {
      Places(j, |x|);
      CryptOctet(t, k, iv, x, j / 16, j % 16);
    }
  }
}
