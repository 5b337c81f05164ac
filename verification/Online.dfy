/** The buffered cipher of the library: update and final over blocks, with a partial block, a held
    back last block and padding. */
module Online {
  import opened Bytes
  import opened Counter
  import opened Ctr
  import opened Modes
  import opened ModeLoops

  // ----- types of operation -----

  datatype EncType =
    | Cleared
    | EcbNopadEnc | EcbNopadDec | EcbPkcs5Enc | EcbPkcs5Dec
    | CbcNopadEnc | CbcNopadDec | CbcPkcs5Enc | CbcPkcs5Dec
    | CtrEncType | CtrDecType | OfbEncType | OfbDecType | Cfb128EncType | Cfb128DecType

  /** The numeric codes, whose bits 4 and 6 carry the flags. */
  function Code(t: EncType): bv32 {
    match t
    case Cleared => 0
    case EcbNopadEnc => 0x401031 case EcbNopadDec => 0x401032
    case EcbPkcs5Enc => 0x401121 case EcbPkcs5Dec => 0x401172
    case CbcNopadEnc => 0x402011 case CbcNopadDec => 0x402012
    case CbcPkcs5Enc => 0x402101 case CbcPkcs5Dec => 0x402152
    case CtrEncType => 0x403001 case CtrDecType => 0x403002
    case OfbEncType => 0x404001 case OfbDecType => 0x404002
    case Cfb128EncType => 0x405001 case Cfb128DecType => 0x405002
  }

  predicate Len16(t: EncType) {
    Code(t) & 0x10 != 0
  }

  predicate KeepLast(t: EncType) {
    Code(t) & 0x40 != 0
  }

  predicate PadsOutput(t: EncType) {
    t.EcbPkcs5Enc? || t.CbcPkcs5Enc?
  }

  function ModeOf(t: EncType): Mode
    requires t != Cleared
  {
    match t
    case EcbNopadEnc => EcbEnc case EcbPkcs5Enc => EcbEnc
    case EcbNopadDec => EcbDec case EcbPkcs5Dec => EcbDec
    case CbcNopadEnc => CbcEnc case CbcPkcs5Enc => CbcEnc
    case CbcNopadDec => CbcDec case CbcPkcs5Dec => CbcDec
    case CtrEncType => CtrMode case CtrDecType => CtrMode
    case OfbEncType => Ofb case OfbDecType => Ofb
    case Cfb128EncType => CfbEnc case Cfb128DecType => CfbDec
  }

  /** What the flags mean: a block is held back exactly for unpadding, a stream never needs whole
      blocks, and everything else but padded encryption does. */
  lemma Flags(t: EncType)
    ensures t != Cleared ==> (KeepLast(t) <==> t.EcbPkcs5Dec? || t.CbcPkcs5Dec?)
    ensures t != Cleared ==> (Len16(t) <==> !Streams(ModeOf(t)) && !PadsOutput(t))
  {
    match t
    case Cleared =>
    case EcbNopadEnc => case EcbNopadDec => case EcbPkcs5Enc => case EcbPkcs5Dec =>
    case CbcNopadEnc => case CbcNopadDec => case CbcPkcs5Enc => case CbcPkcs5Dec =>
    case CtrEncType => case CtrDecType => case OfbEncType => case OfbDecType =>
    case Cfb128EncType => case Cfb128DecType =>
  }

  // ----- counter mode as a fold -----

  lemma OneIncrement(v: Block)
    ensures IncBy(v, 0) == v && IncBy(v, 1) == Inc(v)
  {
  }

  lemma {:induction false} CtrRun(k: Cipher, v: Block, x: seq<bv8>)
    requires |x| % 16 == 0
    ensures Run(CtrMode, k, v, x) == CtrAt(k.enc, v, x, 0)
    ensures RunValue(CtrMode, k, v, x) == IncBy(v, |x| / 16)
    decreases |x|
  {
    hide CtrAt, XorOctet, IncBy;
    if x == [] {
      FirstBlock(k.enc, v, x);
      OneIncrement(v);
    } else {
      var head, rest := x[..16], x[16..];
      CtrRun(k, Inc(v), rest);
      FirstBlock(k.enc, v, head);
      CtrConcat(k.enc, v, head, rest, 0);
      OneIncrement(v);
      assert x == head + rest && k.enc(v)[..16] == k.enc(v);
      CtrShift(k.enc, v, rest, 1, 0);
      IncByAdd(v, 1, |rest| / 16);
    }
  }

  /** The octet formula for texts of any length. */
  lemma CtrCrypt(k: Cipher, v: Block, x: seq<bv8>)
    ensures Crypt(CtrMode, k, v, x) == CtrAt(k.enc, v, x, 0)
  {
    hide CtrAt, XorOctet, IncBy, Run, RunValue;
    var w := |x| / 16 * 16;
    CtrRun(k, v, x[..w]);
    RunShorter(CtrMode, k, v, x);
    FirstBlock(k.enc, IncBy(v, |x| / 16), x[w..]);
    CtrShift(k.enc, v, x[w..], |x| / 16, 0);
    CtrConcat(k.enc, v, x[..w], x[w..], 0);
    assert x == x[..w] + x[w..];
  }

  // ----- whole blocks through the mode loops -----

  /** In CBC and CFB encryption the chaining value is the last output block. */
  lemma ChainIsLastOut(m: Mode, k: Cipher, v: Block, x: seq<bv8>)
    requires m == CbcEnc || m == CfbEnc
    requires |x| % 16 == 0 && x != []
    ensures RunValue(m, k, v, x) == Run(m, k, v, x)[|x|-16..]
  {
    hide Run, RunValue;
    var head, b := x[..|x|-16], x[|x|-16..];
    RunSnoc(m, k, v, head, b);
    assert x == head + b;
  }

  lemma {:induction false} EcbValues(m: Mode, k: Cipher, v: Block, w: Block, x: seq<bv8>)
    requires m == EcbEnc || m == EcbDec
    ensures RunValue(m, k, v, x) == v
    ensures Run(m, k, v, x) == Run(m, k, w, x)
    decreases |x|
  {
    if |x| >= 16 {
      EcbValues(m, k, v, w, x[16..]);
    }
  }

  /** The modes whose chaining value is the last block of the input. */
  predicate ChainsInput(m: Mode) {
    m == CbcDec || m == CfbDec
  }

  /** One call of a mode function on the first n octets of src, whole blocks, into dst, which may be src, and the
      chaining value the caller goes on with: unchanged, kept by the function, or the last ciphertext block,
      wherever that now is. */
  method BlocksInto(m: Mode, k: Cipher, v: Block, dst: array<bv8>, src: array<bv8>, n: nat, maxBlk: nat)
    returns (next: Block)
    requires n % 16 == 0 && 16 <= n <= src.Length && n <= dst.Length
    modifies dst
    ensures dst[..] == Run(m, k, v, old(src[..n])) + old(dst[n..])
    ensures next == if ChainsInput(m) then src[n-16..n] else RunValue(m, k, v, old(src[..n]))
  {
    hide Run, RunValue, CtrAt, Crypt;
    ghost var x := src[..n];
    match m {
      case EcbEnc =>
        EcbLoop(m, k, dst, src, n);
        EcbValues(m, k, v, ZERO, x);
        next := v;
      case EcbDec =>
        EcbLoop(m, k, dst, src, n);
        EcbValues(m, k, v, ZERO, x);
        next := v;
      case CbcEnc =>
        CbcEncLoop(k, dst, src, n, v);
        ChainIsLastOut(m, k, v, x);
        assert |dst[n-16..n]| == 16;
        next := dst[n-16..n];
      case CbcDec =>
        CbcDecLoop(k, dst, src, n, v, maxBlk);
        next := src[n-16..n];
      case CtrMode =>
        next := CtrInto(k, v, dst, src, n, maxBlk);
      case Ofb =>
        var iv := new bv8[16](i requires 0 <= i < 16 => v[i]);
        assert iv[..] == v;
        OfbLoop(k, dst, src, n, iv);
        CryptWhole(m, k, v, x);
        next := iv[..];
      case CfbEnc =>
        CfbEncLoop(k, dst, src, n, v);
        CryptWhole(m, k, v, x);
        ChainIsLastOut(m, k, v, x);
        next := dst[n-16..n];
      case CfbDec =>
        CfbDecLoop(k, dst, src, n, v);
        CryptWhole(m, k, v, x);
        next := src[n-16..n];
    }
  }

  method CtrInto(k: Cipher, v: Block, dst: array<bv8>, src: array<bv8>, n: nat, maxBlk: nat) returns (next: Block)
    requires n % 16 == 0 && n <= src.Length && n <= dst.Length
    modifies dst
    ensures dst[..] == Run(CtrMode, k, v, old(src[..n])) + old(dst[n..])
    ensures next == RunValue(CtrMode, k, v, old(src[..n]))
  {
    hide Run, RunValue, CtrAt;
    CtrRun(k, v, src[..n]);
    var ctr := new bv8[16](i requires 0 <= i < 16 => v[i]);
    assert ctr[..] == v && src[0..0+n] == src[..n];
    CtrEnc(k.enc, dst, src, 0, n, ctr, maxBlk);
    assert dst[0..0+n] + dst[0+n..] == dst[..];
    next := ctr[..];
  }

  /** The same into a buffer of its own: then the chaining value is always right. */
  method Blocks(m: Mode, k: Cipher, v: Block, x: seq<bv8>, maxBlk: nat) returns (y: seq<bv8>, next: Block)
    requires |x| % 16 == 0 && x != []
    ensures y == Run(m, k, v, x)
    ensures next == RunValue(m, k, v, x)
  {
    hide Run, RunValue;
    var src := new bv8[|x|](i requires 0 <= i < |x| => x[i]);
    var dst := new bv8[|x|](_ => 0);
    assert src[..|x|] == x;
    next := BlocksInto(m, k, v, dst, src, |x|, maxBlk);
    if ChainsInput(m) {
      ChainIsLast(m, k, v, x);
    }
    y := dst[..];
  }

  lemma CryptWhole(m: Mode, k: Cipher, v: Block, x: seq<bv8>)
    requires |x| % 16 == 0
    ensures Crypt(m, k, v, x) == Run(m, k, v, x)
  {
    hide Run, RunValue;
  }
}
