/** The block modes of NIST SP 800-38A as folds over 16-octet blocks, and their laws. */
module Modes {
  import opened Bytes
  import opened Counter

  /** The two directions of a block cipher under one key. */
  datatype Cipher = Cipher(enc: BlockFn, dec: BlockFn)

  ghost predicate Inverse(k: Cipher) {
    forall b: Block :: k.dec(k.enc(b)) == b
  }

  datatype Mode = EcbEnc | EcbDec | CbcEnc | CbcDec | CtrMode | Ofb | CfbEnc | CfbDec

  /** The output block for input x when the chaining value is v. */
  function Out(m: Mode, k: Cipher, v: Block, x: Block): Block {
    match m
    case EcbEnc => k.enc(x)
    case EcbDec => k.dec(x)
    case CbcEnc => k.enc(XorBlock(x, v))
    case CbcDec => XorBlock(k.dec(x), v)
    case CtrMode => XorBlock(x, k.enc(v))
    case Ofb => XorBlock(x, k.enc(v))
    case CfbEnc => XorBlock(x, k.enc(v))
    case CfbDec => XorBlock(x, k.enc(v))
  }

  /** The chaining value for the next block. */
  function Next(m: Mode, k: Cipher, v: Block, x: Block): Block {
    match m
    case EcbEnc => v
    case EcbDec => v
    case CbcEnc => Out(m, k, v, x)
    case CbcDec => x
    case CtrMode => Inc(v)
    case Ofb => k.enc(v)
    case CfbEnc => Out(m, k, v, x)
    case CfbDec => x
  }

  /** The mode over the whole blocks of x; a partial last block is not part of it. */
  function Run(m: Mode, k: Cipher, v: Block, x: seq<bv8>): (y: seq<bv8>)
    ensures |y| == |x| / 16 * 16
    decreases |x|
  {
    if |x| < 16 then [] else Out(m, k, v, x[..16]) + Run(m, k, Next(m, k, v, x[..16]), x[16..])
  }

  /** The chaining value after the whole blocks of x. */
  function RunValue(m: Mode, k: Cipher, v: Block, x: seq<bv8>): Block
    decreases |x|
  {
    if |x| < 16 then v else RunValue(m, k, Next(m, k, v, x[..16]), x[16..])
  }

  predicate Streams(m: Mode) {
    m.CtrMode? || m.Ofb? || m.CfbEnc? || m.CfbDec?
  }

  /** A stream mode over all of x: the last partial block takes the leading key octets. */
  function Crypt(m: Mode, k: Cipher, v: Block, x: seq<bv8>): seq<bv8> {
    var tail := x[|x|/16*16..];
    Run(m, k, v, x) + Xor(tail, k.enc(RunValue(m, k, v, x))[..|tail|])
  }

  lemma {:induction false} RunConcat(m: Mode, k: Cipher, v: Block, x: seq<bv8>, y: seq<bv8>)
    requires |x| % 16 == 0
    ensures Run(m, k, v, x + y) == Run(m, k, v, x) + Run(m, k, RunValue(m, k, v, x), y)
    ensures RunValue(m, k, v, x + y) == RunValue(m, k, RunValue(m, k, v, x), y)
    decreases |x|
  {
    hide Out, Next;
    if x == [] {
      assert x + y == y;
    } else {
      RunConcat(m, k, Next(m, k, v, x[..16]), x[16..], y);
      assert (x + y)[..16] == x[..16] && (x + y)[16..] == x[16..] + y;
    }
  }

  /** One block. */
  lemma RunOne(m: Mode, k: Cipher, v: Block, x: Block)
    ensures Run(m, k, v, x) == Out(m, k, v, x)
    ensures RunValue(m, k, v, x) == Next(m, k, v, x)
  {
    hide Out, Next;
    assert x[..16] == x && x[16..] == [];
  }

  /** Adding one block at the end. */
  lemma RunSnoc(m: Mode, k: Cipher, v: Block, x: seq<bv8>, b: Block)
    requires |x| % 16 == 0
    ensures Run(m, k, v, x + b) == Run(m, k, v, x) + Out(m, k, RunValue(m, k, v, x), b)
    ensures RunValue(m, k, v, x + b) == Next(m, k, RunValue(m, k, v, x), b)
  {
    hide Out, Next, Run, RunValue;
    RunConcat(m, k, v, x, b);
    RunOne(m, k, RunValue(m, k, v, x), b);
  }

  /** Block number b. */
  lemma RunAt(m: Mode, k: Cipher, v: Block, x: seq<bv8>, b: nat)
    requires 16 * b + 16 <= |x|
    ensures 16 * b + 16 <= |Run(m, k, v, x)|
    ensures Run(m, k, v, x)[16*b..16*b+16] == Out(m, k, RunValue(m, k, v, x[..16*b]), x[16*b..16*b+16])
  {
    hide Out, Next, Run, RunValue;
    var q := 16 * b;
    var head, block, rest := x[..q], x[q..q+16], x[q+16..];
    assert x == head + (block + rest);
    RunConcat(m, k, v, head, block + rest);
    RunConcat(m, k, RunValue(m, k, v, head), block, rest);
    RunOne(m, k, RunValue(m, k, v, head), block);
  }

  // ----- decryption undoes encryption -----

  function Undo(m: Mode): Mode {
    match m
    case EcbEnc => EcbDec
    case EcbDec => EcbEnc
    case CbcEnc => CbcDec
    case CbcDec => CbcEnc
    case CtrMode => CtrMode
    case Ofb => Ofb
    case CfbEnc => CfbDec
    case CfbDec => CfbEnc
  }

  predicate Encrypts(m: Mode) {
    m.EcbEnc? || m.CbcEnc? || m.CtrMode? || m.Ofb? || m.CfbEnc?
  }

  lemma StepInverse(m: Mode, k: Cipher, v: Block, x: Block)
    requires Encrypts(m) && (Streams(m) || Inverse(k))
    ensures Out(Undo(m), k, v, Out(m, k, v, x)) == x
    ensures Next(Undo(m), k, v, Out(m, k, v, x)) == Next(m, k, v, x)
  {
    XorSelfInverse(x, v);
    XorSelfInverse(x, k.enc(v));
    hide XorOctet;
    if m.CbcEnc? {
      var c := Out(m, k, v, x);
      assert k.dec(c) == XorBlock(x, v);
    }
  }

  lemma {:induction false} RunInverse(m: Mode, k: Cipher, v: Block, x: seq<bv8>)
    requires Encrypts(m) && (Streams(m) || Inverse(k)) && |x| % 16 == 0
    ensures Run(Undo(m), k, v, Run(m, k, v, x)) == x
    ensures RunValue(Undo(m), k, v, Run(m, k, v, x)) == RunValue(m, k, v, x)
    decreases |x|
  {
    hide Out, Next, Undo;
    if x != [] {
      var y, c := Run(m, k, v, x), Out(m, k, v, x[..16]);
      var v' := Next(m, k, v, x[..16]);
      StepInverse(m, k, v, x[..16]);
      RunInverse(m, k, v', x[16..]);
      assert y[..16] == c && y[16..] == Run(m, k, v', x[16..]);
      assert x == x[..16] + x[16..];
    }
  }

  /** Every stream mode is undone over texts of any length, whatever the block function is. */
  lemma CryptInverse(m: Mode, k: Cipher, v: Block, x: seq<bv8>)
    requires Encrypts(m) && Streams(m)
    ensures Crypt(Undo(m), k, v, Crypt(m, k, v, x)) == x
  {
    var w := |x| / 16 * 16;
    var head, tail := x[..w], x[w..];
    assert x == head + tail;
    RunConcat(m, k, v, head, tail);
    RunInverse(m, k, v, head);
    var y := Run(m, k, v, x);
    var key := k.enc(RunValue(m, k, v, x))[..|tail|];
    var c := Xor(tail, key);
    RunConcat(Undo(m), k, v, y, c);
    hide Out, Next, Undo, XorOctet;
    assert y == Run(m, k, v, head);
    assert (y + c)[w..] == c;
    XorSelfInverse(tail, key);
  }
}
