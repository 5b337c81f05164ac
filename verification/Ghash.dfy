/** GHASH of section 6.4 of NIST SP 800-38D over GfMul.Mul, and the library's loop for it. */
module Ghash {
  import opened Bytes
  import opened GfMul
  import opened GfTables

  /** x followed by the fewest zero octets that make its length a multiple of 16. */
  function Padded(x: seq<bv8>): (p: seq<bv8>)
    ensures |p| % 16 == 0 && |p| < |x| + 16 && x <= p
  {
    x + Zeros((16 - |x| % 16) % 16)
  }

  function HashBlock(y: Block, x: Block, h: Block): Block {
    Mul(XorBlock(y, x), h)
  }

  /** The GHASH fold from chaining value y; a partial last block is padded with zeros. */
  function Hash(y: Block, x: seq<bv8>, h: Block): Block
    decreases |x|
  {
    if x == [] then y
    else if |x| < 16 then HashBlock(y, Padded(x), h)
    else Hash(HashBlock(y, x[..16], h), x[16..], h)
  }

  lemma {:induction false} HashConcat(y: Block, a: seq<bv8>, b: seq<bv8>, h: Block)
    requires |a| % 16 == 0
    ensures Hash(Hash(y, a, h), b, h) == Hash(y, a + b, h)
    decreases |a|
  {
    hide HashBlock;
    if a == [] {
      assert a + b == b;
    } else {
      HashConcat(HashBlock(y, a[..16], h), a[16..], b, h);
      assert (a + b)[..16] == a[..16] && (a + b)[16..] == a[16..] + b;
    }
  }

  lemma ModShift(n: nat)
    requires n >= 16
    ensures (n - 16) % 16 == n % 16
  {
  }

  /** Explicit padding changes nothing. */
  lemma {:induction false} HashPadded(y: Block, x: seq<bv8>, h: Block)
    ensures Hash(y, Padded(x), h) == Hash(y, x, h)
    decreases |x|
  {
    hide HashBlock, Zeros;
    if x == [] {
      assert Padded(x) == [];
    } else if |x| < 16 {
      assert |Padded(x)| == 16 && Padded(x)[..16] == Padded(x) && Padded(x)[16..] == [];
    } else {
      HashPadded(HashBlock(y, x[..16], h), x[16..], h);
      ModShift(|x|);
      assert Padded(x)[..16] == x[..16] && Padded(x)[16..] == Padded(x[16..]);
    }
  }

  lemma XorPadded(y: Block, x: seq<bv8>)
    requires 0 < |x| < 16
    ensures XorBlock(y, Padded(x)) == Xor(y[..|x|], x) + y[|x|..]
  {
    hide XorOctet;
    forall i | |x| <= i < 16 ensures XorBlock(y, Padded(x))[i] == y[i] {
      XorOctetZero(y[i]);
    }
  }

  lemma HashSplit(y: Block, x: seq<bv8>, h: Block)
    ensures |x| >= 16 ==> Hash(y, x, h) == Hash(HashBlock(y, x[..16], h), x[16..], h)
    ensures 0 < |x| < 16 ==> Hash(y, x, h) == HashBlock(y, Padded(x), h)
  {
  }

  // ----- the library's loop -----

  /** y := (y xor x) * h for a whole block x. */
  method Absorb(y: array<bv8>, x: Block, hTable: array<Block>, ghost h: Block)
    requires y.Length == 16 && hTable.Length == 256 && TableOf(hTable, h, 256)
    modifies y
    ensures y[..] == HashBlock(old(y[..]), x, h)
  {
    hide Mul, XorBlock;
    Xor8x16(y, x);
    Gfmul8(y, y, hTable, h);
  }

  /** The same for a partial block, whose missing octets count as zero. */
  method AbsorbPartial(y: array<bv8>, x: seq<bv8>, hTable: array<Block>, ghost h: Block)
    requires y.Length == 16 && 0 < |x| < 16 && hTable.Length == 256 && TableOf(hTable, h, 256)
    modifies y
    ensures y[..] == HashBlock(old(y[..]), Padded(x), h)
  {
    XorPadded(y[..], x);
    hide Mul, XorOctet;
    ghost var y0 := y[..];
    forall i | 0 <= i < |x| {
      y[i] := XorOctet(y[i], x[i]);
    }
    assert y[..] == XorBlock(y0, Padded(x));
    Gfmul8(y, y, hTable, h);
  }

  /** _gcm_ghash over the 256-row table: whole blocks, then the partial one. */
  method GhashLoop(r: Block, x: seq<bv8>, hTable: array<Block>, ghost h: Block) returns (out: Block)
    requires hTable.Length == 256 && TableOf(hTable, h, 256)
    ensures out == Hash(r, x, h)
  {
    hide Hash, HashBlock, Padded;
    var y := new bv8[16](i requires 0 <= i < 16 => r[i]);
    var rest := x;
    assert y[..] == r;
    while |rest| >= 16
      invariant Hash(y[..], rest, h) == Hash(r, x, h)
      decreases |rest|
    {
      HashSplit(y[..], rest, h);
      Absorb(y, rest[..16], hTable, h);
      rest := rest[16..];
    }
    HashSplit(y[..], rest, h);
    if rest != [] {
      AbsorbPartial(y, rest, hTable, h);
    } else {
      HashEmpty(y[..], h);
    }
    out := y[..];
  }

  lemma HashEmpty(y: Block, h: Block)
    ensures Hash(y, [], h) == y
  {
  }
}
