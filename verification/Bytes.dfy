/** Octet strings, 16-octet blocks and exclusive-or, shared by every cipher module. */
module Bytes {

  type Block = s: seq<bv8> | |s| == 16 witness [0, 0, 0, 0, 0, 0, 0, 0, 0, 0, 0, 0, 0, 0, 0, 0]

  /** An abstract block transformation, for instance one direction of LEA under a fixed key. */
  type BlockFn = Block -> Block

  const ZERO: Block := [0, 0, 0, 0, 0, 0, 0, 0, 0, 0, 0, 0, 0, 0, 0, 0]

  /** The number of 32-bit values. */
  const WRAP: nat := 0x1_0000_0000

  function Zeros(n: nat): (s: seq<bv8>)
    ensures |s| == n
  {
    seq(n, _ => 0)
  }

  function XorOctet(a: bv8, b: bv8): bv8 {
    a ^ b
  }

  function Xor(a: seq<bv8>, b: seq<bv8>): (r: seq<bv8>)
    requires |a| == |b|
    ensures |r| == |a|
  {
    seq(|a|, i requires 0 <= i < |a| => XorOctet(a[i], b[i]))
  }

  function XorBlock(a: Block, b: Block): Block {
    Xor(a, b)
  }

  lemma XorSelfInverse(a: seq<bv8>, b: seq<bv8>)
    requires |a| == |b|
    ensures Xor(Xor(a, b), b) == a
    ensures Xor(a, Xor(a, b)) == b
  {
  }

  lemma XorComm(a: seq<bv8>, b: seq<bv8>)
    requires |a| == |b|
    ensures Xor(a, b) == Xor(b, a)
  {
  }

  lemma XorAssoc(a: seq<bv8>, b: seq<bv8>, c: seq<bv8>)
    requires |a| == |b| == |c|
    ensures Xor(Xor(a, b), c) == Xor(a, Xor(b, c))
  {
  }

  lemma XorZero(a: Block)
    ensures XorBlock(a, ZERO) == a
    ensures XorBlock(ZERO, a) == a
    ensures XorBlock(a, a) == ZERO
  {
  }

  // ----- octets and their values -----

  lemma NatToOctet(b: bv8, n: nat)
    requires b as nat == n
    ensures b == n as bv8
  {
  }

  lemma OctetInjective(a: bv8, b: bv8)
    requires a as nat == b as nat
    ensures a == b
  {
  }

  lemma OctetIncrement(b: bv8)
    requires b as nat < 255
    ensures (b + 1) as nat == b as nat + 1
  {
  }

  lemma {:induction false} OctetToNat(n: nat)
    requires n < 256
    ensures (n as bv8) as nat == n
  {
    if n > 0 {
      OctetToNat(n - 1);
      OctetIncrement((n - 1) as bv8);
      NatToOctet((n - 1) as bv8 + 1, n);
    }
  }

  /** The conversion of an unsigned number to an octet: only the low eight bits stay. */
  function Octet(n: nat): bv8 {
    (n % 256) as bv8
  }

  /** The value of an octet. */
  function Num(b: bv8): (n: nat)
    ensures n < 256
  {
    b as nat
  }

  lemma OctetValue(n: nat)
    ensures Octet(n) as nat == n % 256
    ensures Num(Octet(n)) == n % 256
  {
    OctetToNat(n % 256);
  }

  lemma NumOctet(n: nat)
    ensures Num(Octet(n)) == n % 256
  {
    OctetValue(n);
  }
}
