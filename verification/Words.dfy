/** 32-bit words: modular arithmetic, exclusive-or, and the octets they are stored in. */
module Words {

  function Add(a: bv32, b: bv32): bv32 { a + b }
  function Sub(a: bv32, b: bv32): bv32 { a - b }
  function XorWord(a: bv32, b: bv32): bv32 { a ^ b }

  lemma SubOfSum(a: bv32, b: bv32)
    ensures Sub(a + b, b) == a
  {
  }

  lemma SumOfDifference(a: bv32, b: bv32)
    ensures Add(a - b, b) == a
  {
  }

  lemma SubUndoesAdd(a: bv32, b: bv32)
    ensures Sub(Add(a, b), b) == a
  {
    hide Sub;
    SubOfSum(a, b);
  }

  lemma AddUndoesSub(a: bv32, b: bv32)
    ensures Add(Sub(a, b), b) == a
  {
    hide Add;
    SumOfDifference(a, b);
  }

  lemma AddComm(a: bv32, b: bv32)
    ensures Add(a, b) == Add(b, a)
  {
  }

  lemma XorTwice(a: bv32, b: bv32)
    ensures XorWord(XorWord(a, b), b) == a
  {
  }

  // ----- rotations -----

  function Rotl1(x: bv32): bv32 { (x << 1) | (x >> 31) }
  function Rotl5(x: bv32): bv32 { (x << 5) | (x >> 27) }
  function Rotl8(x: bv32): bv32 { (x << 8) | (x >> 24) }
  function Rotl16(x: bv32): bv32 { (x << 16) | (x >> 16) }
  function Rotl17(x: bv32): bv32 { (x << 17) | (x >> 15) }
  function Rotl24(x: bv32): bv32 { (x << 24) | (x >> 8) }
  function Rotl29(x: bv32): bv32 { (x << 29) | (x >> 3) }

  function Rotr1(x: bv32): bv32 { (x >> 1) | (x << 31) }
  function Rotr5(x: bv32): bv32 { (x >> 5) | (x << 27) }
  function Rotr8(x: bv32): bv32 { (x >> 8) | (x << 24) }
  function Rotr16(x: bv32): bv32 { (x >> 16) | (x << 16) }
  function Rotr17(x: bv32): bv32 { (x >> 17) | (x << 15) }
  function Rotr24(x: bv32): bv32 { (x >> 24) | (x << 8) }
  function Rotr29(x: bv32): bv32 { (x >> 29) | (x << 3) }

  // ----- octets -----

  /** Four octets, least significant first. */
  function LoadWord(b: seq<bv8>): bv32
    requires |b| == 4
  {
    (b[0] as bv32) | ((b[1] as bv32) << 8) | ((b[2] as bv32) << 16) | ((b[3] as bv32) << 24)
  }

  function StoreWord(w: bv32): (b: seq<bv8>)
    ensures |b| == 4
  {
    [(w & 0xFF) as bv8, ((w >> 8) & 0xFF) as bv8, ((w >> 16) & 0xFF) as bv8, (w >> 24) as bv8]
  }

  lemma StoreLoad(b: seq<bv8>)
    requires |b| == 4
    ensures StoreWord(LoadWord(b)) == b
  {
  }

  lemma LoadStore(w: bv32)
    ensures LoadWord(StoreWord(w)) == w
  {
  }
}
