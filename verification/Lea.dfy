/** The LEA block cipher: the unrolled encryption and decryption of the library are the round
    functions of the specification, and undo each other under every array of round keys. */
module Lea {
  import opened Bytes
  import opened Modes
  import opened Words

  datatype State = State(w0: bv32, w1: bv32, w2: bv32, w3: bv32)

  /** Round keys of the largest key size; smaller ones leave the end unused. */
  type RoundKeys = s: seq<bv32> | |s| == 192 witness seq(192, _ => 0)

  function Rol3(x: bv32): bv32 { (x << 3) | (x >> 29) }
  function Ror3(x: bv32): bv32 { (x >> 3) | (x << 29) }
  function Rol5(x: bv32): bv32 { (x << 5) | (x >> 27) }
  function Ror5(x: bv32): bv32 { (x >> 5) | (x << 27) }
  function Rol9(x: bv32): bv32 { (x << 9) | (x >> 23) }
  function Ror9(x: bv32): bv32 { (x >> 9) | (x << 23) }

  /** The keyed sum inside a round, and its solution for b. */
  function Sum(a: bv32, k: bv32, b: bv32, l: bv32): bv32 { Add(XorWord(a, k), XorWord(b, l)) }
  function Solve(s: bv32, a: bv32, k: bv32, l: bv32): bv32 { XorWord(Sub(s, XorWord(a, k)), l) }

  // ----- the specification: one round, and n of them -----

  function Round(x: State, rk: RoundKeys, r: nat): State
    requires r < 32
  {
    State(Rol9(Sum(x.w0, rk[6*r], x.w1, rk[6*r+1])),
          Ror5(Sum(x.w1, rk[6*r+2], x.w2, rk[6*r+3])),
          Ror3(Sum(x.w2, rk[6*r+4], x.w3, rk[6*r+5])),
          x.w0)
  }

  function RoundInverse(y: State, rk: RoundKeys, r: nat): State
    requires r < 32
  {
    var x0 := y.w3;
    var x1 := Solve(Ror9(y.w0), x0, rk[6*r], rk[6*r+1]);
    var x2 := Solve(Rol5(y.w1), x1, rk[6*r+2], rk[6*r+3]);
    var x3 := Solve(Rol3(y.w2), x2, rk[6*r+4], rk[6*r+5]);
    State(x0, x1, x2, x3)
  }

  function Rounds(x: State, rk: RoundKeys, n: nat): State
    requires n <= 32
  {
    if n == 0 then x else Round(Rounds(x, rk, n - 1), rk, n - 1)
  }

  function RoundsInverse(y: State, rk: RoundKeys, n: nat): State
    requires n <= 32
    decreases n
  {
    if n == 0 then y else RoundsInverse(RoundInverse(y, rk, n - 1), rk, n - 1)
  }

  /** The number of rounds for the round field of a key. */
  function RoundCount(round: nat): (n: nat)
    ensures n <= 32
  {
    if round > 28 then 32 else if round > 24 then 28 else 24
  }

  lemma Rotations(x: bv32)
    ensures Ror3(Rol3(x)) == x && Rol3(Ror3(x)) == x
    ensures Ror5(Rol5(x)) == x && Rol5(Ror5(x)) == x
    ensures Ror9(Rol9(x)) == x && Rol9(Ror9(x)) == x
  {
  }

  lemma SumSolve(a: bv32, k: bv32, b: bv32, l: bv32)
    ensures Solve(Sum(a, k, b, l), a, k, l) == b
    ensures Sum(a, k, Solve(b, a, k, l), l) == b
  {
    hide Add, Sub, XorWord;
    AddComm(XorWord(a, k), XorWord(b, l));
    SubUndoesAdd(XorWord(b, l), XorWord(a, k));
    AddUndoesSub(b, XorWord(a, k));
    AddComm(XorWord(a, k), Sub(b, XorWord(a, k)));
    XorTwice(b, l);
    XorTwice(Sub(b, XorWord(a, k)), l);
  }

  lemma RoundIsInverted(x: State, rk: RoundKeys, r: nat)
    requires r < 32
    ensures RoundInverse(Round(x, rk, r), rk, r) == x
    ensures Round(RoundInverse(x, rk, r), rk, r) == x
  {
    hide Rol3, Ror3, Rol5, Ror5, Rol9, Ror9, Sum, Solve;
    var k0, k1, k2, k3, k4, k5 := rk[6*r], rk[6*r+1], rk[6*r+2], rk[6*r+3], rk[6*r+4], rk[6*r+5];
    Rotations(Sum(x.w0, k0, x.w1, k1));
    Rotations(Sum(x.w1, k2, x.w2, k3));
    Rotations(Sum(x.w2, k4, x.w3, k5));
    SumSolve(x.w0, k0, x.w1, k1);
    SumSolve(x.w1, k2, x.w2, k3);
    SumSolve(x.w2, k4, x.w3, k5);
    var y := RoundInverse(x, rk, r);
    Rotations(x.w0);
    Rotations(x.w1);
    Rotations(x.w2);
    SumSolve(y.w0, k0, Ror9(x.w0), k1);
    SumSolve(y.w1, k2, Rol5(x.w1), k3);
    SumSolve(y.w2, k4, Rol3(x.w2), k5);
  }

  /** Any number of rounds is a bijection on the four words. */
  lemma {:induction false} RoundsAreInverted(x: State, rk: RoundKeys, n: nat)
    requires n <= 32
    ensures RoundsInverse(Rounds(x, rk, n), rk, n) == x
    ensures Rounds(RoundsInverse(x, rk, n), rk, n) == x
    decreases n
  {
    hide Round, RoundInverse;
    if n > 0 {
      RoundIsInverted(Rounds(x, rk, n - 1), rk, n - 1);
      RoundsAreInverted(x, rk, n - 1);
      var y := RoundInverse(x, rk, n - 1);
      RoundIsInverted(x, rk, n - 1);
      RoundsAreInverted(y, rk, n - 1);
    }
  }

  // ----- the library's straight-line code, four rounds at a time -----

  function Four(x: State, rk: RoundKeys, r: nat): State
    requires r + 3 < 32
  {
    Round(Round(Round(Round(x, rk, r), rk, r + 1), rk, r + 2), rk, r + 3)
  }

  function FourInverse(x: State, rk: RoundKeys, r: nat): State
    requires r + 3 < 32
  {
    RoundInverse(RoundInverse(RoundInverse(RoundInverse(x, rk, r + 3), rk, r + 2), rk, r + 1), rk, r)
  }

  lemma FourMore(x: State, rk: RoundKeys, n: nat)
    requires n + 4 <= 32
    ensures Rounds(x, rk, n + 4) == Four(Rounds(x, rk, n), rk, n)
    ensures RoundsInverse(x, rk, n + 4) == RoundsInverse(FourInverse(x, rk, n), rk, n)
  {
    hide Round, RoundInverse;
    assert Rounds(x, rk, n + 1) == Round(Rounds(x, rk, n), rk, n);
    assert Rounds(x, rk, n + 2) == Round(Rounds(x, rk, n + 1), rk, n + 1);
    assert Rounds(x, rk, n + 3) == Round(Rounds(x, rk, n + 2), rk, n + 2);
    var y := RoundInverse(x, rk, n + 3);
    var z := RoundInverse(y, rk, n + 2);
    var w := RoundInverse(z, rk, n + 1);
    assert RoundsInverse(x, rk, n + 4) == RoundsInverse(y, rk, n + 3);
    assert RoundsInverse(y, rk, n + 3) == RoundsInverse(z, rk, n + 2);
    assert RoundsInverse(z, rk, n + 2) == RoundsInverse(w, rk, n + 1);
  }

  lemma NoRounds(x: State, rk: RoundKeys)
    ensures Rounds(x, rk, 0) == x && RoundsInverse(x, rk, 0) == x
  {
  }

  /** Twelve assignments that rotate the roles of the four registers instead of the words: after
      four rounds every word is back in its own register. */
  method EncryptFour(x: State, rk: RoundKeys, r: nat, ghost first: State) returns (y: State)
    requires r + 3 < 32 && x == Rounds(first, rk, r)
    ensures y == Rounds(first, rk, r + 4)
  {
    FourMore(first, rk, r);
    hide Rounds, Rol3, Ror3, Rol5, Ror5, Rol9, Ror9, Sum, Solve;
    var x0, x1, x2, x3 := x.w0, x.w1, x.w2, x.w3;
    var k := 6 * r;
    x3 := Ror3(Sum(x2, rk[k+4], x3, rk[k+5]));
    x2 := Ror5(Sum(x1, rk[k+2], x2, rk[k+3]));
    x1 := Rol9(Sum(x0, rk[k], x1, rk[k+1]));
    assert Round(x, rk, r) == State(x1, x2, x3, x0);
    x0 := Ror3(Sum(x3, rk[k+10], x0, rk[k+11]));
    x3 := Ror5(Sum(x2, rk[k+8], x3, rk[k+9]));
    x2 := Rol9(Sum(x1, rk[k+6], x2, rk[k+7]));
    assert Round(Round(x, rk, r), rk, r + 1) == State(x2, x3, x0, x1);
    x1 := Ror3(Sum(x0, rk[k+16], x1, rk[k+17]));
    x0 := Ror5(Sum(x3, rk[k+14], x0, rk[k+15]));
    x3 := Rol9(Sum(x2, rk[k+12], x3, rk[k+13]));
    x2 := Ror3(Sum(x1, rk[k+22], x2, rk[k+23]));
    x1 := Ror5(Sum(x0, rk[k+20], x1, rk[k+21]));
    x0 := Rol9(Sum(x3, rk[k+18], x0, rk[k+19]));
    y := State(x0, x1, x2, x3);
  }

  method DecryptFour(x: State, rk: RoundKeys, r: nat) returns (y: State)
    requires r + 3 < 32
    ensures RoundsInverse(x, rk, r + 4) == RoundsInverse(y, rk, r)
  {
    FourMore(x, rk, r);
    hide RoundsInverse, Rol3, Ror3, Rol5, Ror5, Rol9, Ror9, Sum, Solve;
    var x0, x1, x2, x3 := x.w0, x.w1, x.w2, x.w3;
    var k := 6 * r;
    x0 := Solve(Ror9(x0), x3, rk[k+18], rk[k+19]);
    x1 := Solve(Rol5(x1), x0, rk[k+20], rk[k+21]);
    x2 := Solve(Rol3(x2), x1, rk[k+22], rk[k+23]);
    x3 := Solve(Ror9(x3), x2, rk[k+12], rk[k+13]);
    x0 := Solve(Rol5(x0), x3, rk[k+14], rk[k+15]);
    x1 := Solve(Rol3(x1), x0, rk[k+16], rk[k+17]);
    x2 := Solve(Ror9(x2), x1, rk[k+6], rk[k+7]);
    x3 := Solve(Rol5(x3), x2, rk[k+8], rk[k+9]);
    x0 := Solve(Rol3(x0), x3, rk[k+10], rk[k+11]);
    x1 := Solve(Ror9(x1), x0, rk[k], rk[k+1]);
    x2 := Solve(Rol5(x2), x1, rk[k+2], rk[k+3]);
    x3 := Solve(Rol3(x3), x2, rk[k+4], rk[k+5]);
    y := State(x0, x1, x2, x3);
  }

  // ----- the cipher on blocks -----

  function Load(b: Block): State {
    State(LoadWord(b[..4]), LoadWord(b[4..8]), LoadWord(b[8..12]), LoadWord(b[12..]))
  }

  function Store(x: State): Block {
    StoreWord(x.w0) + StoreWord(x.w1) + StoreWord(x.w2) + StoreWord(x.w3)
  }

  lemma StoreIsInverse(b: Block, x: State)
    ensures Store(Load(b)) == b && Load(Store(x)) == x
  {
    hide LoadWord, StoreWord;
    StoreLoad(b[..4]);
    StoreLoad(b[4..8]);
    StoreLoad(b[8..12]);
    StoreLoad(b[12..]);
    LoadStore(x.w0);
    LoadStore(x.w1);
    LoadStore(x.w2);
    LoadStore(x.w3);
    var s := Store(x);
    assert s[..4] == StoreWord(x.w0) && s[4..8] == StoreWord(x.w1);
    assert s[8..12] == StoreWord(x.w2) && s[12..] == StoreWord(x.w3);
  }

  function Encrypt(rk: RoundKeys, round: nat, b: Block): Block {
    Store(Rounds(Load(b), rk, RoundCount(round)))
  }

  function Decrypt(rk: RoundKeys, round: nat, b: Block): Block {
    Store(RoundsInverse(Load(b), rk, RoundCount(round)))
  }

  /** Each direction undoes the other for every block, round-key array and round field. */
  lemma CipherIsInverted(rk: RoundKeys, round: nat, b: Block)
    ensures Decrypt(rk, round, Encrypt(rk, round, b)) == b
    ensures Encrypt(rk, round, Decrypt(rk, round, b)) == b
  {
    hide Rounds, RoundsInverse, Load, Store;
    RoundsAreInverted(Load(b), rk, RoundCount(round));
    StoreIsInverse(b, Rounds(Load(b), rk, RoundCount(round)));
    StoreIsInverse(b, RoundsInverse(Load(b), rk, RoundCount(round)));
  }

  /** LEA under one key, as a cipher for the block modes. */
  function KeyedCipher(rk: RoundKeys, round: nat): Cipher {
    Cipher((b: Block) => Encrypt(rk, round, b), (b: Block) => Decrypt(rk, round, b))
  }

  lemma KeyedCipherInverts(rk: RoundKeys, round: nat)
    ensures Inverse(KeyedCipher(rk, round))
  {
    hide Encrypt, Decrypt;
    forall b: Block ensures Decrypt(rk, round, Encrypt(rk, round, b)) == b {
      CipherIsInverted(rk, round, b);
    }
  }

  method EncryptBlock(pt: Block, rk: RoundKeys, round: nat) returns (ct: Block)
    ensures ct == Encrypt(rk, round, pt)
  {
    NoRounds(Load(pt), rk);
    hide Rounds, Load, Store;
    ghost var w := Load(pt);
    var x := Load(pt);
    x := EncryptFour(x, rk, 0, w);
    x := EncryptFour(x, rk, 4, w);
    x := EncryptFour(x, rk, 8, w);
    x := EncryptFour(x, rk, 12, w);
    x := EncryptFour(x, rk, 16, w);
    x := EncryptFour(x, rk, 20, w);
    if round > 24 {
      x := EncryptFour(x, rk, 24, w);
    }
    if round > 28 {
      x := EncryptFour(x, rk, 28, w);
    }
    ct := Store(x);
  }

  method DecryptBlock(ct: Block, rk: RoundKeys, round: nat) returns (pt: Block)
    ensures pt == Decrypt(rk, round, ct)
  {
    hide RoundsInverse, Load, Store;
    var x := Load(ct);
    if round > 28 {
      x := DecryptFour(x, rk, 28);
    }
    if round > 24 {
      x := DecryptFour(x, rk, 24);
    }
    x := DecryptFour(x, rk, 20);
    x := DecryptFour(x, rk, 16);
    x := DecryptFour(x, rk, 12);
    x := DecryptFour(x, rk, 8);
    x := DecryptFour(x, rk, 4);
    x := DecryptFour(x, rk, 0);
    NoRounds(x, rk);
    pt := Store(x);
  }
}
