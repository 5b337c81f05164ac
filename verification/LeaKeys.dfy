/** The key schedule of LEA for keys of 16 octets, and a known value computed from it. */
module LeaKeys {
  import opened Bytes
  import opened Lea
  import opened Words

  function Rol2(x: bv32): bv32 { (x << 2) | (x >> 30) }
  function Rol4(x: bv32): bv32 { (x << 4) | (x >> 28) }
  function Rol6(x: bv32): bv32 { (x << 6) | (x >> 26) }
  function Rol11(x: bv32): bv32 { (x << 11) | (x >> 21) }

  /** The words of the round key after t, for the constant d. */
  function NextKey(t: State, d: bv32): State {
    State(Rotl1(Add(t.w0, d)), Rol3(Add(t.w1, Rotl1(d))), Rol6(Add(t.w2, Rol2(d))), Rol11(Add(t.w3, Rol3(d))))
  }

  /** Key words, and the four constants, each turned for the round it is used in next. */
  datatype Schedule = Schedule(t: State, d0: bv32, d1: bv32, d2: bv32, d3: bv32)

  function NextSchedule(s: Schedule): Schedule {
    Schedule(NextKey(s.t, s.d0), s.d1, s.d2, s.d3, Rol4(s.d0))
  }

  function Scheduled(s: Schedule, n: nat): Schedule {
    if n == 0 then s else NextSchedule(Scheduled(s, n - 1))
  }

  function Start(key: Block): Schedule {
    Schedule(Load(key), 0xc3efe9db, 0x88c4d604, 0xe789f229, 0xc6f98763)
  }

  function SixWords(t: State): seq<bv32> {
    [t.w0, t.w1, t.w2, t.w1, t.w3, t.w1]
  }

  /** The round keys of a 16-octet key: four words of schedule in six places, for 24 rounds. */
  function RoundKeysOf(key: Block): RoundKeys {
    seq(192, i requires 0 <= i < 192 =>
      if i < 144 then SixWords(Scheduled(Start(key), i / 6 + 1).t)[i%6] else 0)
  }

  // ----- the rounds with the schedule beside them -----

  datatype Progress = Progress(x: State, s: Schedule)

  /** A round under four key words. */
  function KeyedRound(x: State, t: State): State {
    State(Rol9(Sum(x.w0, t.w0, x.w1, t.w1)), Ror5(Sum(x.w1, t.w2, x.w2, t.w1)), Ror3(Sum(x.w2, t.w3, x.w3, t.w1)), x.w0)
  }

  function OneRound(p: Progress): Progress {
    var s := NextSchedule(p.s);
    Progress(KeyedRound(p.x, s.t), s)
  }

  function Progressed(p: Progress, n: nat): Progress {
    if n == 0 then p else OneRound(Progressed(p, n - 1))
  }

  lemma RoundKeyAt(key: Block, r: nat, i: nat)
    requires r < 24 && i < 6
    ensures RoundKeysOf(key)[6*r+i] == SixWords(Scheduled(Start(key), r + 1).t)[i]
  {
    hide Scheduled, SixWords;
    assert (6 * r + i) / 6 == r && (6 * r + i) % 6 == i;
  }

  lemma KeyedRoundIs(key: Block, r: nat, x: State)
    requires r < 24
    ensures Round(x, RoundKeysOf(key), r) == KeyedRound(x, Scheduled(Start(key), r + 1).t)
  {
    hide Scheduled, RoundKeysOf, Rol9, Ror5, Ror3, Sum;
    RoundKeyAt(key, r, 0);
    RoundKeyAt(key, r, 1);
    RoundKeyAt(key, r, 2);
    RoundKeyAt(key, r, 3);
    RoundKeyAt(key, r, 4);
    RoundKeyAt(key, r, 5);
  }

  lemma {:induction false} ProgressedIsRounds(b: Block, key: Block, n: nat)
    requires n <= 24
    ensures Progressed(Progress(Load(b), Start(key)), n) ==
      Progress(Rounds(Load(b), RoundKeysOf(key), n), Scheduled(Start(key), n))
  {
    hide NextSchedule, RoundKeysOf, Load, Round, KeyedRound;
    if n > 0 {
      ProgressedIsRounds(b, key, n - 1);
      KeyedRoundIs(key, n - 1, Rounds(Load(b), RoundKeysOf(key), n - 1));
    }
  }

  lemma Unfold(p: Progress, n: nat)
    ensures Progressed(p, 0) == p && Progressed(p, n + 1) == OneRound(Progressed(p, n))
  {
    hide OneRound;
  }

  lemma SixRounds(p: Progress)
    ensures Progressed(p, 6) == OneRound(OneRound(OneRound(OneRound(OneRound(OneRound(p))))))
  {
    hide Progressed, OneRound;
    Unfold(p, 0);
    Unfold(p, 1);
    Unfold(p, 2);
    Unfold(p, 3);
    Unfold(p, 4);
    Unfold(p, 5);
  }

  lemma {:induction false} ProgressedConcat(p: Progress, m: nat, n: nat)
    ensures Progressed(Progressed(p, m), n) == Progressed(p, m + n)
  {
    hide OneRound;
    if n > 0 {
      ProgressedConcat(p, m, n - 1);
    }
  }

  lemma VectorRounds(p: Progress)
    requires p == Progress(State(0x13121110, 0x17161514, 0x1b1a1918, 0x1f1e1d1c), Schedule(
      State(0x3c2d1e0f, 0x78695a4b, 0xb4a59687, 0xf0e1d2c3), 0xc3efe9db, 0x88c4d604, 0xe789f229, 0xc6f98763))
    ensures Progressed(p, 24).x == State(0x354ec89f, 0x18c6c628, 0xa7c73255, 0xfd8b6404)
  {
    hide Progressed;
    SixRounds(p);
    var a := Progressed(p, 6);
    SixRounds(a);
    var b := Progressed(a, 6);
    SixRounds(b);
    var c := Progressed(b, 6);
    SixRounds(c);
    ProgressedConcat(p, 6, 6);
    ProgressedConcat(p, 12, 6);
    ProgressedConcat(p, 18, 6);
  }

  lemma VectorBlocks(b: Block, key: Block, c: Block)
    requires b == [0x10, 0x11, 0x12, 0x13, 0x14, 0x15, 0x16, 0x17, 0x18, 0x19, 0x1a, 0x1b, 0x1c, 0x1d, 0x1e, 0x1f]
    requires key == [0x0f, 0x1e, 0x2d, 0x3c, 0x4b, 0x5a, 0x69, 0x78, 0x87, 0x96, 0xa5, 0xb4, 0xc3, 0xd2, 0xe1, 0xf0]
    requires c == [0x9f, 0xc8, 0x4e, 0x35, 0x28, 0xc6, 0xc6, 0x18, 0x55, 0x32, 0xc7, 0xa7, 0x04, 0x64, 0x8b, 0xfd]
    ensures Load(b) == State(0x13121110, 0x17161514, 0x1b1a1918, 0x1f1e1d1c)
    ensures Load(key) == State(0x3c2d1e0f, 0x78695a4b, 0xb4a59687, 0xf0e1d2c3)
    ensures Load(c) == State(0x354ec89f, 0x18c6c628, 0xa7c73255, 0xfd8b6404)
  {
  }

  /** The known value of LEA with a key of 16 octets, in both directions. */
  lemma Lea128Vector(b: Block, key: Block, c: Block)
    requires b == [0x10, 0x11, 0x12, 0x13, 0x14, 0x15, 0x16, 0x17, 0x18, 0x19, 0x1a, 0x1b, 0x1c, 0x1d, 0x1e, 0x1f]
    requires key == [0x0f, 0x1e, 0x2d, 0x3c, 0x4b, 0x5a, 0x69, 0x78, 0x87, 0x96, 0xa5, 0xb4, 0xc3, 0xd2, 0xe1, 0xf0]
    requires c == [0x9f, 0xc8, 0x4e, 0x35, 0x28, 0xc6, 0xc6, 0x18, 0x55, 0x32, 0xc7, 0xa7, 0x04, 0x64, 0x8b, 0xfd]
    ensures Encrypt(RoundKeysOf(key), 24, b) == c && Decrypt(RoundKeysOf(key), 24, c) == b
  {
    hide Progressed, Rounds, RoundsInverse, RoundKeysOf, Load, Store;
    VectorBlocks(b, key, c);
    VectorRounds(Progress(Load(b), Start(key)));
    ProgressedIsRounds(b, key, 24);
    StoreIsInverse(c, Rounds(Load(b), RoundKeysOf(key), 24));
    CipherIsInverted(RoundKeysOf(key), 24, b);
  }
}
