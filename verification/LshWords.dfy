/** The steps of LSH-256 word by word, with the rotation amounts, the word positions and the constants as numbers, and
    values computed from them. */
module LshWords {
  import opened Words

  datatype Eight = Eight(w0: bv32, w1: bv32, w2: bv32, w3: bv32, w4: bv32, w5: bv32, w6: bv32, w7: bv32)

  // ----- one step -----

  /** Mix and word permutation of an even step. */
  function Even(l: Eight, r: Eight, c: Eight): (Eight, Eight) {
    var a0 := XorWord(Rotl29(Add(l.w0, r.w0)), c.w0);
    var a1 := XorWord(Rotl29(Add(l.w1, r.w1)), c.w1);
    var a2 := XorWord(Rotl29(Add(l.w2, r.w2)), c.w2);
    var a3 := XorWord(Rotl29(Add(l.w3, r.w3)), c.w3);
    var a4 := XorWord(Rotl29(Add(l.w4, r.w4)), c.w4);
    var a5 := XorWord(Rotl29(Add(l.w5, r.w5)), c.w5);
    var a6 := XorWord(Rotl29(Add(l.w6, r.w6)), c.w6);
    var a7 := XorWord(Rotl29(Add(l.w7, r.w7)), c.w7);
    var b0, b1, b2, b3 := Rotl1(Add(r.w0, a0)), Rotl1(Add(r.w1, a1)), Rotl1(Add(r.w2, a2)), Rotl1(Add(r.w3, a3));
    var b4, b5, b6, b7 := Rotl1(Add(r.w4, a4)), Rotl1(Add(r.w5, a5)), Rotl1(Add(r.w6, a6)), Rotl1(Add(r.w7, a7));
    (Eight(Add(a6, b6), Add(a4, b4), Add(a5, b5), Add(a7, b7), Rotl24(b4), b7, Rotl8(b6), Rotl16(b5)),
     Eight(Add(a2, b2), Add(a0, b0), Add(a1, b1), Add(a3, b3), b0, Rotl24(b3), Rotl16(b2), Rotl8(b1)))
  }

  /** Mix and word permutation of an odd step. */
  function Odd(l: Eight, r: Eight, c: Eight): (Eight, Eight) {
    var a0 := XorWord(Rotl5(Add(l.w0, r.w0)), c.w0);
    var a1 := XorWord(Rotl5(Add(l.w1, r.w1)), c.w1);
    var a2 := XorWord(Rotl5(Add(l.w2, r.w2)), c.w2);
    var a3 := XorWord(Rotl5(Add(l.w3, r.w3)), c.w3);
    var a4 := XorWord(Rotl5(Add(l.w4, r.w4)), c.w4);
    var a5 := XorWord(Rotl5(Add(l.w5, r.w5)), c.w5);
    var a6 := XorWord(Rotl5(Add(l.w6, r.w6)), c.w6);
    var a7 := XorWord(Rotl5(Add(l.w7, r.w7)), c.w7);
    var b0, b1, b2, b3 := Rotl17(Add(r.w0, a0)), Rotl17(Add(r.w1, a1)), Rotl17(Add(r.w2, a2)), Rotl17(Add(r.w3, a3));
    var b4, b5, b6, b7 := Rotl17(Add(r.w4, a4)), Rotl17(Add(r.w5, a5)), Rotl17(Add(r.w6, a6)), Rotl17(Add(r.w7, a7));
    (Eight(Add(a6, b6), Add(a4, b4), Add(a5, b5), Add(a7, b7), Rotl24(b4), b7, Rotl8(b6), Rotl16(b5)),
     Eight(Add(a2, b2), Add(a0, b0), Add(a1, b1), Add(a3, b3), b0, Rotl24(b3), Rotl16(b2), Rotl8(b1)))
  }

  // ----- the constants -----

  /** The table of step constants. */
  function Row(j: nat): Eight {
    match j
    case 0 => Eight(0x917caf90, 0x6c1b10a2, 0x6f352943, 0xcf778243, 0x2ceb7472, 0x29e96ff2, 0x8a9ba428, 0x2eeb2642)
    case 1 => Eight(0x0e2c4021, 0x872bb30e, 0xa45e6cb2, 0x46f9c612, 0x185fe69e, 0x1359621b, 0x263fccb2, 0x1a116870)
    case 2 => Eight(0x3a6c612f, 0xb2dec195, 0x02cb1f56, 0x40bfd858, 0x784684b6, 0x6cbb7d2e, 0x660c7ed8, 0x2b79d88a)
    case 3 => Eight(0xa6cd9069, 0x91a05747, 0xcdea7558, 0x00983098, 0xbecb3b2e, 0x2838ab9a, 0x728b573e, 0xa55262b5)
    case 4 => Eight(0x745dfa0f, 0x31f79ed8, 0xb85fce25, 0x98c8c898, 0x8a0669ec, 0x60e445c2, 0xfde295b0, 0xf7b5185a)
    case 5 => Eight(0xd2580983, 0x29967709, 0x182df3dd, 0x61916130, 0x90705676, 0x452a0822, 0xe07846ad, 0xaccd7351)
    case 6 => Eight(0x2a618d55, 0xc00d8032, 0x4621d0f5, 0xf2f29191, 0x00c6cd06, 0x6f322a67, 0x58bef48d, 0x7a40c4fd)
    case 7 => Eight(0x8beee27f, 0xcd8db2f2, 0x67f2c63b, 0xe5842383, 0xc793d306, 0xa15c91d6, 0x17b381e5, 0xbb05c277)
    case 8 => Eight(0x7ad1620a, 0x5b40a5bf, 0x5ab901a2, 0x69a7a768, 0x5b66d9cd, 0xfdee6877, 0xcb3566fc, 0xc0c83a32)
    case 9 => Eight(0x4c336c84, 0x9be6651a, 0x13baa3fc, 0x114f0fd1, 0xc240a728, 0xec56e074, 0x009c63c7, 0x89026cf2)
    case 10 => Eight(0x7f9ff0d0, 0x824b7fb5, 0xce5ea00f, 0x605ee0e2, 0x02e7cfea, 0x43375560, 0x9d002ac7, 0x8b6f5f7b)
    case 11 => Eight(0x1f90c14f, 0xcdcb3537, 0x2cfeafdd, 0xbf3fc342, 0xeab7b9ec, 0x7a8cb5a3, 0x9d2af264, 0xfacedb06)
    case 12 => Eight(0xb052106e, 0x99006d04, 0x2bae8d09, 0xff030601, 0xa271a6d6, 0x0742591d, 0xc81d5701, 0xc9a9e200)
    case 13 => Eight(0x02627f1e, 0x996d719d, 0xda3b9634, 0x02090800, 0x14187d78, 0x499b7624, 0xe57458c9, 0x738be2c9)
    case 14 => Eight(0x64e19d20, 0x06df0f36, 0x15d1cb0e, 0x0b110802, 0x2c95f58c, 0xe5119a6d, 0x59cd22ae, 0xff6eac3c)
    case 15 => Eight(0x467ebd84, 0xe5ee453c, 0xe79cd923, 0x1c190a0d, 0xc28b81b8, 0xf6ac0852, 0x26efd107, 0x6e1ae93b)
    case 16 => Eight(0xc53c41ca, 0xd4338221, 0x8475fd0a, 0x35231729, 0x4e0d3a7a, 0xa2b45b48, 0x16c0d82d, 0x890424a9)
    case 17 => Eight(0x017e0c8f, 0x07b5a3f5, 0xfa73078e, 0x583a405e, 0x5b47b4c8, 0x570fa3ea, 0xd7990543, 0x8d28ce32)
    case 18 => Eight(0x7f8a9b90, 0xbd5998fc, 0x6d7a9688, 0x927a9eb6, 0xa2fc7d23, 0x66b38e41, 0x709e491a, 0xb5f700bf)
    case 19 => Eight(0x0a262c0f, 0x16f295b9, 0xe8111ef5, 0x0d195548, 0x9f79a0c5, 0x1a41cfa7, 0x0ee7638a, 0xacf7c074)
    case 20 => Eight(0x30523b19, 0x09884ecf, 0xf93014dd, 0x266e9d55, 0x191a6664, 0x5c1176c1, 0xf64aed98, 0xa4b83520)
    case 21 => Eight(0x828d5449, 0x91d71dd8, 0x2944f2d6, 0x950bf27b, 0x3380ca7d, 0x6d88381d, 0x4138868e, 0x5ced55c4)
    case 22 => Eight(0x0fe19dcb, 0x68f4f669, 0x6e37c8ff, 0xa0fe6e10, 0xb44b47b0, 0xf5c0558a, 0x79bf14cf, 0x4a431a20)
    case 23 => Eight(0xf17f68da, 0x5deb5fd1, 0xa600c86d, 0x9f6c7eb0, 0xff92f864, 0xb615e07f, 0x38d3e448, 0x8d5d3a6a)
    case 24 => Eight(0x70e843cb, 0x494b312e, 0xa6c93613, 0x0beb2f4f, 0x928b5d63, 0xcbf66035, 0x0cb82c80, 0xea97a4f7)
    case _ => Eight(0x592c0f3b, 0x947c5f77, 0x6fff49b9, 0xf71a7e5a, 0x1de8c0f5, 0xc2569600, 0xc4e4ac8c, 0x823c9ce1)
  }

  function NextWord(w: bv32): bv32 { Rotl8(w) + w }

  /** The generating function of the table. */
  function Generated(c: Eight): Eight {
    Eight(NextWord(c.w0), NextWord(c.w1), NextWord(c.w2), NextWord(c.w3),
          NextWord(c.w4), NextWord(c.w5), NextWord(c.w6), NextWord(c.w7))
  }

  /** Every row of the table is generated from the one before it. */
  lemma RowsAreGenerated(j: nat)
    requires j < 25
    ensures Row(j + 1) == Generated(Row(j))
  {
    match j
    case 0 => case 1 => case 2 => case 3 => case 4 => case 5 => case 6 => case 7 => case 8 => case 9 =>
    case 10 => case 11 => case 12 => case 13 => case 14 => case 15 => case 16 => case 17 => case 18 =>
    case 19 => case 20 => case 21 => case 22 => case 23 => case _ =>
  }

  // ----- all steps -----

  /** The chaining value, the row and the message for the next step, and the message for the one after. */
  datatype State = State(l: Eight, r: Eight, c: Eight, m0: Eight, m1: Eight, n0: Eight, n1: Eight)

  function Both(a: Eight, b: Eight): Eight {
    Eight(XorWord(a.w0, b.w0), XorWord(a.w1, b.w1), XorWord(a.w2, b.w2), XorWord(a.w3, b.w3),
          XorWord(a.w4, b.w4), XorWord(a.w5, b.w5), XorWord(a.w6, b.w6), XorWord(a.w7, b.w7))
  }

  /** Half an expanded message from the two before it. */
  function More(newer: Eight, older: Eight): Eight {
    Eight(Add(newer.w0, older.w3), Add(newer.w1, older.w2), Add(newer.w2, older.w0), Add(newer.w3, older.w1),
          Add(newer.w4, older.w7), Add(newer.w5, older.w4), Add(newer.w6, older.w5), Add(newer.w7, older.w6))
  }

  function TwoSteps(s: State): State {
    var t, d := Even(Both(s.l, s.m0), Both(s.r, s.m1), s.c), Generated(s.c);
    var u := Odd(Both(t.0, s.n0), Both(t.1, s.n1), d);
    var m0, m1 := More(s.n0, s.m0), More(s.n1, s.m1);
    State(u.0, u.1, Generated(d), m0, m1, More(m0, s.n0), More(m1, s.n1))
  }

  function Twos(s: State, k: nat): State {
    if k == 0 then s else TwoSteps(Twos(s, k - 1))
  }

  lemma TwosUnfold(s: State, k: nat)
    ensures Twos(s, 0) == s && Twos(s, k + 1) == TwoSteps(Twos(s, k))
  {
    hide TwoSteps;
  }

  lemma SixTwos(s: State)
    ensures Twos(s, 6) == TwoSteps(TwoSteps(TwoSteps(TwoSteps(TwoSteps(TwoSteps(s))))))
  {
    hide Twos, TwoSteps;
    TwosUnfold(s, 0);
    TwosUnfold(s, 1);
    TwosUnfold(s, 2);
    TwosUnfold(s, 3);
    TwosUnfold(s, 4);
    TwosUnfold(s, 5);
  }

  lemma SevenTwos(s: State)
    ensures Twos(s, 7) == TwoSteps(TwoSteps(TwoSteps(TwoSteps(TwoSteps(TwoSteps(TwoSteps(s)))))))
  {
    hide Twos, TwoSteps;
    SixTwos(s);
    TwosUnfold(s, 6);
  }

  lemma {:induction false} TwosConcat(s: State, k: nat, n: nat)
    ensures Twos(Twos(s, k), n) == Twos(s, k + n)
  {
    hide TwoSteps;
    if n > 0 {
      TwosConcat(s, k, n - 1);
    }
  }

  // ----- known values -----

  const NONE: Eight := Eight(0, 0, 0, 0, 0, 0, 0, 0)

  const MIDDLE_256: State :=
    State(Eight(0x7b404019, 0xb974a792, 0xfdc08499, 0x3f41bc52, 0x52217e2e, 0x6bb0ddcd, 0x1c7cc389, 0x3de8afe0),
      Eight(0xf88b8927, 0x37c44240, 0xf4caf36a, 0xf2ec1386, 0x69b52697, 0xf02c7e0d, 0xf99e4151, 0xd5b661a9),
      Eight(0xb052106e, 0x99006d04, 0x2bae8d09, 0xff030601, 0xa271a6d6, 0x0742591d, 0xc81d5701, 0xc9a9e200),
      NONE, NONE, NONE, NONE)

  lemma Seed256Half(s: State)
    requires s == State(Eight(32, 256, 0, 0, 0, 0, 0, 0), NONE, Row(0), NONE, NONE, NONE, NONE)
    ensures Twos(s, 6) == MIDDLE_256
  {
    SixTwos(s);
    hide Twos;
  }

  lemma Seed256Rest(s: State)
    requires s == MIDDLE_256
    ensures var t := Twos(s, 7);
      && t.l == Eight(0x46a10f1f, 0xfddce486, 0xb41443a8, 0x198e6b9d, 0x3304388d, 0xb0f5a3c7, 0xb36061c4, 0x7adbd553)
      && t.r == Eight(0x105d5378, 0x2f74de54, 0x5c2f2d95, 0xf2553fbe, 0x8051357a, 0x138668c8, 0x47aa4484, 0xe01afb41)
  {
    SevenTwos(s);
    hide Twos;
  }

  const MIDDLE_224: State :=
    State(Eight(0x9c69d0a6, 0xd54bce81, 0x8208f96a, 0x3d895c40, 0xc643e04e, 0xc6c2539b, 0x5f2df5d7, 0xbef44511),
      Eight(0xf1e34096, 0x8572ca7e, 0xd4448ff5, 0x60efba46, 0xf3b261d6, 0x2239dd25, 0x2bd3112f, 0x3c013754),
      Eight(0xb052106e, 0x99006d04, 0x2bae8d09, 0xff030601, 0xa271a6d6, 0x0742591d, 0xc81d5701, 0xc9a9e200),
      NONE, NONE, NONE, NONE)

  lemma Seed224Half(s: State)
    requires s == State(Eight(32, 224, 0, 0, 0, 0, 0, 0), NONE, Row(0), NONE, NONE, NONE, NONE)
    ensures Twos(s, 6) == MIDDLE_224
  {
    SixTwos(s);
    hide Twos;
  }

  lemma Seed224Rest(s: State)
    requires s == MIDDLE_224
    ensures var t := Twos(s, 7);
      && t.l == Eight(0x068608d3, 0x62d8f7a7, 0xd76652ab, 0x4c600a43, 0xbdc40aa8, 0x1eca0b68, 0xda1a89be, 0x3147d354)
      && t.r == Eight(0x707eb4f9, 0xf65b3862, 0x6b0b2abe, 0x56b8ec0a, 0xcf237286, 0xee0d1727, 0x33636595, 0x8bb8d05f)
  {
    SevenTwos(s);
    hide Twos;
  }

  const MIDDLE_ABC: State :=
    State(Eight(0xe2499a5c, 0x88370d85, 0xda013345, 0xb479f818, 0xe13e0159, 0xd21f93c8, 0xe919eb3d, 0x144d7fbb),
      Eight(0xbe3e3bb9, 0x06185893, 0x970a185f, 0x2d3507af, 0xe6cbbd38, 0xb8e58226, 0x7493f887, 0xab19dd6f),
      Eight(0xb052106e, 0x99006d04, 0x2bae8d09, 0xff030601, 0xa271a6d6, 0x0742591d, 0xc81d5701, 0xc9a9e200),
      Eight(0x8d967343, 0x03e1d7ca, 0x06362610, 0x0adec29c, 0x00000000, 0x00000000, 0x00000000, 0x00000000), NONE,
      Eight(0x15bd8538, 0x06362610, 0x0df9d5a4, 0x0df9d5a4, 0x00000000, 0x00000000, 0x00000000, 0x00000000), NONE)

  lemma AbcHalf(s: State)
    requires s ==
      State(Eight(0x46a10f1f, 0xfddce486, 0xb41443a8, 0x198e6b9d, 0x3304388d, 0xb0f5a3c7, 0xb36061c4, 0x7adbd553),
            Eight(0x105d5378, 0x2f74de54, 0x5c2f2d95, 0xf2553fbe, 0x8051357a, 0x138668c8, 0x47aa4484, 0xe01afb41),
      Row(0), Eight(0x80636261, 0, 0, 0, 0, 0, 0, 0), NONE, NONE, NONE)
    ensures Twos(s, 6) == MIDDLE_ABC
  {
    SixTwos(s);
    hide Twos;
  }

  lemma AbcRest(s: State)
    requires s == MIDDLE_ABC
    ensures var t := Twos(s, 7);
      && t.l == Eight(0x7650acc5, 0x872ba80c, 0x6f0fa0e4, 0x1193441c, 0x2137e7a2, 0x2c604b06, 0x381907fd, 0xb69e4744)
      && t.r == Eight(0x8bd0dde2, 0xaf5fcab2, 0x1add7081, 0x63ed709f, 0x69689d02, 0xbaa1bca7, 0x82810fc7, 0xf7d9365f)
      && t.m0 == Eight(0xa0b6ce78, 0x4230c710, 0x5e178315, 0x053374d4, 0x00000000, 0x00000000, 0x00000000, 0x00000000)
      && t.m1 == NONE
  {
    SevenTwos(s);
    hide Twos;
  }
}
