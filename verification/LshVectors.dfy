/** LSH-256 word by word: the steps, the message expansion and the loaded words with the rotation amounts, the
    word positions and the constants as numbers, and the initial values computed from them. */
module LshVectors {
  import opened Bytes
  import opened Lsh256
  import opened LshHash
  import opened LshWords
  import opened Words
  import GfMul

  function Half8(e: Eight): Half {
    [e.w0, e.w1, e.w2, e.w3, e.w4, e.w5, e.w6, e.w7]
  }

  function Side(a: Eight, b: Eight): Pair {
    Pair(Half8(a), Half8(b))
  }

  // ----- one step -----

  lemma Display(h: Half)
    ensures h == [h[0], h[1], h[2], h[3], h[4], h[5], h[6], h[7]]
  {
  }

  lemma MixWord(t: Pair, c: Half, alpha: nat, beta: nat, i: nat)
    requires Amount(alpha) && Amount(beta) && i < 8
    ensures var a := XorWord(Rotl(Add(t.l[i], t.r[i]), alpha), c[i]);
      var b := Rotl(Add(t.r[i], a), beta);
      Mix(t, c, alpha, beta).l[i] == Add(a, b) && Mix(t, c, alpha, beta).r[i] == Rotl(b, Gamma(i))
  {
    hide Add, XorWord, Rotl, Gamma;
  }

  lemma Positions(t: Pair)
    ensures WordPerm(t) == Pair([t.l[6], t.l[4], t.l[5], t.l[7], t.r[4], t.r[7], t.r[6], t.r[5]],
                                [t.l[2], t.l[0], t.l[1], t.l[3], t.r[0], t.r[3], t.r[2], t.r[1]])
  {
    Display(WordPerm(t).l);
    Display(WordPerm(t).r);
  }

  lemma EvenIs(l: Eight, r: Eight, c: Eight)
    ensures WordPerm(Mix(Side(l, r), Half8(c), 29, 1)) == Side(Even(l, r, c).0, Even(l, r, c).1)
  {
    hide Add, XorWord, Rotl1, Rotl5, Rotl8, Rotl16, Rotl17, Rotl24, Rotl29, Mix, WordPerm;
    var t, d := Side(l, r), Half8(c);
    MixWord(t, d, 29, 1, 0);
    MixWord(t, d, 29, 1, 1);
    MixWord(t, d, 29, 1, 2);
    MixWord(t, d, 29, 1, 3);
    MixWord(t, d, 29, 1, 4);
    MixWord(t, d, 29, 1, 5);
    MixWord(t, d, 29, 1, 6);
    MixWord(t, d, 29, 1, 7);
    Positions(Mix(t, d, 29, 1));
  }

  lemma OddIs(l: Eight, r: Eight, c: Eight)
    ensures WordPerm(Mix(Side(l, r), Half8(c), 5, 17)) == Side(Odd(l, r, c).0, Odd(l, r, c).1)
  {
    hide Add, XorWord, Rotl1, Rotl5, Rotl8, Rotl16, Rotl17, Rotl24, Rotl29, Mix, WordPerm;
    var t, d := Side(l, r), Half8(c);
    MixWord(t, d, 5, 17, 0);
    MixWord(t, d, 5, 17, 1);
    MixWord(t, d, 5, 17, 2);
    MixWord(t, d, 5, 17, 3);
    MixWord(t, d, 5, 17, 4);
    MixWord(t, d, 5, 17, 5);
    MixWord(t, d, 5, 17, 6);
    MixWord(t, d, 5, 17, 7);
    Positions(Mix(t, d, 5, 17));
  }

  // ----- all steps, with the constants of the library -----

  const STEP_CONSTANTS: StepConstants := seq(26, j requires 0 <= j < 26 => Half8(Row(j)))

  lemma BothIs(a: Eight, b: Eight)
    ensures XorHalf(Half8(a), Half8(b)) == Half8(Both(a, b))
  {
    hide XorWord;
    Display(XorHalf(Half8(a), Half8(b)));
  }

  lemma MoreIs(newer: Eight, older: Eight)
    ensures ExpandHalf(Half8(newer), Half8(older)) == Half8(More(newer, older))
  {
    hide Add;
    Display(ExpandHalf(Half8(newer), Half8(older)));
  }

  /** The steps of the hash, from the first row of the table on, with their expanded messages. */
  lemma {:induction false} TwosAreSteps(s: State, k: nat)
    requires k <= 13 && s.c == Row(0)
    ensures var u, m := Twos(s, k), (Side(s.m0, s.m1), Side(s.n0, s.n1));
      && Steps(Side(s.l, s.r), m, STEP_CONSTANTS, 2 * k) == Side(u.l, u.r)
      && Msg(m, 2 * k) == Side(u.m0, u.m1) && Msg(m, 2 * k + 1) == Side(u.n0, u.n1)
      && (k < 13 ==> u.c == Row(2 * k))
  {
    hide Row, Steps, Msg, Even, Odd, Both, More, Half8, Generated;
    if k == 0 {
      FirstSteps(Side(s.l, s.r), (Side(s.m0, s.m1), Side(s.n0, s.n1)), STEP_CONSTANTS);
    } else {
      TwosAreSteps(s, k - 1);
      TableRow(2 * k - 2);
      TableRow(2 * k - 1);
      TwoAreSteps(Twos(s, k - 1), Side(s.l, s.r), (Side(s.m0, s.m1), Side(s.n0, s.n1)), STEP_CONSTANTS, 2 * k - 2);
    }
  }

  /** Every row of the table is generated from the one before it. */
  lemma TableRow(j: nat)
    requires j < 26
    ensures STEP_CONSTANTS[j] == Half8(Row(j))
    ensures j < 25 ==> Row(j + 1) == Generated(Row(j))
  {
    hide Row, Half8, Generated;
    if j < 25 {
      RowsAreGenerated(j);
    }
  }

  lemma TwoAreSteps(s: State, t: Pair, m: (Pair, Pair), sc: StepConstants, j: nat)
    requires j % 2 == 0 && j < 26 && sc[j] == Half8(s.c) && sc[j+1] == Half8(Generated(s.c))
    requires Steps(t, m, sc, j) == Side(s.l, s.r)
    requires Msg(m, j) == Side(s.m0, s.m1) && Msg(m, j + 1) == Side(s.n0, s.n1)
    ensures Steps(t, m, sc, j + 2) == Side(TwoSteps(s).l, TwoSteps(s).r)
    ensures Msg(m, j + 2) == Side(TwoSteps(s).m0, TwoSteps(s).m1)
    ensures Msg(m, j + 3) == Side(TwoSteps(s).n0, TwoSteps(s).n1)
  {
    hide Generated, Even, Odd, Both, More, Half8, Mix, WordPerm, XorHalf, ExpandHalf;
    var a, b := Both(s.l, s.m0), Both(s.r, s.m1);
    var e := Even(a, b, s.c);
    BothIs(s.l, s.m0);
    BothIs(s.r, s.m1);
    EvenIs(a, b, s.c);
    BothIs(e.0, s.n0);
    BothIs(e.1, s.n1);
    OddIs(Both(e.0, s.n0), Both(e.1, s.n1), Generated(s.c));
    MoreIs(s.n0, s.m0);
    MoreIs(s.n1, s.m1);
    MoreIs(More(s.n0, s.m0), s.n0);
    MoreIs(More(s.n1, s.m1), s.n1);
  }

  // ----- words and octets -----

  lemma HalfWord(block: seq<bv8>, h: nat, i: nat)
    requires |block| == 128 && h < 4 && i < 8
    ensures HalfOf(block, h)[i] ==
      LoadWord([block[32*h+4*i], block[32*h+4*i+1], block[32*h+4*i+2], block[32*h+4*i+3]])
  {
    hide LoadWord;
    var n := 32 * h + 4 * i;
    assert block[n..n+4] == [block[n], block[n+1], block[n+2], block[n+3]];
  }

  /** A block is loaded word by word: left and right half of the even message, then of the odd one. */
  lemma LoadedWords(block: seq<bv8>, i: nat)
    requires |block| == 128 && i < 8
    ensures var m := Loaded(block);
      && m.0.l[i] == LoadWord([block[4*i], block[4*i+1], block[4*i+2], block[4*i+3]])
      && m.0.r[i] == LoadWord([block[4*i+32], block[4*i+33], block[4*i+34], block[4*i+35]])
      && m.1.l[i] == LoadWord([block[4*i+64], block[4*i+65], block[4*i+66], block[4*i+67]])
      && m.1.r[i] == LoadWord([block[4*i+96], block[4*i+97], block[4*i+98], block[4*i+99]])
  {
    HalfWord(block, 0, i);
    HalfWord(block, 1, i);
    HalfWord(block, 2, i);
    HalfWord(block, 3, i);
    hide LoadWord, HalfOf;
  }

  /** Octet k of word i of a whole digest, little-endian. */
  lemma StoredOctet(h: Half, i: nat, k: nat)
    requires i < 8 && k < 4
    ensures StoreHalf(h)[4*i+k] == StoreWord(h[i])[k]
  {
    hide StoreWord;
    match i
    case 0 => case 1 => case 2 => case 3 => case 4 => case 5 => case 6 => case _ =>
  }

  /** The last octet of a digest keeps its bits but the lowest ones that are not wanted. */
  lemma LastOctetBits(h: seq<bv8>, v: Variant, i: nat)
    requires |h| == 32 && IsVariant(v) && i < 8
    ensures Truncated(h, v)[..v.len-1] == h[..v.len-1]
    ensures GfMul.BitOf(Truncated(h, v)[v.len-1], i) == (i < 8 - v.unused && GfMul.BitOf(h[v.len-1], i))
  {
    if v.unused == 0 {
      assert h[..v.len][..v.len-1] == h[..v.len-1];
    } else {
      LeadingBit(h[v.len-1], 8 - v.unused, i);
      hide Leading, GfMul.BitOf;
    }
  }

  lemma LeadingBit(b: bv8, n: nat, i: nat)
    requires n < 8 && i < 8
    ensures GfMul.BitOf(Leading(b, n), i) == (i < n && GfMul.BitOf(b, i))
  {
    match i
    case 0 => case 1 => case 2 => case 3 => case 4 => case 5 => case 6 => case _ =>
  }

  /** The fields of a type. */
  lemma TypeFields(t: AlgType, len: nat, family: nat, unused: nat)
    requires len < 65536 && family < 256 && t == len + 65536 * family + 16777216 * unused
    ensures Len(t) == len && Unused(t) == unused
    ensures IsLsh256(t) <==> family % 16 == 0
    ensures Supported(t) <==> family % 16 == 0 && 1 <= len <= 32
    ensures Refused(t) <==> len > 32 || t == 0
  {
    assert t / 65536 == family + 256 * unused;
    assert (family + 256 * unused) % 16 == family % 16;
  }

  // ----- known values -----

  lemma Convert256(n: nat)
    requires n == 256
    ensures n as bv32 == 256
  {
  }

  lemma Convert224(n: nat)
    requires n == 224
    ensures n as bv32 == 224
  {
  }

  lemma BitsWanted(t: AlgType)
    requires t == 0x20 || t == 0x1C
    ensures LenBits(t) == if t == 0x20 then 256 else 224
  {
    if t == 0x20 {
      Convert256((8 * Len(t) - Unused(t)) % WRAP);
    } else {
      Convert224((8 * Len(t) - Unused(t)) % WRAP);
    }
  }

  lemma SeedIs(t: AlgType)
    requires t == 0x20 || t == 0x1C
    ensures Seed(t) == Side(Eight(32, if t == 0x20 then 256 else 224, 0, 0, 0, 0, 0, 0), NONE)
  {
    hide LenBits;
    BitsWanted(t);
  }

  lemma NothingIs()
    ensures Side(NONE, NONE) == NOTHING
  {
  }

  lemma Seed256Steps(s: State)
    requires s == State(Eight(32, 256, 0, 0, 0, 0, 0, 0), NONE, Row(0), NONE, NONE, NONE, NONE)
    ensures Twos(s, 13).l == Eight(
      0x46a10f1f, 0xfddce486, 0xb41443a8, 0x198e6b9d, 0x3304388d, 0xb0f5a3c7, 0xb36061c4, 0x7adbd553)
    ensures Twos(s, 13).r == Eight(
      0x105d5378, 0x2f74de54, 0x5c2f2d95, 0xf2553fbe, 0x8051357a, 0x138668c8, 0x47aa4484, 0xe01afb41)
  {
    hide Twos, TwoSteps, Row;
    Seed256Half(s);
    Seed256Rest(Twos(s, 6));
    TwosConcat(s, 6, 7);
  }

  lemma Seed224Steps(s: State)
    requires s == State(Eight(32, 224, 0, 0, 0, 0, 0, 0), NONE, Row(0), NONE, NONE, NONE, NONE)
    ensures Twos(s, 13).l == Eight(
      0x068608d3, 0x62d8f7a7, 0xd76652ab, 0x4c600a43, 0xbdc40aa8, 0x1eca0b68, 0xda1a89be, 0x3147d354)
    ensures Twos(s, 13).r == Eight(
      0x707eb4f9, 0xf65b3862, 0x6b0b2abe, 0x56b8ec0a, 0xcf237286, 0xee0d1727, 0x33636595, 0x8bb8d05f)
  {
    hide Twos, TwoSteps, Row;
    Seed224Half(s);
    Seed224Rest(Twos(s, 6));
    TwosConcat(s, 6, 7);
  }

  lemma UnitColumns()
    ensures Even(Eight(1, 0, 0, 0, 0, 0, 0, 0), NONE, NONE) == (NONE, Eight(0, 0x60000000, 0, 0, 0x40000000, 0, 0, 0))
    ensures Odd(Eight(1, 0, 0, 0, 0, 0, 0, 0), NONE, NONE) == (NONE, Eight(0, 0x00400020, 0, 0, 0x00400000, 0, 0, 0))
  {
  }

  /** The image of one bit under an even and under an odd step without a message and a constant. */
  lemma UnitStep(t: Pair, m: (Pair, Pair), sc: StepConstants, j: nat)
    requires j < 26 && sc[j] == ZERO_HALF && m == (NOTHING, NOTHING)
    requires t == Pair([1, 0, 0, 0, 0, 0, 0, 0], ZERO_HALF)
    ensures Step(t, m, sc, j) ==
      if j % 2 == 0 then Pair(ZERO_HALF, [0, 0x60000000, 0, 0, 0x40000000, 0, 0, 0])
      else Pair(ZERO_HALF, [0, 0x00400020, 0, 0, 0x00400000, 0, 0, 0])
  {
    hide Msg, MsgAdd, Mix, WordPerm, Even, Odd;
    NoMessage(m, j);
    NothingAdded(t);
    NothingIs();
    EvenIs(Eight(1, 0, 0, 0, 0, 0, 0, 0), NONE, NONE);
    OddIs(Eight(1, 0, 0, 0, 0, 0, 0, 0), NONE, NONE);
    UnitColumns();
  }

  /** The types of 32 and of 28 octets have the stored initial values, and these are the ones that the computation for
      the other types gives with the table of step constants. */
  lemma StoredInitialValues(t: AlgType, sc: StepConstants)
    requires t == 0x20 || t == 0x1C
    ensures InitialValue(sc, t) == if t == 0x20 then IV_256 else IV_224
    ensures InitialValue(sc, t) == Stirred(Seed(t), STEP_CONSTANTS, NUM_STEPS)
  {
    hide Steps, Stirred, Msg, Row, TwoSteps, Twos, Seed, STEP_CONSTANTS;
    var s := State(Eight(32, if t == 0x20 then 256 else 224, 0, 0, 0, 0, 0, 0), NONE, Row(0), NONE, NONE, NONE, NONE);
    SeedIs(t);
    NothingIs();
    if t == 0x20 {
      Seed256Steps(s);
    } else {
      Seed224Steps(s);
    }
    TwosAreSteps(s, 13);
    StirredIsSteps(Seed(t), STEP_CONSTANTS, NUM_STEPS);
  }

  lemma AbcPadded()
    ensures Padded([0x61, 0x62, 0x63], 0, 0) == [0x61, 0x62, 0x63, 0x80] + Zeros(124)
  {
    assert Marked(0, 0) == 0x80;
    hide Marked;
  }

  lemma AbcWord(block: seq<bv8>, h: nat, i: nat)
    requires block == [0x61, 0x62, 0x63, 0x80] + Zeros(124) && h < 4 && i < 8
    ensures HalfOf(block, h)[i] == if h == 0 && i == 0 then 0x80636261 else 0
  {
    assert LoadWord([0x61, 0x62, 0x63, 0x80]) == 0x80636261 && LoadWord([0, 0, 0, 0]) == 0;
    hide LoadWord, HalfOf;
    HalfWord(block, h, i);
  }

  lemma AbcHalves(block: seq<bv8>, h: nat)
    requires block == [0x61, 0x62, 0x63, 0x80] + Zeros(124) && h < 4
    ensures HalfOf(block, h) == [if h == 0 then 0x80636261 else 0, 0, 0, 0, 0, 0, 0, 0]
  {
    hide HalfOf;
    forall i: nat | i < 8 ensures HalfOf(block, h)[i] == if h == 0 && i == 0 then 0x80636261 else 0 {
      AbcWord(block, h, i);
    }
  }

  lemma AbcLoaded(block: seq<bv8>)
    requires block == [0x61, 0x62, 0x63, 0x80] + Zeros(124)
    ensures Loaded(block) == (Side(Eight(0x80636261, 0, 0, 0, 0, 0, 0, 0), NONE), NOTHING)
  {
    hide HalfOf;
    AbcHalves(block, 0);
    AbcHalves(block, 1);
    AbcHalves(block, 2);
    AbcHalves(block, 3);
  }

  lemma AbcSteps(s: State)
    requires s == State(
      Eight(0x46a10f1f, 0xfddce486, 0xb41443a8, 0x198e6b9d, 0x3304388d, 0xb0f5a3c7, 0xb36061c4, 0x7adbd553),
      Eight(0x105d5378, 0x2f74de54, 0x5c2f2d95, 0xf2553fbe, 0x8051357a, 0x138668c8, 0x47aa4484, 0xe01afb41),
      Row(0), Eight(0x80636261, 0, 0, 0, 0, 0, 0, 0), NONE, NONE, NONE)
    ensures var t := Twos(s, 13);
      Both(Both(t.l, t.m0), Both(t.r, t.m1)) == Eight(
        0x5d36bf5f, 0x6a44a5ae, 0x2bc55370, 0x774d4057, 0x485f7aa0, 0x96c1f7a1, 0xba98083a, 0x4147711b)
  {
    hide Twos, TwoSteps, Row;
    AbcHalf(s);
    AbcRest(Twos(s, 6));
    TwosConcat(s, 6, 7);
  }

  lemma AbcCompressed(block: seq<bv8>)
    requires block == [0x61, 0x62, 0x63, 0x80] + Zeros(124)
    ensures var t := Compress(IV_256, block, STEP_CONSTANTS);
      XorHalf(t.l, t.r) == Half8(Eight(
        0x5d36bf5f, 0x6a44a5ae, 0x2bc55370, 0x774d4057, 0x485f7aa0, 0x96c1f7a1, 0xba98083a, 0x4147711b))
  {
    hide Steps, Msg, Row, TwoSteps, Twos, STEP_CONSTANTS, XorHalf, Both, Half8, Loaded;
    var s := State(
      Eight(0x46a10f1f, 0xfddce486, 0xb41443a8, 0x198e6b9d, 0x3304388d, 0xb0f5a3c7, 0xb36061c4, 0x7adbd553),
      Eight(0x105d5378, 0x2f74de54, 0x5c2f2d95, 0xf2553fbe, 0x8051357a, 0x138668c8, 0x47aa4484, 0xe01afb41),
      Row(0), Eight(0x80636261, 0, 0, 0, 0, 0, 0, 0), NONE, NONE, NONE);
    AbcSteps(s);
    AbcLoaded(block);
    StoredIs(s);
    NothingIs();
    TwosAreSteps(s, 13);
    var t := Twos(s, 13);
    BothIs(t.l, t.m0);
    BothIs(t.r, t.m1);
    BothIs(Both(t.l, t.m0), Both(t.r, t.m1));
  }

  lemma StoredIs(s: State)
    requires s.l == Eight(
      0x46a10f1f, 0xfddce486, 0xb41443a8, 0x198e6b9d, 0x3304388d, 0xb0f5a3c7, 0xb36061c4, 0x7adbd553)
    requires s.r == Eight(
      0x105d5378, 0x2f74de54, 0x5c2f2d95, 0xf2553fbe, 0x8051357a, 0x138668c8, 0x47aa4484, 0xe01afb41)
    ensures IV_256 == Side(s.l, s.r)
  {
  }

  lemma AbcStored()
    ensures StoreHalf(Half8(Eight(
      0x5d36bf5f, 0x6a44a5ae, 0x2bc55370, 0x774d4057, 0x485f7aa0, 0x96c1f7a1, 0xba98083a, 0x4147711b))) ==
      [0x5f, 0xbf, 0x36, 0x5d, 0xae, 0xa5, 0x44, 0x6a, 0x70, 0x53, 0xc5, 0x2b, 0x57, 0x40, 0x4d, 0x77,
       0xa0, 0x7a, 0x5f, 0x48, 0xa1, 0xf7, 0xc1, 0x96, 0x3a, 0x08, 0x98, 0xba, 0x1b, 0x71, 0x47, 0x41]
  {
  }

  lemma AbcVariant(v: Variant)
    requires v == VariantOf(STEP_CONSTANTS, 0x20)
    ensures v == Variant(STEP_CONSTANTS, IV_256, 32, 0) && IsVariant(v)
  {
  }

  lemma OneBlock(t: Pair, block: seq<bv8>, sc: StepConstants)
    requires |block| == 128
    ensures Blocks(t, block, sc) == Compress(t, block, sc)
  {
    assert [] + block == block;
    BlocksSnoc(t, [], block, sc);
    hide Compress;
  }

  /** The LSH-256-256 digest of the three octets of "abc". */
  lemma DigestOfAbc(v: Variant)
    requires v == VariantOf(STEP_CONSTANTS, 0x20)
    ensures IsVariant(v)
    ensures Hash(v, [0x61, 0x62, 0x63], 0, 0) ==
      [0x5f, 0xbf, 0x36, 0x5d, 0xae, 0xa5, 0x44, 0x6a, 0x70, 0x53, 0xc5, 0x2b, 0x57, 0x40, 0x4d, 0x77,
       0xa0, 0x7a, 0x5f, 0x48, 0xa1, 0xf7, 0xc1, 0x96, 0x3a, 0x08, 0x98, 0xba, 0x1b, 0x71, 0x47, 0x41]
  {
    hide StoreHalf, XorHalf, Compress, Padded, STEP_CONSTANTS, Zeros, Blocks, VariantOf, IV_256, Half8;
    AbcVariant(v);
    AbcPadded();
    var block := [0x61, 0x62, 0x63, 0x80] + Zeros(124);
    OneBlock(IV_256, block, v.sc);
    AbcCompressed(block);
    AbcStored();
  }
}
