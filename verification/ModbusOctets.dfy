/** What the slave does with a request, said on octets and numbers alone: when it raises which exception, every bit
    and word of a reply, and every point of the tables afterwards. */
module ModbusOctets {
  import opened Bytes
  import opened ModbusPdu
  import opened ModbusRuns

  /** Two octets as a number, the high one first. */
  function Field(s: seq<bv8>, i: nat): nat
    requires i + 2 <= |s|
  {
    256 * Num(s[i]) + Num(s[i+1])
  }

  predicate IsException(pdu: seq<bv8>, code: bv8, reply: seq<bv8>)
    requires pdu != []
  {
    reply == [pdu[0] | 0x80, code]
  }

  /** Bit j of the reply is point j of the range, and the bits after the last are zero. */
  predicate HoldsBits(table: seq<bv8>, a: nat, q: nat, data: seq<bv8>) {
    && |data| == (q + 7) / 8 && a + q <= |table|
    && forall j | 0 <= j < 8 * |data| :: BitOf(data, j) == (j < q && table[a+j] != 0)
  }

  predicate HoldsWords(table: seq<Word16>, a: nat, q: nat, data: seq<bv8>) {
    && |data| == 2 * q && a + q <= |table|
    && forall j: nat | j < q :: Field(data, 2 * j) == table[a+j]
  }

  predicate BitsRead(table: seq<bv8>, pdu: seq<bv8>, reply: seq<bv8>)
    requires pdu != []
  {
    if |pdu| < 5 || Field(pdu, 3) == 0 || Field(pdu, 3) > 2000 then IsException(pdu, 3, reply)
    else if Field(pdu, 1) + Field(pdu, 3) > 128 then IsException(pdu, 2, reply)
    else
      && |reply| >= 2 && reply[0] == pdu[0] && Num(reply[1]) == |reply| - 2
      && HoldsBits(table, Field(pdu, 1), Field(pdu, 3), reply[2..])
  }

  predicate WordsRead(table: seq<Word16>, pdu: seq<bv8>, reply: seq<bv8>)
    requires pdu != []
  {
    if |pdu| < 5 || Field(pdu, 3) == 0 || Field(pdu, 3) > 125 then IsException(pdu, 3, reply)
    else if Field(pdu, 1) + Field(pdu, 3) > 128 then IsException(pdu, 2, reply)
    else
      && |reply| >= 2 && reply[0] == pdu[0] && Num(reply[1]) == |reply| - 2
      && HoldsWords(table, Field(pdu, 1), Field(pdu, 3), reply[2..])
  }

  /** One coil takes 0 or 1. */
  predicate CoilSet(s: seq<bv8>, pdu: seq<bv8>, s': seq<bv8>, reply: seq<bv8>)
    requires pdu != [] && |s| == 128
  {
    if |pdu| < 5 || (Field(pdu, 3) != 0 && Field(pdu, 3) != 65280) then s' == s && IsException(pdu, 3, reply)
    else if Field(pdu, 1) >= 128 then s' == s && IsException(pdu, 2, reply)
    else s' == s[Field(pdu, 1) := if Field(pdu, 3) == 0 then 0 else 1] && reply == pdu[..5]
  }

  predicate RegisterSet(s: seq<Word16>, pdu: seq<bv8>, s': seq<Word16>, reply: seq<bv8>)
    requires pdu != [] && |s| == 128
  {
    if |pdu| < 5 then s' == s && IsException(pdu, 3, reply)
    else if Field(pdu, 1) >= 128 then s' == s && IsException(pdu, 2, reply)
    else s' == s[Field(pdu, 1) := Field(pdu, 3)] && reply == pdu[..5]
  }

  predicate CoilsSet(s: seq<bv8>, pdu: seq<bv8>, s': seq<bv8>, reply: seq<bv8>)
    requires pdu != [] && |s| == 128
  {
    if |pdu| < 6 then s' == s && IsException(pdu, 3, reply)
    else
      var a, q, n := Field(pdu, 1), Field(pdu, 3), Num(pdu[5]);
      if q == 0 || q > 1968 || n != (q + 7) / 8 || |pdu| < 6 + n then s' == s && IsException(pdu, 3, reply)
      else if a + q > 128 then s' == s && IsException(pdu, 2, reply)
      else
        && reply == pdu[..5] && |s'| == 128
        && forall i | 0 <= i < 128 ::
          s'[i] == if a <= i < a + q then (if BitOf(pdu[6..], i - a) then 1 else 0) else s[i]
  }

  predicate RegistersSet(s: seq<Word16>, pdu: seq<bv8>, s': seq<Word16>, reply: seq<bv8>)
    requires pdu != [] && |s| == 128
  {
    if |pdu| < 6 then s' == s && IsException(pdu, 3, reply)
    else
      var a, q, n := Field(pdu, 1), Field(pdu, 3), Num(pdu[5]);
      if q == 0 || q > 123 || n != 2 * q || |pdu| < 6 + n then s' == s && IsException(pdu, 3, reply)
      else if a + q > 128 then s' == s && IsException(pdu, 2, reply)
      else
        && reply == pdu[..5] && |s'| == 128
        && forall i | 0 <= i < 128 ::
          s'[i] == if a <= i < a + q then Field(pdu, 6 + 2 * (i - a)) else s[i]
  }

  /** The reply to a request, and the tables after it. */
  predicate Handled(t: Tables, pdu: seq<bv8>, u: Tables, reply: seq<bv8>)
    requires pdu != [] && |t.coils| == |t.holding| == 128
  {
    if pdu[0] == 1 then u == t && BitsRead(t.coils, pdu, reply)
    else if pdu[0] == 2 then u == t && BitsRead(t.discrete, pdu, reply)
    else if pdu[0] == 3 then u == t && WordsRead(t.holding, pdu, reply)
    else if pdu[0] == 4 then u == t && WordsRead(t.inputs, pdu, reply)
    else if pdu[0] == 5 then u == t.(coils := u.coils) && CoilSet(t.coils, pdu, u.coils, reply)
    else if pdu[0] == 6 then u == t.(holding := u.holding) && RegisterSet(t.holding, pdu, u.holding, reply)
    else if pdu[0] == 15 then u == t.(coils := u.coils) && CoilsSet(t.coils, pdu, u.coils, reply)
    else if pdu[0] == 16 then u == t.(holding := u.holding) && RegistersSet(t.holding, pdu, u.holding, reply)
    else u == t && IsException(pdu, 1, reply)
  }

  /** An octet is the sum of its bits. */
  lemma OctetIsItsBits(b: bv8)
    ensures b == (if Bit(b, 0) then 1 else 0) + (if Bit(b, 1) then 2 else 0) + (if Bit(b, 2) then 4 else 0)
      + (if Bit(b, 3) then 8 else 0) + (if Bit(b, 4) then 16 else 0) + (if Bit(b, 5) then 32 else 0)
      + (if Bit(b, 6) then 64 else 0) + (if Bit(b, 7) then 128 else 0)
  {
  }

  lemma PackedHolds(table: seq<bv8>, a: nat, q: nat)
    requires a + q <= |table|
    ensures HoldsBits(table, a, q, Packed(Truth(table[a..a+q])))
  {
    hide Packed, BitOf;
    var bits := Truth(table[a..a+q]);
    forall j | 0 <= j < 8 * |Packed(bits)| ensures BitOf(Packed(bits), j) == (j < q && table[a+j] != 0) {
      PackedBits(bits, j);
    }
  }

  lemma {:induction false} WordAt(s: seq<bv8>, i: nat, n: nat, j: nat)
    requires i + 2 * n <= |s| && j < n
    ensures GetWords(s, i, n)[j] == Field(s, i + 2 * j)
  {
    hide Num;
    if j < n - 1 {
      WordAt(s, i, n - 1, j);
    }
  }

  lemma PutHolds(table: seq<Word16>, a: nat, q: nat)
    requires a + q <= |table|
    ensures HoldsWords(table, a, q, PutWords(table[a..a+q]))
  {
    hide PutWords, GetWords, Field;
    var words := table[a..a+q];
    var data := PutWords(words);
    assert data[0..0+2*|words|] == data;
    GetPutWords(data, 0, words);
    forall j: nat | j < q ensures Field(data, 2 * j) == table[a+j] {
      WordAt(data, 0, q, j);
    }
  }

  lemma BitsAnswered(t: Tables, pdu: seq<bv8>, coils: bool, a: Word16, q: Word16)
    requires ValidTables(t) && pdu != [] && a + q <= 128
    ensures var reply := Answer(t, ReadBits(coils, a, q), pdu);
      && |reply| >= 2 && reply[0] == pdu[0] && Num(reply[1]) == |reply| - 2
      && HoldsBits(if coils then t.coils else t.discrete, a, q, reply[2..])
  {
    hide Packed, Num, Octet, HoldsBits, IsBit, Truth;
    var table := if coils then t.coils else t.discrete;
    PackedHolds(table, a, q);
    NumOctet((q + 7) / 8);
    assert Answer(t, ReadBits(coils, a, q), pdu)[2..] == Packed(Truth(table[a..a+q]));
  }

  lemma WordsAnswered(t: Tables, pdu: seq<bv8>, holding: bool, a: Word16, q: Word16)
    requires ValidTables(t) && pdu != [] && a + q <= 128 && q <= 125
    ensures var reply := Answer(t, ReadWords(holding, a, q), pdu);
      && |reply| >= 2 && reply[0] == pdu[0] && Num(reply[1]) == |reply| - 2
      && HoldsWords(if holding then t.holding else t.inputs, a, q, reply[2..])
  {
    hide PutWords, Num, Octet, HoldsWords, IsBit;
    var table := if holding then t.holding else t.inputs;
    PutHolds(table, a, q);
    NumOctet(2 * q);
    assert Answer(t, ReadWords(holding, a, q), pdu)[2..] == PutWords(table[a..a+q]);
  }

  lemma BitsReadIs(t: Tables, pdu: seq<bv8>)
    requires ValidTables(t) && pdu != [] && (pdu[0] == 1 || pdu[0] == 2)
    ensures BitsRead(if pdu[0] == 1 then t.coils else t.discrete, pdu, Reply(t, pdu)) && After(t, pdu) == t
  {
    hide Answer, Num, HoldsBits, ValidTables;
    if |pdu| >= 5 && Decode(pdu).Asks? {
      BitsAnswered(t, pdu, pdu[0] == 1, Field(pdu, 1), Field(pdu, 3));
    }
  }

  lemma WordsReadIs(t: Tables, pdu: seq<bv8>)
    requires ValidTables(t) && pdu != [] && (pdu[0] == 3 || pdu[0] == 4)
    ensures WordsRead(if pdu[0] == 3 then t.holding else t.inputs, pdu, Reply(t, pdu)) && After(t, pdu) == t
  {
    hide Answer, Num, HoldsWords, ValidTables;
    if |pdu| >= 5 && Decode(pdu).Asks? {
      WordsAnswered(t, pdu, pdu[0] == 3, Field(pdu, 1), Field(pdu, 3));
    }
  }

  lemma CoilSetIs(t: Tables, pdu: seq<bv8>)
    requires ValidTables(t) && pdu != [] && pdu[0] == 5
    ensures var u := After(t, pdu);
      u == t.(coils := u.coils) && CoilSet(t.coils, pdu, u.coils, Reply(t, pdu))
  {
    hide Num, IsBit;
  }

  lemma RegisterSetIs(t: Tables, pdu: seq<bv8>)
    requires ValidTables(t) && pdu != [] && pdu[0] == 6
    ensures var u := After(t, pdu);
      u == t.(holding := u.holding) && RegisterSet(t.holding, pdu, u.holding, Reply(t, pdu))
  {
    hide Num, IsBit;
  }

  lemma OctetOfNum(b: bv8)
    ensures Octet(Num(b)) == b
  {
    NatToOctet(b, Num(b) % 256);
  }

  lemma PutWordOf(x: nat, y: nat)
    requires x < 256 && y < 256
    ensures PutWord(256 * x + y) == [Octet(x), Octet(y)]
  {
    hide Octet;
    assert (256 * x + y) / 256 == x;
    SameOctet(256 * x + y, y);
  }

  lemma SameOctet(m: nat, n: nat)
    requires m % 256 == n % 256
    ensures Octet(m) == Octet(n)
  {
  }

  /** A word read from two octets and put back gives them. */
  lemma PutGet(s: seq<bv8>, i: nat)
    requires i + 2 <= |s|
    ensures PutWord(GetWord(s, i)) == s[i..i+2]
  {
    hide Num, Octet, PutWord;
    PutWordOf(Num(s[i]), Num(s[i+1]));
    OctetOfNum(s[i]);
    OctetOfNum(s[i+1]);
  }

  lemma Echo(pdu: seq<bv8>)
    requires |pdu| >= 5
    ensures [pdu[0]] + PutWord(GetWord(pdu, 1)) + PutWord(GetWord(pdu, 3)) == pdu[..5]
  {
    hide PutWord, GetWord;
    PutGet(pdu, 1);
    PutGet(pdu, 3);
  }

  lemma CoilsWritten(t: Tables, data: seq<bv8>, a: nat, q: nat)
    requires ValidTables(t) && q <= 8 * |data| && a + q <= 128
    ensures forall i | 0 <= i < 128 ::
      Written(t.coils, a, BitValues(Unpacked(data, q)))[i] ==
        if a <= i < a + q then (if BitOf(data, i - a) then 1 else 0) else t.coils[i]
  {
    hide BitOf, IsBit;
  }

  lemma CoilsSetIs(t: Tables, pdu: seq<bv8>)
    requires ValidTables(t) && pdu != [] && pdu[0] == 15
    ensures var u := After(t, pdu);
      u == t.(coils := u.coils) && CoilsSet(t.coils, pdu, u.coils, Reply(t, pdu))
  {
    hide Num, IsBit, BitOf, PutWord, Unpacked, Written, BitValues;
    if |pdu| >= 6 && Decode(pdu).Asks? {
      Echo(pdu);
      CoilsWritten(t, pdu[6..], GetWord(pdu, 1), GetWord(pdu, 3));
    }
  }

  lemma RegistersWritten(t: Tables, pdu: seq<bv8>, a: nat, q: nat)
    requires ValidTables(t) && |pdu| >= 6 + 2 * q && a + q <= 128
    ensures forall i | 0 <= i < 128 ::
      Written(t.holding, a, GetWords(pdu, 6, q))[i] ==
        if a <= i < a + q then Field(pdu, 6 + 2 * (i - a)) else t.holding[i]
  {
    hide GetWords, Field, IsBit;
    forall j: nat | j < q ensures GetWords(pdu, 6, q)[j] == Field(pdu, 6 + 2 * j) {
      WordAt(pdu, 6, q, j);
    }
  }

  lemma RegistersSetIs(t: Tables, pdu: seq<bv8>)
    requires ValidTables(t) && pdu != [] && pdu[0] == 16
    ensures var u := After(t, pdu);
      u == t.(holding := u.holding) && RegistersSet(t.holding, pdu, u.holding, Reply(t, pdu))
  {
    hide Num, IsBit, BitOf, PutWord, GetWords, Written;
    if |pdu| >= 6 && Decode(pdu).Asks? {
      Echo(pdu);
      RegistersWritten(t, pdu, GetWord(pdu, 1), GetWord(pdu, 3));
    }
  }

  lemma OtherFunctions(t: Tables, pdu: seq<bv8>)
    requires ValidTables(t) && pdu != [] && pdu[0] !in [1, 2, 3, 4, 5, 6, 15, 16]
    ensures IsException(pdu, 1, Reply(t, pdu)) && After(t, pdu) == t
  {
  }

  /** Every request is handled as the octets say. */
  lemma EveryRequestHandled(t: Tables, pdu: seq<bv8>)
    requires ValidTables(t) && pdu != []
    ensures Handled(t, pdu, After(t, pdu), Reply(t, pdu))
  {
    hide After, Reply, BitsRead, WordsRead, CoilSet, RegisterSet, CoilsSet, RegistersSet, IsException;
    if pdu[0] == 1 || pdu[0] == 2 {
      BitsReadIs(t, pdu);
    } else if pdu[0] == 3 || pdu[0] == 4 {
      WordsReadIs(t, pdu);
    } else if pdu[0] == 5 {
      CoilSetIs(t, pdu);
    } else if pdu[0] == 6 {
      RegisterSetIs(t, pdu);
    } else if pdu[0] == 15 {
      CoilsSetIs(t, pdu);
    } else if pdu[0] == 16 {
      RegistersSetIs(t, pdu);
    } else {
      OtherFunctions(t, pdu);
    }
  }

  // ----- the input tables over whole runs -----

  /** After any sequence of requests a read of discrete inputs gives the bits the table began with. */
  lemma ReadsDiscreteInputs(t: Tables, pdus: Requests, pdu: seq<bv8>, j: nat)
    requires ValidTables(t) && |pdu| >= 5 && pdu[0] == 2
    requires j < Field(pdu, 3) <= 128 - Field(pdu, 1)
    ensures var reply, q := Reply(Run(t, pdus), pdu), Field(pdu, 3);
      && |reply| == 2 + (q + 7) / 8 && reply[0] == 2 && Num(reply[1]) == (q + 7) / 8
      && BitOf(reply[2..], j) == (t.discrete[Field(pdu, 1) + j] != 0)
  {
    BitsReadIs(Run(t, pdus), pdu);
    LatestWrites(t, pdus, 0);
    hide Reply, Run, Num, BitOf, LastCoil, LastRegister, After, IsBit;
  }

  /** After any sequence of requests a read of input registers gives the words the table began with. */
  lemma ReadsInputRegisters(t: Tables, pdus: Requests, pdu: seq<bv8>, j: nat)
    requires ValidTables(t) && |pdu| >= 5 && pdu[0] == 4
    requires j < Field(pdu, 3) <= 128 - Field(pdu, 1) && Field(pdu, 3) <= 125
    ensures var reply, q := Reply(Run(t, pdus), pdu), Field(pdu, 3);
      && |reply| == 2 + 2 * q && reply[0] == 4 && Num(reply[1]) == 2 * q
      && 256 * Num(reply[2+2*j]) + Num(reply[3+2*j]) == t.inputs[Field(pdu, 1) + j]
  {
    WordsReadIs(Run(t, pdus), pdu);
    LatestWrites(t, pdus, 0);
    hide Reply, Run, Num, LastCoil, LastRegister, After, IsBit;
    assert Field(Reply(Run(t, pdus), pdu)[2..], 2 * j) == t.inputs[Field(pdu, 1) + j];
  }

  // ----- the tables before the first request -----

  lemma InitialPoints(i: nat)
    requires i < 128
    ensures var t := InitialTables();
      && |t.coils| == |t.discrete| == |t.holding| == |t.inputs| == 128
      && (t.coils[i] != 0) == (i % 2 == 1) && (t.discrete[i] != 0) == (i % 2 == 0)
      && t.holding[i] == 0x1000 + i && t.inputs[i] == 0x2000 + i
  {
  }

  /** The first request, for the first eight coils or discrete inputs. */
  lemma FirstBits(pdu: seq<bv8>)
    requires pdu == [1, 0, 0, 0, 8] || pdu == [2, 0, 0, 0, 8]
    ensures ValidTables(InitialTables())
    ensures Reply(InitialTables(), pdu) == [pdu[0], 1, if pdu[0] == 1 then 0xAA else 0x55]
  {
    var t := InitialTables();
    assert Field(pdu, 1) == 0 && Field(pdu, 3) == 8;
    BitsReadIs(t, pdu);
    hide Reply, InitialTables, BitOf;
    forall j: nat | j < 8 ensures BitOf(Reply(t, pdu)[2..], j) == (j % 2 == if pdu[0] == 1 then 1 else 0) {
      InitialPoints(j);
    }
    EightBits(Reply(t, pdu)[2..]);
    OctetIsItsBits(Reply(t, pdu)[2]);
  }

  lemma EightBits(s: seq<bv8>)
    requires |s| == 1
    ensures forall j: nat | j < 8 :: BitOf(s, j) == Bit(s[0], j)
  {
    hide Bit;
  }

  // ----- built requests -----

  /** The octets after the first five: for function 15 the alternating bits, for 16 the numbered words. */
  predicate MadeUpData(f: bv8, addr: nat, v: nat, data: seq<bv8>) {
    if f == 15 then
      && |data| >= 1 && Num(data[0]) == |data| - 1 == (v + 7) / 8
      && forall j | 0 <= j < 8 * (|data| - 1) :: BitOf(data[1..], j) == (j < v && j % 2 == 1)
    else if f == 16 then
      && |data| >= 1 && Num(data[0]) == |data| - 1 == 2 * v
      && forall j: nat | j < v :: Field(data, 1 + 2 * j) == (addr + j) % 65536
    else data == []
  }

  predicate Buildable(f: bv8, v: nat) {
    if f == 1 || f == 2 then 1 <= v <= 2000
    else if f == 3 || f == 4 then 1 <= v <= 125
    else if f == 15 then 1 <= v <= 1968
    else if f == 16 then 1 <= v <= 123
    else f == 5 || f == 6
  }

  lemma MadeUpBitsData(addr: Word16, v: Word16)
    requires 1 <= v <= 1968
    ensures MadeUpData(15, addr, v, [Octet((v + 7) / 8)] + Packed(MadeUpBits(v)))
  {
    hide Num, Octet, Packed, BitOf;
    NumOctet((v + 7) / 8);
    var data := [Octet((v + 7) / 8)] + Packed(MadeUpBits(v));
    assert data[1..] == Packed(MadeUpBits(v));
    forall j | 0 <= j < 8 * |Packed(MadeUpBits(v))|
      ensures BitOf(Packed(MadeUpBits(v)), j) == (j < v && j % 2 == 1)
    {
      PackedBits(MadeUpBits(v), j);
    }
  }

  lemma MadeUpWordsData(addr: Word16, v: Word16)
    requires 1 <= v <= 123
    ensures MadeUpData(16, addr, v, [Octet(2 * v)] + PutWords(MadeUpWords(addr, v)))
  {
    hide Num, Octet, PutWords, Field, GetWords;
    NumOctet(2 * v);
    var words := MadeUpWords(addr, v);
    var data := [Octet(2 * v)] + PutWords(words);
    assert data[1..1+2*v] == PutWords(words);
    GetPutWords(data, 1, words);
    forall j: nat | j < v ensures Field(data, 1 + 2 * j) == (addr + j) % 65536 {
      WordAt(data, 1, v, j);
    }
  }

  lemma NoData(f: bv8, addr: nat, v: nat)
    requires f != 15 && f != 16
    ensures MadeUpData(f, addr, v, [])
  {
  }

  /** What the request builder builds, octet by octet, and when. */
  lemma BuiltOctets(f: bv8, addr: Word16, v: Word16)
    ensures Built(f, addr, v).Some? <==> Buildable(f, v)
    ensures Buildable(f, v) ==>
      var p := Built(f, addr, v).value;
      && |p| >= 5 && p[0] == f && Field(p, 1) == addr
      && Field(p, 3) == (if f != 5 then v else if v == 0 then 0 else 65280)
      && MadeUpData(f, addr, v, p[5..])
  {
    hide PutWord, Packed, PutWords, Octet, Num, BitOf, MadeUpData;
    if Buildable(f, v) {
      if f == 15 {
        MadeUpBitsData(addr, v);
        Head(f, addr, v, [Octet((v + 7) / 8)] + Packed(MadeUpBits(v)));
        Regroup([f] + PutWord(addr) + PutWord(v), [Octet((v + 7) / 8)], Packed(MadeUpBits(v)));
      } else if f == 16 {
        MadeUpWordsData(addr, v);
        Head(f, addr, v, [Octet(2 * v)] + PutWords(MadeUpWords(addr, v)));
        Regroup([f] + PutWord(addr) + PutWord(v), [Octet(2 * v)], PutWords(MadeUpWords(addr, v)));
      } else {
        var w: Word16 := if f != 5 then v else if v == 0 then 0 else 65280;
        Head(f, addr, w, []);
        assert Built(f, addr, v).value == [f] + PutWord(addr) + PutWord(w) + [];
        NoData(f, addr, v);
      }
    }
  }

  lemma Regroup(a: seq<bv8>, b: seq<bv8>, c: seq<bv8>)
    ensures a + b + c == a + (b + c)
  {
  }
}
