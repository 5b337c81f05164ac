/** What whole sequences of Modbus requests do, and what the request builder can ask for. */
module ModbusRuns {
  import opened Bytes
  import opened KeyStore
  import opened ModbusPdu

  type Requests = ps: seq<seq<bv8>> | forall p | p in ps :: p != []

  lemma ApplyKeepsValid(t: Tables, r: Request)
    requires ValidTables(t) && Fits(r)
    ensures ValidTables(Apply(t, r))
  {
    match r
    case ReadBits(_, _, _) =>
    case ReadWords(_, _, _) =>
    case WriteCoil(addr, on) =>
    case WriteRegister(addr, value) =>
    case WriteCoils(addr, bits) =>
    case WriteRegisters(addr, values) =>
  }

  lemma AfterKeepsValid(t: Tables, pdu: seq<bv8>)
    requires ValidTables(t) && pdu != []
    ensures ValidTables(After(t, pdu))
  {
    if Decode(pdu).Asks? {
      DecodeFits(pdu);
      ApplyKeepsValid(t, Decode(pdu).request);
    }
  }

  /** The tables after a sequence of requests; every state keeps coils at zero or one. */
  function Run(t: Tables, pdus: Requests): (r: Tables)
    requires ValidTables(t)
    ensures ValidTables(r)
  {
    if pdus == [] then t
    else
      var before := Run(t, pdus[..|pdus|-1]);
      AfterKeepsValid(before, pdus[|pdus|-1]);
      After(before, pdus[|pdus|-1])
  }

  // ----- the abstract semantics: every point holds what was last written to it -----

  /** The value a request writes to coil i, if it writes that coil. */
  function CoilOf(r: Request, i: nat): Option<bool> {
    if r.WriteCoil? && r.addr == i then Some(r.on)
    else if r.WriteCoils? && r.addr <= i < r.addr + |r.bits| then Some(r.bits[i - r.addr])
    else None
  }

  function RegisterOf(r: Request, i: nat): Option<Word16> {
    if r.WriteRegister? && r.addr == i then Some(r.value)
    else if r.WriteRegisters? && r.addr <= i < r.addr + |r.values| then Some(r.values[i - r.addr])
    else None
  }

  function CoilWritten(pdu: seq<bv8>, i: nat): Option<bool>
    requires pdu != []
  {
    if Decode(pdu).Raises? then None else CoilOf(Decode(pdu).request, i)
  }

  function RegisterWritten(pdu: seq<bv8>, i: nat): Option<Word16>
    requires pdu != []
  {
    if Decode(pdu).Raises? then None else RegisterOf(Decode(pdu).request, i)
  }

  function LastCoil(pdus: Requests, i: nat, initial: bool): bool {
    if pdus == [] then initial
    else
      var w := CoilWritten(pdus[|pdus|-1], i);
      if w.Some? then w.value else LastCoil(pdus[..|pdus|-1], i, initial)
  }

  function LastRegister(pdus: Requests, i: nat, initial: Word16): Word16 {
    if pdus == [] then initial
    else
      var w := RegisterWritten(pdus[|pdus|-1], i);
      if w.Some? then w.value else LastRegister(pdus[..|pdus|-1], i, initial)
  }

  function Or<T>(o: Option<T>, otherwise: T): T {
    if o.Some? then o.value else otherwise
  }

  function CoilValue(o: Option<bool>, otherwise: bv8): bv8 {
    if o.Some? then BitValue(o.value) else otherwise
  }

  lemma Applied(t: Tables, r: Request, i: nat)
    requires ValidTables(t) && Fits(r) && i < TABLE_SIZE
    ensures var u := Apply(t, r);
      && u.discrete == t.discrete && u.inputs == t.inputs && |u.coils| == |u.holding| == TABLE_SIZE
      && u.coils[i] == CoilValue(CoilOf(r, i), t.coils[i])
      && u.holding[i] == Or(RegisterOf(r, i), t.holding[i])
  {
    hide BitValue;
    match r
    case ReadBits(_, _, _) =>
    case ReadWords(_, _, _) =>
    case WriteCoil(addr, on) =>
    case WriteRegister(addr, value) =>
    case WriteCoils(addr, bits) =>
    case WriteRegisters(addr, values) =>
  }

  lemma OneRequest(t: Tables, pdu: seq<bv8>, i: nat)
    requires ValidTables(t) && pdu != [] && i < TABLE_SIZE
    ensures var u := After(t, pdu);
      && u.discrete == t.discrete && u.inputs == t.inputs && |u.coils| == |u.holding| == TABLE_SIZE
      && u.coils[i] == CoilValue(CoilWritten(pdu, i), t.coils[i])
      && u.holding[i] == Or(RegisterWritten(pdu, i), t.holding[i])
  {
    if Decode(pdu).Asks? {
      DecodeFits(pdu);
      hide Decode, Apply;
      Applied(t, Decode(pdu).request, i);
    }
  }

  lemma BitTruth(b: bv8, on: bool)
    ensures (BitValue(on) != 0) == on
    ensures IsBit(b) ==> b == BitValue(b != 0)
  {
  }

  /** After any sequence of requests every coil and holding register holds what was last written to
      it, or its first value; the input tables never change. */
  lemma {:induction false} LatestWrites(t: Tables, pdus: Requests, i: nat)
    requires ValidTables(t) && i < TABLE_SIZE
    ensures var u := Run(t, pdus);
      && u.coils[i] == BitValue(LastCoil(pdus, i, t.coils[i] != 0))
      && u.holding[i] == LastRegister(pdus, i, t.holding[i])
      && u.discrete == t.discrete && u.inputs == t.inputs
  {
    if pdus == [] {
      BitTruth(t.coils[i], false);
    } else {
      var n := |pdus| - 1;
      LatestWrites(t, pdus[..n], i);
      OneRequest(Run(t, pdus[..n]), pdus[n], i);
      hide After, CoilWritten, RegisterWritten, ValidTables, BitValue;
    }
  }

  lemma AnsweredBits(t: Tables, r: Request, pdu: seq<bv8>)
    requires ValidTables(t) && Fits(r) && pdu != [] && r.ReadBits? && r.coils
    ensures |Answer(t, r, pdu)| == 2 + (r.qty + 7) / 8
    ensures Unpacked(Answer(t, r, pdu)[2..], r.qty) == Truth(t.coils[r.addr..r.addr+r.qty])
  {
    hide Packed, BitOf;
    var bits := Truth(t.coils[r.addr..r.addr+r.qty]);
    assert Answer(t, r, pdu)[2..] == Packed(bits);
    UnpackPacked(bits);
  }

  lemma AnsweredWords(t: Tables, r: Request, pdu: seq<bv8>)
    requires ValidTables(t) && Fits(r) && pdu != [] && r.ReadWords? && r.holding
    ensures |Answer(t, r, pdu)| == 2 + 2 * r.qty
    ensures GetWords(Answer(t, r, pdu), 2, r.qty) == t.holding[r.addr..r.addr+r.qty]
  {
    hide PutWords, GetWords;
    var words := t.holding[r.addr..r.addr+r.qty];
    assert Answer(t, r, pdu)[2..2+2*r.qty] == PutWords(words);
    GetPutWords(Answer(t, r, pdu), 2, words);
  }

  /** A read of coils answers with the bits last written. */
  lemma ReadsLatestCoils(t: Tables, pdus: Requests, pdu: seq<bv8>, j: nat)
    requires ValidTables(t) && pdu != [] && Decode(pdu).Asks?
    requires Decode(pdu).request.ReadBits? && Decode(pdu).request.coils && j < Decode(pdu).request.qty
    ensures var r, reply := Decode(pdu).request, Reply(Run(t, pdus), pdu);
      && r.addr + j < TABLE_SIZE && |reply| == 2 + (r.qty + 7) / 8
      && Unpacked(reply[2..], r.qty)[j] == LastCoil(pdus, r.addr + j, t.coils[r.addr + j] != 0)
  {
    DecodeFits(pdu);
    hide Decode, Answer, Unpacked, Run, LastRegister, LastCoil, IsBit, BitValue;
    var r := Decode(pdu).request;
    AnsweredBits(Run(t, pdus), r, pdu);
    LatestWrites(t, pdus, r.addr + j);
    BitTruth(0, LastCoil(pdus, r.addr + j, t.coils[r.addr + j] != 0));
  }

  /** A read of holding registers answers with the words last written. */
  lemma ReadsLatestRegisters(t: Tables, pdus: Requests, pdu: seq<bv8>, j: nat)
    requires ValidTables(t) && pdu != [] && Decode(pdu).Asks?
    requires Decode(pdu).request.ReadWords? && Decode(pdu).request.holding && j < Decode(pdu).request.qty
    ensures var r, reply := Decode(pdu).request, Reply(Run(t, pdus), pdu);
      && r.addr + j < TABLE_SIZE && |reply| == 2 + 2 * r.qty
      && GetWords(reply, 2, r.qty)[j] == LastRegister(pdus, r.addr + j, t.holding[r.addr + j])
  {
    DecodeFits(pdu);
    hide Decode, Answer, GetWords, Run, LastRegister, LastCoil, IsBit;
    var r := Decode(pdu).request;
    AnsweredWords(Run(t, pdus), r, pdu);
    LatestWrites(t, pdus, r.addr + j);
  }

  /** An exception changes nothing, and every reply fits in a PDU. */
  lemma ExceptionsAndSizes(t: Tables, pdu: seq<bv8>)
    requires ValidTables(t) && pdu != []
    ensures Decode(pdu).Raises? ==> After(t, pdu) == t
    ensures 2 <= |Reply(t, pdu)| <= 253
  {
    if Decode(pdu).Asks? {
      DecodeFits(pdu);
    }
    hide Decode, Packed, PutWords;
  }

  // ----- built requests -----

  /** The bits and words the builder makes up: alternating coils, and registers numbered from the
      address on, modulo 2^16. */
  function MadeUpBits(qty: nat): (s: seq<bool>)
    ensures |s| == qty
  {
    seq(qty, i => i % 2 == 1)
  }

  function MadeUpWord(addr: Word16, i: nat): Word16 {
    (addr + i) % 0x1_0000
  }

  function MadeUpWords(addr: Word16, qty: nat): (s: seq<Word16>)
    ensures |s| == qty
  {
    seq(qty, i requires 0 <= i < qty => MadeUpWord(addr, i))
  }

  /** The request PDU for a function code, an address and a value or quantity; None where the quantity
      is out of range or the function unknown. */
  function Built(f: bv8, addr: Word16, v: Word16): Option<seq<bv8>> {
    if f == READ_COILS || f == READ_DISCRETE_INPUTS || f == READ_HOLDING_REGISTERS || f == READ_INPUT_REGISTERS then
      var max := if f == READ_COILS || f == READ_DISCRETE_INPUTS then MAX_READ_BITS else MAX_READ_REGISTERS;
      if v < 1 || v > max then None else Some([f] + PutWord(addr) + PutWord(v))
    else if f == WRITE_SINGLE_COIL then
      Some([f] + PutWord(addr) + PutWord(if v != 0 then 0xFF00 else 0))
    else if f == WRITE_SINGLE_REGISTER then
      Some([f] + PutWord(addr) + PutWord(v))
    else if f == WRITE_MULTIPLE_COILS then
      if v < 1 || v > MAX_WRITE_BITS then None
      else Some([f] + PutWord(addr) + PutWord(v) + [Octet((v + 7) / 8)] + Packed(MadeUpBits(v)))
    else if f == WRITE_MULTIPLE_REGISTERS then
      if v < 1 || v > MAX_WRITE_REGISTERS then None
      else Some([f] + PutWord(addr) + PutWord(v) + [Octet(2 * v)] + PutWords(MadeUpWords(addr, v)))
    else None
  }

  /** The request the caller of the builder means. */
  function Meant(f: bv8, addr: Word16, v: Word16): Request {
    if f == READ_COILS || f == READ_DISCRETE_INPUTS then ReadBits(f == READ_COILS, addr, v)
    else if f == READ_HOLDING_REGISTERS || f == READ_INPUT_REGISTERS then
      ReadWords(f == READ_HOLDING_REGISTERS, addr, v)
    else if f == WRITE_SINGLE_COIL then WriteCoil(addr, v != 0)
    else if f == WRITE_SINGLE_REGISTER then WriteRegister(addr, v)
    else if f == WRITE_MULTIPLE_COILS then WriteCoils(addr, MadeUpBits(v))
    else WriteRegisters(addr, MadeUpWords(addr, v))
  }

  lemma Head(f: bv8, addr: Word16, v: Word16, rest: seq<bv8>)
    ensures var p := [f] + PutWord(addr) + PutWord(v) + rest;
      |p| == 5 + |rest| && p[0] == f && GetWord(p, 1) == addr && GetWord(p, 3) == v && p[5..] == rest
  {
    hide PutWord, GetWord;
    var p := [f] + PutWord(addr) + PutWord(v) + rest;
    assert p[1..3] == PutWord(addr) && p[3..5] == PutWord(v);
    GetPut(p, 1, addr);
    GetPut(p, 3, v);
  }

  lemma BuiltBitsUnderstood(addr: Word16, v: Word16)
    requires 1 <= v <= MAX_WRITE_BITS
    ensures var p := [WRITE_MULTIPLE_COILS] + PutWord(addr) + PutWord(v) + [Octet((v + 7) / 8)] + Packed(MadeUpBits(v));
      Decode(p) == InRange(WriteCoils(addr, MadeUpBits(v)))
  {
    var f, bits := WRITE_MULTIPLE_COILS, MadeUpBits(v);
    hide PutWord, GetWord, Packed, Unpacked, Octet, Num, MadeUpBits, InRange;
    var p := [f] + PutWord(addr) + PutWord(v) + [Octet((v + 7) / 8)] + Packed(bits);
    Head(f, addr, v, [Octet((v + 7) / 8)] + Packed(bits));
    NumOctet((v + 7) / 8);
    UnpackPacked(bits);
    assert p == [f] + PutWord(addr) + PutWord(v) + ([Octet((v + 7) / 8)] + Packed(bits));
    assert p[6..] == p[5..][1..] == Packed(bits) && p[5] == p[5..][0];
  }

  lemma BuiltWordsUnderstood(addr: Word16, v: Word16)
    requires 1 <= v <= MAX_WRITE_REGISTERS
    ensures var data := PutWords(MadeUpWords(addr, v));
      var p := [WRITE_MULTIPLE_REGISTERS] + PutWord(addr) + PutWord(v) + [Octet(2 * v)] + data;
      Decode(p) == InRange(WriteRegisters(addr, MadeUpWords(addr, v)))
  {
    var f, words := WRITE_MULTIPLE_REGISTERS, MadeUpWords(addr, v);
    hide PutWord, GetWord, PutWords, GetWords, Octet, Num, MadeUpWords, InRange;
    var p := [f] + PutWord(addr) + PutWord(v) + [Octet(2 * v)] + PutWords(words);
    Head(f, addr, v, [Octet(2 * v)] + PutWords(words));
    NumOctet(2 * v);
    assert p == [f] + PutWord(addr) + PutWord(v) + ([Octet(2 * v)] + PutWords(words));
    assert p[6..6+2*v] == p[5..][1..] == PutWords(words) && p[5] == p[5..][0];
    GetPutWords(p, 6, words);
  }

  lemma BuiltSimpleUnderstood(f: bv8, addr: Word16, v: Word16)
    requires Built(f, addr, v).Some? && f != WRITE_MULTIPLE_COILS && f != WRITE_MULTIPLE_REGISTERS
    ensures Decode(Built(f, addr, v).value) == InRange(Meant(f, addr, v))
  {
    hide PutWord, GetWord, InRange;
    var p := Built(f, addr, v).value;
    var w: Word16 := if f != WRITE_SINGLE_COIL then v else if v != 0 then 0xFF00 else 0;
    Head(f, addr, w, []);
    assert p == [f] + PutWord(addr) + PutWord(w) + [];
  }

  /** A built request is understood as meant; the only exception it can raise is an illegal address,
      and it raises it exactly when the points do not fit the tables. */
  lemma BuiltIsUnderstood(f: bv8, addr: Word16, v: Word16)
    requires Built(f, addr, v).Some?
    ensures Built(f, addr, v).value != []
    ensures Decode(Built(f, addr, v).value) ==
      if Fits(Meant(f, addr, v)) then Asks(Meant(f, addr, v)) else Raises(ILLEGAL_DATA_ADDRESS)
  {
    hide Decode, Packed, PutWords;
    if f == WRITE_MULTIPLE_COILS {
      BuiltBitsUnderstood(addr, v);
    } else if f == WRITE_MULTIPLE_REGISTERS {
      BuiltWordsUnderstood(addr, v);
    } else {
      BuiltSimpleUnderstood(f, addr, v);
    }
  }
}
