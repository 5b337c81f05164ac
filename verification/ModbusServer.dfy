/** The slave's request handler over its static tables, and the master's request builder. */
module ModbusServer {
  import opened Bytes
  import opened KeyStore
  import opened ModbusOctets
  import opened ModbusPdu
  import opened ModbusRuns

  lemma PackedSnoc(bits: seq<bool>, b: bool)
    ensures var p, n := Packed(bits), |bits|;
      Packed(bits + [b]) == if n % 8 == 0 then p + [SetBit(0, 0, b)] else p[n/8 := SetBit(p[n/8], n % 8, b)]
  {
    hide SetBit;
    assert (bits + [b])[..|bits|] == bits;
  }

  /** One bit more, packed into a zeroed buffer. */
  lemma PackNext(bits: seq<bool>, b: bool, out: seq<bv8>, out': seq<bv8>)
    requires |bits| < 8 * |out| && |out'| == |out|
    requires out == Packed(bits) + Zeros(|out| - |Packed(bits)|)
    requires out' == out[|bits|/8 := SetBit(out[|bits|/8], |bits| % 8, b)]
    ensures |Packed(bits + [b])| <= |out|
    ensures out' == Packed(bits + [b]) + Zeros(|out| - |Packed(bits + [b])|)
  {
    hide SetBit, Packed;
    PackedSnoc(bits, b);
  }

  /** A zeroed buffer with one bit set for every nonzero octet. */
  method PackBits(table: seq<bv8>) returns (data: seq<bv8>)
    ensures data == Packed(Truth(table))
  {
    hide Packed, SetBit, Zeros;
    var out := new bv8[(|table| + 7) / 8](_ => 0);
    EmptyPack(out[..]);
    var i := 0;
    while i < |table|
      invariant 0 <= i <= |table|
      invariant |Packed(Truth(table[..i]))| <= out.Length
      invariant out[..] == Packed(Truth(table[..i])) + Zeros(out.Length - |Packed(Truth(table[..i]))|)
    {
      ghost var before := out[..];
      out[i/8] := SetBit(out[i/8], i % 8, table[i] != 0);
      assert Truth(table[..i+1]) == Truth(table[..i]) + [table[i] != 0];
      PackNext(Truth(table[..i]), table[i] != 0, before, out[..]);
      i := i + 1;
    }
    assert table[..i] == table;
    data := out[..];
    NoZeros(data, Packed(Truth(table)));
  }

  lemma EmptyPack(out: seq<bv8>)
    requires forall i | 0 <= i < |out| :: out[i] == 0
    ensures Packed([]) == [] && Truth([]) == [] && out == Packed([]) + Zeros(|out| - |Packed([])|)
  {
  }

  lemma NoZeros(out: seq<bv8>, p: seq<bv8>)
    requires |p| == |out| && out == p + Zeros(|out| - |p|)
    ensures out == p
  {
  }

  method PackWords(table: seq<Word16>) returns (data: seq<bv8>)
    ensures data == PutWords(table)
  {
    hide PutWord;
    data := [];
    var i := 0;
    while i < |table|
      invariant 0 <= i <= |table|
      invariant data == PutWords(table[..i])
    {
      assert table[..i+1][..i] == table[..i];
      data := data + PutWord(table[i]);
      i := i + 1;
    }
    assert table[..i] == table;
  }

  class Slave {
    const coils: array<bv8>
    const discrete: array<bv8>
    const holding: array<Word16>
    const inputs: array<Word16>
    var initialized: bool

    ghost predicate Shape() {
      && coils.Length == discrete.Length == holding.Length == inputs.Length == TABLE_SIZE
      && coils != discrete && holding != inputs
      && coils as object != holding && coils as object != inputs
      && discrete as object != holding && discrete as object != inputs
    }

    /** The tables a request sees; the first request finds the initial ones. */
    ghost function Now(): Tables
      reads this, coils, discrete, holding, inputs
    {
      if initialized then Tables(coils[..], discrete[..], holding[..], inputs[..]) else InitialTables()
    }

    ghost predicate Valid()
      reads this, coils, discrete, holding, inputs
    {
      Shape() && ValidTables(Now())
    }

    constructor ()
      ensures Valid() && !initialized
      ensures fresh(coils) && fresh(discrete) && fresh(holding) && fresh(inputs)
    {
      coils := new bv8[TABLE_SIZE](_ => 0);
      discrete := new bv8[TABLE_SIZE](_ => 0);
      holding := new Word16[TABLE_SIZE](_ => 0);
      inputs := new Word16[TABLE_SIZE](_ => 0);
      initialized := false;
      InitialIsValid();
    }

    method EnsureInitialized()
      requires Valid()
      modifies this, coils, discrete, holding, inputs
      ensures Valid() && initialized && Now() == old(Now())
    {
      if initialized {
        return;
      }
      for i := 0 to TABLE_SIZE
        invariant forall k | 0 <= k < i :: holding[k] == 0x1000 + k && inputs[k] == 0x2000 + k
        invariant forall k | 0 <= k < i :: coils[k] == BitValue(k % 2 == 1) && discrete[k] == BitValue(k % 2 == 0)
      {
        holding[i] := 0x1000 + i;
        inputs[i] := 0x2000 + i;
        coils[i] := BitValue(i % 2 == 1);
        discrete[i] := BitValue((i + 1) % 2 == 1);
      }
      initialized := true;
      assert Now() == InitialTables();
    }

    /** modbus_build_response: zero for an empty request, otherwise one and the reply. */
    method BuildResponse(pdu: seq<bv8>) returns (ok: int, reply: seq<bv8>)
      requires Valid()
      modifies this, coils, discrete, holding, inputs
      ensures Valid()
      ensures pdu == [] ==> ok == 0 && Now() == old(Now())
      ensures pdu != [] ==> ok == 1 && reply == Reply(old(Now()), pdu) && Now() == After(old(Now()), pdu)
      ensures pdu != [] ==> Handled(old(Now()), pdu, Now(), reply)
    {
      hide Handled;
      if |pdu| < 1 {
        return 0, [];
      }
      EveryRequestHandled(Now(), pdu);
      EnsureInitialized();
      ok := 1;
      var f := pdu[0];
      if f == READ_COILS || f == READ_DISCRETE_INPUTS {
        reply := ReadBitTable(pdu);
      } else if f == READ_HOLDING_REGISTERS || f == READ_INPUT_REGISTERS {
        reply := ReadWordTable(pdu);
      } else if f == WRITE_SINGLE_COIL {
        reply := SetCoil(pdu);
      } else if f == WRITE_SINGLE_REGISTER {
        reply := SetRegister(pdu);
      } else if f == WRITE_MULTIPLE_COILS {
        reply := SetCoils(pdu);
      } else if f == WRITE_MULTIPLE_REGISTERS {
        reply := SetRegisters(pdu);
      } else {
        reply := Exception(f, ILLEGAL_FUNCTION);
      }
    }

    method ReadBitTable(pdu: seq<bv8>) returns (reply: seq<bv8>)
      requires Valid() && initialized && pdu != [] && (pdu[0] == READ_COILS || pdu[0] == READ_DISCRETE_INPUTS)
      ensures reply == Reply(Now(), pdu) && Now() == After(Now(), pdu)
    {
      hide Packed, GetWord, Unpacked, GetWords, Num;
      if |pdu| < 5 {
        return Exception(pdu[0], ILLEGAL_DATA_VALUE);
      }
      var addr, qty := GetWord(pdu, 1), GetWord(pdu, 3);
      if qty < 1 || qty > MAX_READ_BITS {
        return Exception(pdu[0], ILLEGAL_DATA_VALUE);
      }
      if addr + qty > TABLE_SIZE {
        return Exception(pdu[0], ILLEGAL_DATA_ADDRESS);
      }
      var table := if pdu[0] == READ_COILS then coils else discrete;
      var data := PackBits(table[addr..addr+qty]);
      reply := [pdu[0], Octet((qty + 7) / 8)] + data;
    }

    method ReadWordTable(pdu: seq<bv8>) returns (reply: seq<bv8>)
      requires Valid() && initialized && pdu != []
      requires pdu[0] == READ_HOLDING_REGISTERS || pdu[0] == READ_INPUT_REGISTERS
      ensures reply == Reply(Now(), pdu) && Now() == After(Now(), pdu)
    {
      hide PutWords, GetWord, Unpacked, GetWords, Num;
      if |pdu| < 5 {
        return Exception(pdu[0], ILLEGAL_DATA_VALUE);
      }
      var addr, qty := GetWord(pdu, 1), GetWord(pdu, 3);
      if qty < 1 || qty > MAX_READ_REGISTERS {
        return Exception(pdu[0], ILLEGAL_DATA_VALUE);
      }
      if addr + qty > TABLE_SIZE {
        return Exception(pdu[0], ILLEGAL_DATA_ADDRESS);
      }
      var table := if pdu[0] == READ_HOLDING_REGISTERS then holding else inputs;
      var data := PackWords(table[addr..addr+qty]);
      reply := [pdu[0], Octet(2 * qty)] + data;
    }

    method SetCoil(pdu: seq<bv8>) returns (reply: seq<bv8>)
      requires Valid() && initialized && pdu != [] && pdu[0] == WRITE_SINGLE_COIL
      modifies coils
      ensures Valid() && reply == Reply(old(Now()), pdu) && Now() == After(old(Now()), pdu)
    {
      AfterKeepsValid(Now(), pdu);
      hide GetWord, Unpacked, GetWords, Num;
      if |pdu| < 5 {
        return Exception(pdu[0], ILLEGAL_DATA_VALUE);
      }
      var addr, value := GetWord(pdu, 1), GetWord(pdu, 3);
      if value != 0 && value != 0xFF00 {
        return Exception(pdu[0], ILLEGAL_DATA_VALUE);
      }
      if addr >= TABLE_SIZE {
        return Exception(pdu[0], ILLEGAL_DATA_ADDRESS);
      }
      coils[addr] := if value == 0xFF00 then 1 else 0;
      reply := pdu[..5];
    }

    method SetRegister(pdu: seq<bv8>) returns (reply: seq<bv8>)
      requires Valid() && initialized && pdu != [] && pdu[0] == WRITE_SINGLE_REGISTER
      modifies holding
      ensures Valid() && reply == Reply(old(Now()), pdu) && Now() == After(old(Now()), pdu)
    {
      AfterKeepsValid(Now(), pdu);
      hide GetWord, Unpacked, GetWords, Num;
      if |pdu| < 5 {
        return Exception(pdu[0], ILLEGAL_DATA_VALUE);
      }
      var addr := GetWord(pdu, 1);
      if addr >= TABLE_SIZE {
        return Exception(pdu[0], ILLEGAL_DATA_ADDRESS);
      }
      holding[addr] := GetWord(pdu, 3);
      reply := pdu[..5];
    }

    method SetCoils(pdu: seq<bv8>) returns (reply: seq<bv8>)
      requires Valid() && initialized && pdu != [] && pdu[0] == WRITE_MULTIPLE_COILS
      modifies coils
      ensures Valid() && reply == Reply(old(Now()), pdu) && Now() == After(old(Now()), pdu)
    {
      AfterKeepsValid(Now(), pdu);
      hide GetWord, Unpacked, GetWords, Num, PutWord;
      if |pdu| < 6 {
        return Exception(pdu[0], ILLEGAL_DATA_VALUE);
      }
      var addr, qty, byteCount := GetWord(pdu, 1), GetWord(pdu, 3), Num(pdu[5]);
      if qty < 1 || qty > MAX_WRITE_BITS || byteCount != (qty + 7) / 8 || |pdu| < 6 + byteCount {
        return Exception(pdu[0], ILLEGAL_DATA_VALUE);
      }
      if addr + qty > TABLE_SIZE {
        return Exception(pdu[0], ILLEGAL_DATA_ADDRESS);
      }
      StoreCoils(pdu[6..], addr, qty);
      reply := [pdu[0]] + PutWord(addr) + PutWord(qty);
    }

    method StoreCoils(data: seq<bv8>, addr: nat, qty: nat)
      requires Shape() && qty <= 8 * |data| && addr + qty <= TABLE_SIZE
      modifies coils
      ensures coils[..] == Written(old(coils[..]), addr, BitValues(Unpacked(data, qty)))
    {
      hide ShiftedBit, BitValue;
      var i := 0;
      while i < qty
        invariant 0 <= i <= qty
        invariant forall k | 0 <= k < i :: coils[addr+k] == BitValue(Unpacked(data, qty)[k])
        invariant coils[..addr] == old(coils[..addr]) && coils[addr+i..] == old(coils[addr+i..])
      {
        ShiftedBitIsBit(data[i/8], i % 8);
        coils[addr+i] := ShiftedBit(data[i/8], i % 8);
        i := i + 1;
      }
      assert coils[..] == coils[..addr] + coils[addr..addr+qty] + coils[addr+qty..];
    }

    method SetRegisters(pdu: seq<bv8>) returns (reply: seq<bv8>)
      requires Valid() && initialized && pdu != [] && pdu[0] == WRITE_MULTIPLE_REGISTERS
      modifies holding
      ensures Valid() && reply == Reply(old(Now()), pdu) && Now() == After(old(Now()), pdu)
    {
      AfterKeepsValid(Now(), pdu);
      hide GetWord, Unpacked, GetWords, Num, PutWord;
      if |pdu| < 6 {
        return Exception(pdu[0], ILLEGAL_DATA_VALUE);
      }
      var addr, qty, byteCount := GetWord(pdu, 1), GetWord(pdu, 3), Num(pdu[5]);
      if qty < 1 || qty > MAX_WRITE_REGISTERS || byteCount != 2 * qty || |pdu| < 6 + byteCount {
        return Exception(pdu[0], ILLEGAL_DATA_VALUE);
      }
      if addr + qty > TABLE_SIZE {
        return Exception(pdu[0], ILLEGAL_DATA_ADDRESS);
      }
      StoreRegisters(pdu, addr, qty);
      reply := [pdu[0]] + PutWord(addr) + PutWord(qty);
    }

    method StoreRegisters(pdu: seq<bv8>, addr: nat, qty: nat)
      requires Shape() && 6 + 2 * qty <= |pdu| && addr + qty <= TABLE_SIZE
      modifies holding
      ensures holding[..] == Written(old(holding[..]), addr, GetWords(pdu, 6, qty))
    {
      hide GetWord;
      var i := 0;
      while i < qty
        invariant 0 <= i <= qty
        invariant holding[addr..addr+i] == GetWords(pdu, 6, i)
        invariant holding[..addr] == old(holding[..addr]) && holding[addr+i..] == old(holding[addr+i..])
      {
        ghost var done := holding[addr..addr+i];
        holding[addr+i] := GetWord(pdu, 6 + 2 * i);
        assert holding[addr..addr+i+1] == done + [GetWord(pdu, 6 + 2 * i)];
        i := i + 1;
      }
      assert holding[..] == holding[..addr] + holding[addr..addr+qty] + holding[addr+qty..];
    }
  }

  lemma InitialIsValid()
    ensures ValidTables(InitialTables())
  {
  }

  /** modbus_build_request. */
  method BuildRequest(f: bv8, addr: Word16, v: Word16) returns (r: Option<seq<bv8>>)
    ensures r == Built(f, addr, v)
  {
    hide PutWord, Packed, PutWords;
    if f == READ_COILS || f == READ_DISCRETE_INPUTS || f == READ_HOLDING_REGISTERS || f == READ_INPUT_REGISTERS {
      var max := if f == READ_COILS || f == READ_DISCRETE_INPUTS then MAX_READ_BITS else MAX_READ_REGISTERS;
      if v < 1 || v > max {
        return None;
      }
      return Some([f] + PutWord(addr) + PutWord(v));
    } else if f == WRITE_SINGLE_COIL {
      return Some([f] + PutWord(addr) + PutWord(if v != 0 then 0xFF00 else 0));
    } else if f == WRITE_SINGLE_REGISTER {
      return Some([f] + PutWord(addr) + PutWord(v));
    } else if f == WRITE_MULTIPLE_COILS {
      if v < 1 || v > MAX_WRITE_BITS {
        return None;
      }
      var data := MakeUpBits(v);
      return Some([f] + PutWord(addr) + PutWord(v) + [Octet((v + 7) / 8)] + data);
    } else if f == WRITE_MULTIPLE_REGISTERS {
      if v < 1 || v > MAX_WRITE_REGISTERS {
        return None;
      }
      var data := MakeUpRegisters(addr, v);
      return Some([f] + PutWord(addr) + PutWord(v) + [Octet(2 * v)] + data);
    } else {
      return None;
    }
  }

  /** Every second bit set in a zeroed buffer. */
  method MakeUpBits(qty: nat) returns (data: seq<bv8>)
    ensures data == Packed(MadeUpBits(qty))
  {
    hide Packed, SetBit, Zeros;
    var out := new bv8[(qty + 7) / 8](_ => 0);
    EmptyPack(out[..]);
    assert MadeUpBits(0) == [];
    var i := 0;
    while i < qty
      invariant 0 <= i <= qty && |Packed(MadeUpBits(i))| <= out.Length
      invariant out[..] == Packed(MadeUpBits(i)) + Zeros(out.Length - |Packed(MadeUpBits(i))|)
    {
      ghost var before := out[..];
      KeepBit(out[i/8], i % 8);
      if i % 2 == 1 {
        out[i/8] := SetBit(out[i/8], i % 8, true);
      }
      assert MadeUpBits(i + 1) == MadeUpBits(i) + [i % 2 == 1];
      assert out[..] == before[i/8 := SetBit(before[i/8], i % 8, i % 2 == 1)];
      PackNext(MadeUpBits(i), i % 2 == 1, before, out[..]);
      i := i + 1;
    }
    data := out[..];
    NoZeros(data, Packed(MadeUpBits(qty)));
  }

  lemma KeepBit(b: bv8, j: nat)
    requires j < 8
    ensures SetBit(b, j, false) == b
  {
  }

  method MakeUpRegisters(addr: Word16, qty: nat) returns (data: seq<bv8>)
    ensures data == PutWords(MadeUpWords(addr, qty))
  {
    hide PutWord;
    data := [];
    var i := 0;
    while i < qty
      invariant 0 <= i <= qty && data == PutWords(MadeUpWords(addr, i))
    {
      assert MadeUpWords(addr, i + 1)[..i] == MadeUpWords(addr, i);
      data := data + PutWord((addr + i) % 0x1_0000);
      i := i + 1;
    }
  }
}
