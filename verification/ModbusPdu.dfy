/** The Modbus data model: what a request means, what it changes, and what is replied. */
module ModbusPdu {
  import opened Bytes

  type Word16 = n: nat | n < 0x1_0000

  const TABLE_SIZE: nat := 128
  const MAX_READ_BITS: nat := 2000
  const MAX_WRITE_BITS: nat := 1968
  const MAX_READ_REGISTERS: nat := 125
  const MAX_WRITE_REGISTERS: nat := 123

  const READ_COILS: bv8 := 1
  const READ_DISCRETE_INPUTS: bv8 := 2
  const READ_HOLDING_REGISTERS: bv8 := 3
  const READ_INPUT_REGISTERS: bv8 := 4
  const WRITE_SINGLE_COIL: bv8 := 5
  const WRITE_SINGLE_REGISTER: bv8 := 6
  const WRITE_MULTIPLE_COILS: bv8 := 15
  const WRITE_MULTIPLE_REGISTERS: bv8 := 16

  const ILLEGAL_FUNCTION: bv8 := 1
  const ILLEGAL_DATA_ADDRESS: bv8 := 2
  const ILLEGAL_DATA_VALUE: bv8 := 3

  /** The four tables; coils and discrete inputs take one octet each. */
  datatype Tables = Tables(coils: seq<bv8>, discrete: seq<bv8>, holding: seq<Word16>, inputs: seq<Word16>)

  predicate IsBit(b: bv8) {
    b == 0 || b == 1
  }

  predicate ValidTables(t: Tables) {
    && |t.coils| == |t.discrete| == |t.holding| == |t.inputs| == TABLE_SIZE
    && (forall i | 0 <= i < TABLE_SIZE :: IsBit(t.coils[i]))
    && (forall i | 0 <= i < TABLE_SIZE :: IsBit(t.discrete[i]))
  }

  function BitValue(b: bool): bv8 {
    if b then 1 else 0
  }

  /** What the tables hold before the first request. */
  function InitialTables(): Tables {
    Tables(
      seq(TABLE_SIZE, i => BitValue(i % 2 == 1)),
      seq(TABLE_SIZE, i => BitValue(i % 2 == 0)),
      seq(TABLE_SIZE, i requires 0 <= i < TABLE_SIZE => 0x1000 + i),
      seq(TABLE_SIZE, i requires 0 <= i < TABLE_SIZE => 0x2000 + i))
  }

  // ----- words and packed bits -----

  function PutWord(v: Word16): (s: seq<bv8>)
    ensures |s| == 2
  {
    [Octet(v / 256), Octet(v)]
  }

  function GetWord(s: seq<bv8>, i: nat): Word16
    requires i + 2 <= |s|
  {
    256 * Num(s[i]) + Num(s[i+1])
  }

  lemma GetPut(s: seq<bv8>, i: nat, v: Word16)
    requires i + 2 <= |s| && s[i..i+2] == PutWord(v)
    ensures GetWord(s, i) == v
  {
    hide Num, Octet;
    NumOctet(v / 256);
    NumOctet(v);
    assert s[i] == s[i..i+2][0] && s[i+1] == s[i..i+2][1];
  }

  function PutWords(vs: seq<Word16>): (s: seq<bv8>)
    ensures |s| == 2 * |vs|
  {
    if vs == [] then [] else PutWords(vs[..|vs|-1]) + PutWord(vs[|vs|-1])
  }

  function GetWords(s: seq<bv8>, i: nat, n: nat): (vs: seq<Word16>)
    requires i + 2 * n <= |s|
    ensures |vs| == n
  {
    if n == 0 then [] else GetWords(s, i, n - 1) + [GetWord(s, i + 2 * (n - 1))]
  }

  lemma {:induction false} GetPutWords(s: seq<bv8>, i: nat, vs: seq<Word16>)
    requires i + 2 * |vs| <= |s| && s[i..i+2*|vs|] == PutWords(vs)
    ensures GetWords(s, i, |vs|) == vs
  {
    hide GetWord, PutWord;
    if vs != [] {
      var n := |vs| - 1;
      var front := s[i..i+2*n+2];
      assert s[i..i+2*n] == front[..2*n] == PutWords(vs[..n]);
      GetPutWords(s, i, vs[..n]);
      assert s[i+2*n..i+2*n+2] == front[2*n..] == PutWord(vs[n]);
      GetPut(s, i + 2 * n, vs[n]);
    }
  }

  function BitMask(j: nat): bv8
    requires j < 8
  {
    match j
    case 0 => 1 case 1 => 2 case 2 => 4 case 3 => 8 case 4 => 16 case 5 => 32 case 6 => 64 case _ => 128
  }

  /** The octet shifted right by j, lowest bit. */
  function ShiftedBit(b: bv8, j: nat): bv8
    requires j < 8
  {
    match j
    case 0 => b & 1 case 1 => (b >> 1) & 1 case 2 => (b >> 2) & 1 case 3 => (b >> 3) & 1
    case 4 => (b >> 4) & 1 case 5 => (b >> 5) & 1 case 6 => (b >> 6) & 1 case _ => (b >> 7) & 1
  }

  function SetBit(b: bv8, j: nat, on: bool): bv8
    requires j < 8
  {
    if on then b | BitMask(j) else b
  }

  predicate Bit(b: bv8, j: nat)
    requires j < 8
  {
    ShiftedBit(b, j) == 1
  }

  lemma ShiftedBitIsBit(b: bv8, j: nat)
    requires j < 8
    ensures ShiftedBit(b, j) == BitValue(Bit(b, j))
  {
    match j
    case 0 => case 1 => case 2 => case 3 => case 4 => case 5 => case 6 => case _ =>
  }

  lemma SetBitOn(b: bv8, j: nat)
    requires j < 8
    ensures Bit(b | BitMask(j), j)
  {
    match j
    case 0 => case 1 => case 2 => case 3 => case 4 => case 5 => case 6 => case _ =>
  }

  lemma SetBitOff(b: bv8, j: nat, i: nat)
    requires j < 8 && i < 8 && i != j
    ensures Bit(b | BitMask(j), i) == Bit(b, i)
  {
    match j
    case 0 => case 1 => case 2 => case 3 => case 4 => case 5 => case 6 => case _ =>
  }

  lemma ZeroBit(j: nat)
    requires j < 8
    ensures !Bit(0, j)
  {
  }

  /** Bits packed eight to an octet, the first in the lowest bit; the rest of the last octet is zero. */
  function Packed(bits: seq<bool>): (s: seq<bv8>)
    ensures |s| == (|bits| + 7) / 8
  {
    if bits == [] then []
    else
      var n := |bits| - 1;
      var s := Packed(bits[..n]);
      if n % 8 == 0 then s + [SetBit(0, 0, bits[n])] else s[n/8 := SetBit(s[n/8], n % 8, bits[n])]
  }

  /** Bit i of packed octets. */
  predicate BitOf(s: seq<bv8>, i: nat)
    requires i < 8 * |s|
  {
    Bit(s[i/8], i % 8)
  }

  lemma SetBitAt(b: bv8, j: nat, on: bool, i: nat)
    requires j < 8 && i < 8 && !Bit(b, j)
    ensures Bit(SetBit(b, j, on), i) == if i == j then on else Bit(b, i)
  {
    hide Bit, BitMask;
    if on {
      SetBitOn(b, j);
      if i != j {
        SetBitOff(b, j, i);
      }
    }
  }

  /** Packing puts every bit in its place, and nothing after the last. */
  lemma {:induction false} PackedBits(bits: seq<bool>, i: nat)
    requires i < 8 * |Packed(bits)|
    ensures BitOf(Packed(bits), i) == (i < |bits| && bits[i])
  {
    hide Bit, SetBit;
    if bits != [] {
      var n := |bits| - 1;
      var s := Packed(bits[..n]);
      if n % 8 == 0 {
        ZeroBit(0);
        ZeroBit(i % 8);
        SetBitAt(0, 0, bits[n], i % 8);
        if i < 8 * |s| {
          PackedBits(bits[..n], i);
        }
      } else {
        PackedBits(bits[..n], i);
        PackedBits(bits[..n], n);
        SetBitAt(s[n/8], n % 8, bits[n], i % 8);
      }
    }
  }

  function Unpacked(s: seq<bv8>, n: nat): (bits: seq<bool>)
    requires n <= 8 * |s|
    ensures |bits| == n
  {
    seq(n, i requires 0 <= i < n => BitOf(s, i))
  }

  lemma UnpackPacked(bits: seq<bool>)
    ensures Unpacked(Packed(bits), |bits|) == bits
  {
    hide BitOf, Packed;
    forall i | 0 <= i < |bits| ensures BitOf(Packed(bits), i) == bits[i] {
      PackedBits(bits, i);
    }
  }

  // ----- requests -----

  datatype Request =
    | ReadBits(coils: bool, addr: Word16, qty: Word16)
    | ReadWords(holding: bool, addr: Word16, qty: Word16)
    | WriteCoil(addr: Word16, on: bool)
    | WriteRegister(addr: Word16, value: Word16)
    | WriteCoils(addr: Word16, bits: seq<bool>)
    | WriteRegisters(addr: Word16, values: seq<Word16>)

  /** A request understood, or the exception it raises. */
  datatype Decoded = Raises(code: bv8) | Asks(request: Request)

  /** The data points a request covers. */
  function Span(r: Request): nat {
    match r
    case ReadBits(_, _, qty) => qty
    case ReadWords(_, _, qty) => qty
    case WriteCoil(_, _) => 1
    case WriteRegister(_, _) => 1
    case WriteCoils(_, bits) => |bits|
    case WriteRegisters(_, values) => |values|
  }

  /** The order of the checks: the form first, the address last. */
  function InRange(r: Request): Decoded {
    if r.addr + Span(r) > TABLE_SIZE then Raises(ILLEGAL_DATA_ADDRESS) else Asks(r)
  }

  function Decode(pdu: seq<bv8>): Decoded
    requires pdu != []
  {
    var f := pdu[0];
    if f == READ_COILS || f == READ_DISCRETE_INPUTS then
      if |pdu| < 5 || !(1 <= GetWord(pdu, 3) <= MAX_READ_BITS) then Raises(ILLEGAL_DATA_VALUE)
      else InRange(ReadBits(f == READ_COILS, GetWord(pdu, 1), GetWord(pdu, 3)))
    else if f == READ_HOLDING_REGISTERS || f == READ_INPUT_REGISTERS then
      if |pdu| < 5 || !(1 <= GetWord(pdu, 3) <= MAX_READ_REGISTERS) then Raises(ILLEGAL_DATA_VALUE)
      else InRange(ReadWords(f == READ_HOLDING_REGISTERS, GetWord(pdu, 1), GetWord(pdu, 3)))
    else if f == WRITE_SINGLE_COIL then
      if |pdu| < 5 || (GetWord(pdu, 3) != 0 && GetWord(pdu, 3) != 0xFF00) then Raises(ILLEGAL_DATA_VALUE)
      else InRange(WriteCoil(GetWord(pdu, 1), GetWord(pdu, 3) == 0xFF00))
    else if f == WRITE_SINGLE_REGISTER then
      if |pdu| < 5 then Raises(ILLEGAL_DATA_VALUE)
      else InRange(WriteRegister(GetWord(pdu, 1), GetWord(pdu, 3)))
    else if f == WRITE_MULTIPLE_COILS then
      if |pdu| < 6 then Raises(ILLEGAL_DATA_VALUE)
      else
        var qty := GetWord(pdu, 3);
        if !(1 <= qty <= MAX_WRITE_BITS) || Num(pdu[5]) != (qty + 7) / 8 || |pdu| < 6 + Num(pdu[5])
        then Raises(ILLEGAL_DATA_VALUE)
        else InRange(WriteCoils(GetWord(pdu, 1), Unpacked(pdu[6..], qty)))
    else if f == WRITE_MULTIPLE_REGISTERS then
      if |pdu| < 6 then Raises(ILLEGAL_DATA_VALUE)
      else
        var qty := GetWord(pdu, 3);
        if !(1 <= qty <= MAX_WRITE_REGISTERS) || Num(pdu[5]) != 2 * qty || |pdu| < 6 + Num(pdu[5])
        then Raises(ILLEGAL_DATA_VALUE)
        else InRange(WriteRegisters(GetWord(pdu, 1), GetWords(pdu, 6, qty)))
    else Raises(ILLEGAL_FUNCTION)
  }

  // ----- the meaning of a request -----

  predicate Fits(r: Request) {
    r.addr + Span(r) <= TABLE_SIZE
  }

  function Written<T>(s: seq<T>, at: nat, vs: seq<T>): (r: seq<T>)
    requires at + |vs| <= |s|
    ensures |r| == |s|
  {
    s[..at] + vs + s[at+|vs|..]
  }

  function BitValues(bits: seq<bool>): (s: seq<bv8>)
    ensures |s| == |bits|
  {
    seq(|bits|, i requires 0 <= i < |bits| => BitValue(bits[i]))
  }

  /** Only the four write requests change anything, and only coils and holding registers. */
  function Apply(t: Tables, r: Request): Tables
    requires ValidTables(t) && Fits(r)
  {
    match r
    case ReadBits(_, _, _) => t
    case ReadWords(_, _, _) => t
    case WriteCoil(addr, on) => t.(coils := t.coils[addr := BitValue(on)])
    case WriteRegister(addr, value) => t.(holding := t.holding[addr := value])
    case WriteCoils(addr, bits) => t.(coils := Written(t.coils, addr, BitValues(bits)))
    case WriteRegisters(addr, values) => t.(holding := Written(t.holding, addr, values))
  }

  function Truth(s: seq<bv8>): (bits: seq<bool>)
    ensures |bits| == |s|
  {
    seq(|s|, i requires 0 <= i < |s| => s[i] != 0)
  }

  /** The reply to a request that fits. */
  function Answer(t: Tables, r: Request, pdu: seq<bv8>): seq<bv8>
    requires ValidTables(t) && Fits(r) && pdu != []
    requires r.WriteCoil? || r.WriteRegister? ==> |pdu| >= 5
  {
    match r
    case ReadBits(coils, addr, qty) =>
      [pdu[0], Octet((qty + 7) / 8)] + Packed(Truth((if coils then t.coils else t.discrete)[addr..addr+qty]))
    case ReadWords(holding, addr, qty) =>
      [pdu[0], Octet(2 * qty)] + PutWords((if holding then t.holding else t.inputs)[addr..addr+qty])
    case WriteCoil(_, _) => pdu[..5]
    case WriteRegister(_, _) => pdu[..5]
    case WriteCoils(addr, bits) => [pdu[0]] + PutWord(addr) + PutWord(|bits|)
    case WriteRegisters(addr, values) => [pdu[0]] + PutWord(addr) + PutWord(|values|)
  }

  function Exception(f: bv8, code: bv8): seq<bv8> {
    [f | 0x80, code]
  }

  /** What Decode lets through. */
  lemma DecodeFits(pdu: seq<bv8>)
    requires pdu != [] && Decode(pdu).Asks?
    ensures Fits(Decode(pdu).request)
    ensures var r := Decode(pdu).request; r.WriteCoil? || r.WriteRegister? ==> |pdu| >= 5
    ensures var r := Decode(pdu).request; r.ReadWords? ==> r.qty <= MAX_READ_REGISTERS
  {
    hide Unpacked, GetWord, GetWords, Num;
  }

  function Reply(t: Tables, pdu: seq<bv8>): seq<bv8>
    requires ValidTables(t) && pdu != []
  {
    var d := Decode(pdu);
    if d.Raises? then Exception(pdu[0], d.code)
    else
      DecodeFits(pdu);
      Answer(t, d.request, pdu)
  }

  function After(t: Tables, pdu: seq<bv8>): Tables
    requires ValidTables(t) && pdu != []
  {
    var d := Decode(pdu);
    if d.Raises? then t
    else
      DecodeFits(pdu);
      Apply(t, d.request)
  }
}
