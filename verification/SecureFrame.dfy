/** The secure frame: address, encrypted ADU, and a keyed hash of both. */
module SecureFrame {
  import opened Bytes
  import opened Ctr
  import opened Counter
  import opened Crc
  import opened CtrState
  import opened KeyStore
  import opened LeaCtr
  import opened Modes
  import opened StateFile

  const MAX_PDU: nat := 253
  const MAX_ADU: nat := 256
  const HMAC_LEN: nat := 32
  const ANY_ADDR: bv8 := 0xFF

  type Tag = s: seq<bv8> | |s| == HMAC_LEN witness seq(HMAC_LEN, _ => 0)

  /** The cipher of a key and the keyed hash of a text. */
  datatype Crypto = Crypto(cipher: seq<bv8> -> Cipher, mac: (seq<bv8>, seq<bv8>) -> Tag)

  datatype Frame = Frame(addr: bv8, ciphertext: seq<bv8>, hmac: Tag)

  datatype Status = Ok | Malformed | WrongAddr | NoKey | BadHmac | BadCrc

  // ----- framing -----

  function Build(f: Frame): seq<bv8> {
    [f.addr] + f.ciphertext + f.hmac
  }

  function Parse(wire: seq<bv8>): Option<Frame> {
    if |wire| < 1 + HMAC_LEN || |wire| - 1 - HMAC_LEN > MAX_ADU then None
    else
      var n := |wire| - HMAC_LEN;
      Some(Frame(wire[0], wire[1..n], wire[n..]))
  }

  /** Parsing undoes building exactly for ciphertexts that fit, and building undoes parsing. */
  lemma ParseBuild(f: Frame)
    ensures Parse(Build(f)) == if |f.ciphertext| <= MAX_ADU then Some(f) else None
  {
    var w := Build(f);
    var n := 1 + |f.ciphertext|;
    assert w[0] == f.addr && w[1..n] == f.ciphertext && w[n..] == f.hmac;
  }

  lemma BuildParse(wire: seq<bv8>)
    requires Parse(wire).Some?
    ensures Build(Parse(wire).value) == wire
  {
    var n := |wire| - HMAC_LEN;
    assert wire == [wire[0]] + wire[1..n] + wire[n..];
  }

  /** The octets of a frame by position. */
  lemma BuiltWire(f: Frame)
    ensures var w, n := Build(f), 1 + |f.ciphertext|;
      && |w| == n + 32 && w[0] == f.addr && w[1..n] == f.ciphertext && w[n..] == f.hmac
      && w[..n] == [f.addr] + f.ciphertext
  {
  }

  // ----- one frame as a function of the counter table -----

  /** The octets that are encrypted: address, PDU, check. */
  function Adu(addr: bv8, pdu: seq<bv8>): (a: seq<bv8>)
    ensures |a| == |pdu| + 3
  {
    Protected([addr] + pdu, Crc16([addr] + pdu))
  }

  /** Encryption or decryption at a given counter. */
  function AtCounter(k: Cipher, ctr: Word, x: seq<bv8>): (y: seq<bv8>)
    ensures |y| == |x|
  {
    CtrAt(k.enc, CounterBlock(ZERO[..12], ctr), x, 0)
  }

  function SealedFrame(c: Crypto, keys: Keys, ctr: Word, addr: bv8, pdu: seq<bv8>): (f: Frame)
    ensures |f.ciphertext| == |pdu| + 3
  {
    var ct := AtCounter(c.cipher(keys.encKey), ctr, Adu(addr, pdu));
    Frame(addr, ct, c.mac(keys.macKey, [addr] + ct))
  }

  predicate CanSend(store: Store, addr: bv8, pdu: seq<bv8>, dir: nat) {
    |pdu| <= MAX_PDU && Lookup(store, addr, dir).Some?
  }

  /** The counter table after an accepted keyed hash, and the verdict on the text. */
  datatype Reception = Reception(status: Status, pdu: seq<bv8>, table: Table)

  /** The frame that is left once it parses, is addressed to us, has a key and passes its hash. */
  function Authentic(c: Crypto, store: Store, wire: seq<bv8>, expected: bv8, dir: nat): (r: (Status, Option<Frame>))
    ensures r.0 == Ok ==> r.1 == Parse(wire) && r.1.Some? && Lookup(store, r.1.value.addr, dir).Some?
  {
    var f := Parse(wire);
    if f.None? then (Malformed, None)
    else if expected != ANY_ADDR && f.value.addr != expected then (WrongAddr, None)
    else
      var keys := Lookup(store, f.value.addr, dir);
      if keys.None? then (NoKey, None)
      else if c.mac(keys.value.macKey, [f.value.addr] + f.value.ciphertext) != f.value.hmac then (BadHmac, None)
      else (Ok, f)
  }

  /** The text of an authentic frame at the receiver's counter. */
  function Decrypted(c: Crypto, store: Store, t: Table, f: Frame, dir: nat): (adu: seq<bv8>)
    requires Lookup(store, f.addr, dir).Some?
    ensures |adu| == |f.ciphertext|
  {
    var k := c.cipher(Lookup(store, f.addr, dir).value.encKey);
    AtCounter(k, Position(t, store, SlotOf(f.addr, dir).value), f.ciphertext)
  }

  /** An authentic frame whose text is two octets that pass for a check: its PDU length would be
      negative, and the source does not notice. */
  predicate Underflows(c: Crypto, store: Store, t: Table, wire: seq<bv8>, expected: bv8, dir: nat) {
    var (status, f) := Authentic(c, store, wire, expected, dir);
    status == Ok && |f.value.ciphertext| == 2 && Accepted(Decrypted(c, store, t, f.value, dir))
  }

  /** The verdict on a decrypted text. */
  function Verdict(adu: seq<bv8>): (Status, seq<bv8>)
    requires |adu| == 2 ==> !Accepted(adu)
  {
    if |adu| < 2 || !Accepted(adu) then (BadCrc, []) else (Ok, adu[1..|adu|-2])
  }

  function Receive(c: Crypto, store: Store, t: Table, wire: seq<bv8>, expected: bv8, dir: nat): Reception
    requires !Underflows(c, store, t, wire, expected, dir)
  {
    var (status, f) := Authentic(c, store, wire, expected, dir);
    if status != Ok then Reception(status, [], t)
    else
      var (s, pdu) := Verdict(Decrypted(c, store, t, f.value, dir));
      Reception(s, pdu, Reserve(t, store, SlotOf(f.value.addr, dir).value, |f.value.ciphertext|))
  }

  /** Two octets pass for the check of nothing exactly when both are 0xFF. */
  lemma TwoOctetsAccepted(adu: seq<bv8>)
    requires |adu| == 2
    ensures Accepted(adu) <==> adu == [0xFF, 0xFF]
  {
    assert adu[..0] == [];
    JoinedOnes(adu[0], adu[1]);
  }

  lemma JoinedOnes(low: bv8, high: bv8)
    ensures Join(low, high) == INITIAL <==> low == 0xFF && high == 0xFF
  {
  }

  /** Such frames exist under every key and at every counter, but no sender builds one. */
  lemma UnderflowExists(c: Crypto, store: Store, t: Table, addr: bv8, dir: nat) returns (wire: seq<bv8>)
    requires Lookup(store, addr, dir).Some?
    ensures Underflows(c, store, t, wire, addr, dir) && Underflows(c, store, t, wire, ANY_ADDR, dir)
    ensures forall keys: Keys, ctr: Word, pdu: seq<bv8> :: wire != Build(SealedFrame(c, keys, ctr, addr, pdu))
  {
    var keys := Lookup(store, addr, dir).value;
    var k := c.cipher(keys.encKey);
    var ctr := Position(t, store, SlotOf(addr, dir).value);
    var ct := AtCounter(k, ctr, [0xFF, 0xFF]);
    var f := Frame(addr, ct, c.mac(keys.macKey, [addr] + ct));
    wire := Build(f);
    TwoOctetsAccepted([0xFF, 0xFF]);
    CtrInverse(k.enc, CounterBlock(ZERO[..12], ctr), [0xFF, 0xFF], 0);
    ParseBuild(f);
    hide CtrAt, Accepted, Position, Lookup;
    forall keys: Keys, ctr: Word, pdu: seq<bv8> ensures wire != Build(SealedFrame(c, keys, ctr, addr, pdu)) {
      assert |Build(SealedFrame(c, keys, ctr, addr, pdu))| >= 36;
    }
  }

  /** The octets of a received frame and what is made of them: the checks in their order, then the text under the
      encryption key and the PDU in it. */
  ghost predicate Received(c: Crypto, store: Store, t: Table, wire: seq<bv8>, expected: bv8, dir: nat,
                           status: Status, pdu: seq<bv8>)
  {
    if |wire| < 33 || |wire| > 289 then status == Malformed && pdu == []
    else if expected != 0xFF && wire[0] != expected then status == WrongAddr && pdu == []
    else if wire[0] as nat > 247 || dir >= 3 || 3 * (wire[0] as nat) + dir !in store then status == NoKey && pdu == []
    else
      var slot, n := 3 * (wire[0] as nat) + dir, |wire| - 32;
      var e, keys := t[slot], store[slot].keys;
      if wire[n..] != c.mac(keys.macKey, wire[..n]) then status == BadHmac && pdu == []
      else
        var ctr := if e.validOut then e.nextOut else store[slot].initialCtr;
        var adu := CtrAt(c.cipher(keys.encKey).enc, ZERO[..12] + Word32(ctr), wire[1..n], 0);
        if n < 3 || Crc16(adu[..n-3]) != ((adu[n-3] as bv16) | ((adu[n-2] as bv16) << 8))
        then status == BadCrc && pdu == []
        else status == Ok && n >= 4 && pdu == adu[1..n-3]
  }

  /** The checks before decryption, on the octets. */
  lemma AuthenticOctets(c: Crypto, store: Store, wire: seq<bv8>, expected: bv8, dir: nat)
    ensures var (status, f) := Authentic(c, store, wire, expected, dir);
      if |wire| < 33 || |wire| > 289 then status == Malformed
      else if expected != 0xFF && wire[0] != expected then status == WrongAddr
      else
        var slot, n := 3 * (wire[0] as nat) + dir, |wire| - 32;
        if wire[0] as nat > 247 || dir >= 3 || slot !in store then status == NoKey
        else if wire[n..] != c.mac(store[slot].keys.macKey, wire[..n]) then status == BadHmac
        else
          && status == Ok && f == Some(Frame(wire[0], wire[1..n], wire[n..]))
          && SlotOf(wire[0], dir) == Some(slot) && Lookup(store, wire[0], dir) == Some(store[slot].keys)
  {
    if 33 <= |wire| <= 289 {
      var n := |wire| - 32;
      assert [wire[0]] + wire[1..n] == wire[..n];
    }
  }

  lemma VerdictOctets(adu: seq<bv8>)
    requires |adu| == 2 ==> !Accepted(adu)
    ensures var n := |adu|;
      if n < 2 || Crc16(adu[..n-2]) != ((adu[n-2] as bv16) | ((adu[n-1] as bv16) << 8))
      then Verdict(adu) == (BadCrc, [])
      else n >= 3 && Verdict(adu) == (Ok, adu[1..n-2])
  {
    hide Crc16;
  }

  lemma ReceivedOctets(c: Crypto, store: Store, t: Table, wire: seq<bv8>, expected: bv8, dir: nat)
    requires !Underflows(c, store, t, wire, expected, dir)
    ensures var r := Receive(c, store, t, wire, expected, dir);
      Received(c, store, t, wire, expected, dir, r.status, r.pdu)
  {
    AuthenticOctets(c, store, wire, expected, dir);
    var (status, f) := Authentic(c, store, wire, expected, dir);
    hide Authentic, Crc16, CtrAt, Word32, Reserve, Lookup, SlotOf, Accepted, Verdict, Decrypted;
    if status == Ok {
      DecryptedOctets(c, store, t, wire, dir);
      VerdictOctets(Decrypted(c, store, t, f.value, dir));
    }
  }

  lemma DecryptedOctets(c: Crypto, store: Store, t: Table, wire: seq<bv8>, dir: nat)
    requires |wire| >= 33 && wire[0] as nat <= 247 && dir < 3 && 3 * (wire[0] as nat) + dir in store
    ensures var slot, n := 3 * (wire[0] as nat) + dir, |wire| - 32;
      var ctr := if t[slot].validOut then t[slot].nextOut else store[slot].initialCtr;
      Decrypted(c, store, t, Frame(wire[0], wire[1..n], wire[n..]), dir) ==
        CtrAt(c.cipher(store[slot].keys.encKey).enc, ZERO[..12] + Word32(ctr), wire[1..n], 0)
  {
    hide CtrAt, Word32;
  }

  // ----- the library's calls -----

  class Endpoint {
    const crypto: Crypto
    const store: Store
    const ctrs: CtrTable
    const maxBlk: nat

    ghost predicate Valid() {
      ctrs.Valid()
    }

    ghost function Counters(): Table
      requires Valid()
      reads ctrs.table
    {
      ctrs.table[..]
    }

    constructor (crypto: Crypto, store: Store, ctrs: CtrTable, maxBlk: nat)
      requires ctrs.Valid()
      ensures Valid()
      ensures this.crypto == crypto && this.store == store && this.ctrs == ctrs && this.maxBlk == maxBlk
    {
      this.crypto := crypto;
      this.store := store;
      this.ctrs := ctrs;
      this.maxBlk := maxBlk;
    }

    method EncryptAndBuild(addr: bv8, pdu: seq<bv8>, dir: nat, saved: bool) returns (status: int, wire: seq<bv8>)
      requires Valid()
      modifies ctrs, ctrs.table
      ensures status == if CanSend(store, addr, pdu, dir) then 0 else -1
      ensures status != 0 ==> Counters() == old(Counters()) && ctrs.file == old(ctrs.file)
      ensures status == 0 ==>
        var slot := SlotOf(addr, dir).value;
        && wire == Build(SealedFrame(crypto, Lookup(store, addr, dir).value,
                                     Position(old(Counters()), store, slot), addr, pdu))
        && Counters() == Reserve(old(Counters()), store, slot, |pdu| + 3)
        && ctrs.file == Save(old(ctrs.file), Counters(), saved)
      ensures status == 0 <==> |pdu| <= 253 && addr as nat <= 247 && dir < 3 && SlotOf(addr, dir).value in store
      ensures status == 0 ==>
        var slot := SlotOf(addr, dir).value;
        var e, check := old(Counters()[slot]), Crc16([addr] + pdu);
        var ctr := if e.validOut then e.nextOut else store[slot].initialCtr;
        var n := |wire| - 32;
        && n == |pdu| + 4 && wire[0] == addr
        && wire[n..] == crypto.mac(store[slot].keys.macKey, wire[..n])
        && CtrAt(crypto.cipher(store[slot].keys.encKey).enc, ZERO[..12] + Word32(ctr), wire[1..n], 0) ==
           [addr] + pdu + [(check & 0xFF) as bv8, (check >> 8) as bv8]
    {
      wire := [];
      if |pdu| > MAX_PDU {
        return -1, wire;
      }
      var keys := Lookup(store, addr, dir);
      if keys.None? {
        return -1, wire;
      }
      hide Reserve, Position, Save, CtrAt, Crc16, Low, High;
      var adu := [addr] + pdu;
      var crc := ComputeCrc16(adu);
      adu := adu + [Low(crc), High(crc)];
      var low := ctrs.NextOutgoing(store, addr, dir, |adu|, saved);
      var ct := LeaCtrCrypt(crypto.cipher(keys.value.encKey), ZERO[..12], low, true, adu, maxBlk);
      var hmac := crypto.mac(keys.value.macKey, [addr] + ct);
      wire := Build(Frame(addr, ct, hmac));
      BuiltWire(Frame(addr, ct, hmac));
      CtrInverse(crypto.cipher(keys.value.encKey).enc, CounterBlock(ZERO[..12], low), adu, 0);
      status := 0;
    }

    method VerifyAndDecrypt(wire: seq<bv8>, expected: bv8, dir: nat, saved: bool)
      returns (status: Status, pdu: seq<bv8>)
      requires Valid() && !Underflows(crypto, store, Counters(), wire, expected, dir)
      modifies ctrs, ctrs.table
      ensures Reception(status, pdu, Counters()) == Receive(crypto, store, old(Counters()), wire, expected, dir)
      ensures ctrs.file ==
        if Authentic(crypto, store, wire, expected, dir).0 == Ok then Save(old(ctrs.file), Counters(), saved)
        else old(ctrs.file)
      ensures Received(crypto, store, old(Counters()), wire, expected, dir, status, pdu)
    {
      ReceivedOctets(crypto, store, Counters(), wire, expected, dir);
      hide Reserve, Position, Save, CtrAt, Crc16, Join, Received;
      pdu := [];
      var parsed := Parse(wire);
      if parsed.None? {
        return Malformed, pdu;
      }
      var frame := parsed.value;
      if expected != ANY_ADDR && frame.addr != expected {
        return WrongAddr, pdu;
      }
      var keys := Lookup(store, frame.addr, dir);
      if keys.None? {
        return NoKey, pdu;
      }
      if crypto.mac(keys.value.macKey, [frame.addr] + frame.ciphertext) != frame.hmac {
        return BadHmac, pdu;
      }
      var n := |frame.ciphertext|;
      var low := ctrs.NextOutgoing(store, frame.addr, dir, n, saved);
      var adu := LeaCtrCrypt(crypto.cipher(keys.value.encKey), ZERO[..12], low, false, frame.ciphertext, maxBlk);
      if n < 2 {
        return BadCrc, pdu;
      }
      var calculated := ComputeCrc16(adu[..n-2]);
      var received := Join(adu[n-2], adu[n-1]);
      if calculated != received {
        return BadCrc, pdu;
      }
      pdu := adu[1..n-2];
      status := Ok;
    }
  }

  // ----- one frame from end to end -----

  /** A frame built at the receiver's counter is accepted with exactly the PDU sent, and the receiver
      reserves what the sender reserved. */
  lemma SendReceive(c: Crypto, store: Store, t: Table, addr: bv8, pdu: seq<bv8>, dir: nat, expected: bv8)
    requires CanSend(store, addr, pdu, dir)
    requires expected == ANY_ADDR || expected == addr
    ensures var slot := SlotOf(addr, dir).value;
      var wire := Build(SealedFrame(c, Lookup(store, addr, dir).value, Position(t, store, slot), addr, pdu));
      !Underflows(c, store, t, wire, expected, dir) &&
      Receive(c, store, t, wire, expected, dir) == Reception(Ok, pdu, Reserve(t, store, slot, |pdu| + 3))
  {
    var slot := SlotOf(addr, dir).value;
    var keys := Lookup(store, addr, dir).value;
    hide Reserve, Position, Crc16, Low, High, Lookup;
    var ctr := Position(t, store, slot);
    var f := SealedFrame(c, keys, ctr, addr, pdu);
    ParseBuild(f);
    CtrInverse(c.cipher(keys.encKey).enc, CounterBlock(ZERO[..12], ctr), Adu(addr, pdu), 0);
    hide CtrAt, Build, Parse;
    assert AtCounter(c.cipher(keys.encKey), ctr, f.ciphertext) == Adu(addr, pdu);
    ProtectedAccepted([addr] + pdu, Crc16([addr] + pdu));
    assert Adu(addr, pdu)[1..|pdu|+1] == pdu;
  }

  /** Frames that are malformed, for another address, without a key or with a wrong keyed hash leave
      the table alone; every other frame takes at least one block from its slot. */
  lemma OnlyAuthenticFramesCount(c: Crypto, store: Store, t: Table, wire: seq<bv8>, expected: bv8, dir: nat)
    requires !Underflows(c, store, t, wire, expected, dir)
    ensures var r := Receive(c, store, t, wire, expected, dir);
      var a := Authentic(c, store, wire, expected, dir);
      && (a.0 != Ok ==> r == Reception(a.0, [], t))
      && (a.0 == Ok ==> forall slot | 0 <= slot < SLOTS ::
           (Position(r.table, store, slot) != Position(t, store, slot)) <==> (slot == SlotOf(wire[0], dir).value))
  {
    var (status, f) := Authentic(c, store, wire, expected, dir);
    if status == Ok {
      var slot := SlotOf(f.value.addr, dir).value;
      var n := |f.value.ciphertext|;
      hide Decrypted, Verdict;
      Moves(Position(t, store, slot), NumBlocks(n));
    }
  }

  lemma Moves(p: Word, n: Word)
    requires n > 0
    ensures (p + n) % WRAP != p
  {
  }
}
