/** Counter bookkeeping: the table of next counters, its state file, and reservations over whole
    runs with restarts. */
module CtrState {
  import opened Bytes
  import opened KeyStore
  import opened StateFile

  /** The blocks a message of len octets reserves: at least one, and never more than 32 bits. */
  function NumBlocks(len: nat): (n: Word)
    ensures n > 0
  {
    var n := (len + 15) / 16 % WRAP;
    if n == 0 then 1 else n
  }

  // ----- one operation as a function of the table and the file -----

  /** The next counter of a slot; before its first use, the seed of its key. */
  function Position(t: Table, store: Store, slot: nat): Word
    requires slot < SLOTS
  {
    if t[slot].validOut then t[slot].nextOut else Seed(store, slot)
  }

  function Reserve(t: Table, store: Store, slot: nat, len: nat): Table
    requires slot < SLOTS
  {
    t[slot := t[slot].(validOut := true, nextOut := (Position(t, store, slot) + NumBlocks(len)) % WRAP)]
  }

  function Forget(t: Table, slot: nat): Table
    requires slot < SLOTS
  {
    t[slot := t[slot].(validOut := false, validIn := false)]
  }

  /** The state file: absent, or the lines it holds. */
  type File = Option<seq<string>>

  /** Saving replaces the whole file, unless it cannot be opened. */
  function Save(file: File, t: Table, saved: bool): File {
    if saved then Some(Lines(t, SLOTS)) else file
  }

  function LoadFile(t: Table, file: File): Table {
    if file.None? then t else Overlay(t, file.value)
  }

  function Nothing(): Table {
    seq(SLOTS, _ => EMPTY)
  }

  lemma NoLines(t: Table)
    ensures Lines(t, 0) == []
  {
  }

  lemma NextLine(t: Table, addr: nat, dir: nat)
    requires addr <= MAX_ADDR && dir < DIRS
    ensures var e := t[DIRS * addr + dir];
      Lines(t, DIRS * addr + dir + 1) ==
        Lines(t, DIRS * addr + dir) + if e.validOut || e.validIn then [Line(addr, dir, e)] else []
  {
    hide Line;
    var slot := DIRS * addr + dir;
    assert slot / DIRS == addr && slot % DIRS == dir;
  }

  // ----- the library's state -----

  class CtrTable {
    const table: array<Entry>
    var file: File

    ghost predicate Valid() {
      table.Length == SLOTS
    }

    /** A process starts with an empty table and finds the file of the last run. */
    constructor (file: File)
      ensures Valid() && fresh(table)
      ensures table[..] == Nothing() && this.file == file
    {
      table := new Entry[SLOTS](_ => EMPTY);
      this.file := file;
    }

    method Persist(saved: bool) returns (status: int)
      requires Valid()
      modifies this`file
      ensures file == Save(old(file), table[..], saved)
      ensures status == if saved then 0 else -1
    {
      if !saved {
        return -1;
      }
      var lines: seq<string> := [];
      NoLines(table[..]);
      hide Lines, Line;
      var addr := 0;
      while true
        invariant 0 <= addr <= MAX_ADDR && lines == Lines(table[..], DIRS * addr)
        decreases MAX_ADDR - addr
      {
        for dir := 0 to DIRS
          invariant lines == Lines(table[..], DIRS * addr + dir)
        {
          NextLine(table[..], addr, dir);
          var e := table[DIRS * addr + dir];
          if !e.validOut && !e.validIn {
            continue;
          }
          lines := lines + [Line(addr, dir, e)];
        }
        if addr == MAX_ADDR {
          break;
        }
        addr := addr + 1;
      }
      file := Some(lines);
      return 0;
    }

    method Load() returns (status: int)
      requires Valid()
      modifies table
      ensures table[..] == LoadFile(old(table[..]), file)
      ensures status == if file.Some? then 0 else -1
    {
      if file.None? {
        return -1;
      }
      var lines := file.value;
      var i := 0;
      while i < |lines|
        invariant 0 <= i <= |lines|
        invariant table[..] == Overlay(old(table[..]), lines[..i])
      {
        assert lines[..i+1][..i] == lines[..i];
        var m := Meaning(lines[i]);
        i := i + 1;
        if m.None? {
          continue;
        }
        table[m.value.0] := m.value.1;
      }
      assert lines[..i] == lines;
      return 0;
    }

    method Reset(addr: bv8, dir: nat, saved: bool)
      requires Valid()
      modifies this`file, table
      ensures SlotOf(addr, dir).None? ==> table[..] == old(table[..]) && file == old(file)
      ensures SlotOf(addr, dir).Some? ==>
        table[..] == Forget(old(table[..]), SlotOf(addr, dir).value) && file == Save(old(file), table[..], saved)
      ensures SlotOf(addr, dir).Some? ==>
        var slot := SlotOf(addr, dir).value;
        && !table[slot].validOut && !table[slot].validIn
        && (forall i | 0 <= i < SLOTS && i != slot :: table[i] == old(table[i]))
    {
      var slot := SlotOf(addr, dir);
      if slot.None? {
        return;
      }
      var i := slot.value;
      table[i] := table[i].(validOut := false);
      table[i] := table[i].(validIn := false);
      var _ := Persist(saved);
    }

    method NextOutgoing(store: Store, addr: bv8, dir: nat, len: nat, saved: bool) returns (ctr: Word)
      requires Valid()
      modifies this`file, table
      ensures SlotOf(addr, dir).None? ==> ctr == 0 && table[..] == old(table[..]) && file == old(file)
      ensures SlotOf(addr, dir).Some? ==>
        && ctr == Position(old(table[..]), store, SlotOf(addr, dir).value)
        && table[..] == Reserve(old(table[..]), store, SlotOf(addr, dir).value, len)
        && file == Save(old(file), table[..], saved)
      ensures SlotOf(addr, dir).Some? ==>
        var slot := SlotOf(addr, dir).value;
        var e, blocks := old(table[slot]), (len + 15) / 16 % 0x1_0000_0000;
        && ctr == (if e.validOut then e.nextOut else if slot in store then store[slot].initialCtr else 0)
        && table[slot].validOut && table[slot].validIn == e.validIn && table[slot].highIn == e.highIn
        && table[slot].nextOut == (ctr + if blocks == 0 then 1 else blocks) % 0x1_0000_0000
        && (forall i | 0 <= i < SLOTS && i != slot :: table[i] == old(table[i]))
    {
      var slot := SlotOf(addr, dir);
      if slot.None? {
        return 0;
      }
      var i := slot.value;
      if !table[i].validOut {
        table[i] := table[i].(nextOut := Seed(store, i), validOut := true);
      }
      var numBlocks := (len + 15) / 16 % WRAP;
      if numBlocks == 0 {
        numBlocks := 1;
      }
      ctr := table[i].nextOut;
      table[i] := table[i].(nextOut := (ctr + numBlocks) % WRAP);
      var _ := Persist(saved);
    }
  }
}
