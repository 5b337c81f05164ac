/** The text form of the counter table: one line per entry in use, printed and scanned in decimal. */
module StateFile {
  import opened KeyStore

  datatype Entry = Entry(validOut: bool, nextOut: Word, validIn: bool, highIn: Word)

  const EMPTY := Entry(false, 0, false, 0)

  type Table = t: seq<Entry> | |t| == SLOTS witness seq(SLOTS, _ => EMPTY)

  predicate InUse(e: Entry) {
    e.validOut || e.validIn
  }

  // ----- printing -----

  predicate IsDigit(c: char) {
    '0' <= c <= '9'
  }

  predicate IsBlank(c: char) {
    c == ' ' || '\t' <= c <= '\r'
  }

  function Digit(d: nat): (c: char)
    requires d < 10
    ensures IsDigit(c) && c as nat == 48 + d
  {
    (48 + d) as char
  }

  function Decimal(n: nat): (s: string)
    ensures s != [] && forall i | 0 <= i < |s| :: IsDigit(s[i])
  {
    if n < 10 then [Digit(n)] else Decimal(n / 10) + [Digit(n % 10)]
  }

  function DirName(dir: nat): string {
    if dir == 0 then "m2s" else if dir == 1 then "s2m" else "bc"
  }

  function Flag(b: bool): nat {
    if b then 1 else 0
  }

  /** A field and what follows it. */
  function Put(field: string, rest: string): string {
    field + rest
  }

  function Spaced(rest: string): string {
    " " + rest
  }

  function Line(addr: nat, dir: nat, e: Entry): string {
    Put(Decimal(addr), Spaced(Put(DirName(dir),
      Spaced(Put(Decimal(Flag(e.validOut)), Spaced(Put(Decimal(e.nextOut),
      Spaced(Put(Decimal(Flag(e.validIn)), Spaced(Put(Decimal(e.highIn), "\n")))))))))))
  }

  function SlotLine(t: Table, slot: nat): string
    requires slot < SLOTS
  {
    Line(slot / DIRS, slot % DIRS, t[slot])
  }

  /** The lines of the entries in use among the first n slots, in slot order. */
  function Lines(t: Table, n: nat): seq<string>
    requires n <= SLOTS
  {
    if n == 0 then []
    else Lines(t, n - 1) + if InUse(t[n-1]) then [SlotLine(t, n - 1)] else []
  }

  // ----- scanning -----

  function SkipBlanks(s: string): (r: string)
    ensures |r| <= |s|
  {
    if s != [] && IsBlank(s[0]) then SkipBlanks(s[1..]) else s
  }

  /** The length of the leading run of digits. */
  function Digits(s: string): (n: nat)
    ensures n <= |s|
    ensures forall i | 0 <= i < n :: IsDigit(s[i])
  {
    if s != [] && IsDigit(s[0]) then 1 + Digits(s[1..]) else 0
  }

  /** The length of the leading run of visible characters. */
  function Visible(s: string): (n: nat)
    ensures n <= |s|
  {
    if s != [] && !IsBlank(s[0]) then 1 + Visible(s[1..]) else 0
  }

  function NumberOf(s: string): nat
    requires forall i | 0 <= i < |s| :: IsDigit(s[i])
  {
    if s == [] then 0 else
    assert IsDigit(s[|s|-1]);
    NumberOf(s[..|s|-1]) * 10 + (s[|s|-1] as nat - 48)
  }

  datatype Scanned<T> = Fail | Got(value: T, rest: string)

  /** An unsigned conversion into a 32-bit variable: blanks are skipped, one digit is needed. */
  function ScanNumber(s: string): Scanned<Word> {
    var t := SkipBlanks(s);
    var n := Digits(t);
    if n == 0 then Fail else Got(NumberOf(t[..n]) % 0x1_0000_0000, t[n..])
  }

  /** A string conversion that takes at most width characters. */
  function ScanToken(s: string, width: nat): Scanned<string> {
    var t := SkipBlanks(s);
    var n := if Visible(t) < width then Visible(t) else width;
    if n == 0 then Fail else Got(t[..n], t[n..])
  }

  datatype Record = Record(addr: Word, dir: string, entry: Entry)

  /** All six fields of a line, or nothing. */
  function ScanLine(line: string): Option<Record> {
    var a := ScanNumber(line);
    if a.Fail? then None else
    var d := ScanToken(a.rest, 7);
    if d.Fail? then None else
    var vo := ScanNumber(d.rest);
    if vo.Fail? then None else
    var no := ScanNumber(vo.rest);
    if no.Fail? then None else
    var vi := ScanNumber(no.rest);
    if vi.Fail? then None else
    var hi := ScanNumber(vi.rest);
    if hi.Fail? then None else
    Some(Record(a.value, d.value, Entry(vo.value != 0, no.value, vi.value != 0, hi.value)))
  }

  function DirIndex(name: string): Option<nat> {
    if name == "m2s" then Some(0) else if name == "s2m" then Some(1) else if name == "bc" then Some(2) else None
  }

  /** The slot and entry a line stands for; a line with a field missing, an address out of range or
      an unknown direction stands for none. */
  function Meaning(line: string): (r: Option<(nat, Entry)>)
    ensures r.Some? ==> r.value.0 < SLOTS
  {
    var r := ScanLine(line);
    if r.None? || r.value.addr > MAX_ADDR then None else
    var dir := DirIndex(r.value.dir);
    if dir.None? then None else Some((DIRS * r.value.addr + dir.value, r.value.entry))
  }

  function ApplyLine(t: Table, line: string): Table {
    var m := Meaning(line);
    if m.None? then t else t[m.value.0 := m.value.1]
  }

  /** Loading lays the lines of the file over the table, one after the other. */
  function Overlay(t: Table, lines: seq<string>): Table {
    if lines == [] then t else ApplyLine(Overlay(t, lines[..|lines|-1]), lines[|lines|-1])
  }

  /** Some line of the file is for slot i. */
  predicate HasLine(lines: seq<string>, i: nat) {
    exists k | 0 <= k < |lines| :: Sets(lines[k], i)
  }

  predicate Sets(line: string, i: nat) {
    Meaning(line).Some? && Meaning(line).value.0 == i
  }

  /** Loading sets a slot that has a line to what the file says, whatever the table held before, and leaves every
      other slot alone. */
  lemma {:induction false} OverlayBase(t: Table, u: Table, lines: seq<string>, i: nat)
    requires i < SLOTS
    ensures HasLine(lines, i) ==> Overlay(t, lines)[i] == Overlay(u, lines)[i]
    ensures !HasLine(lines, i) ==> Overlay(t, lines)[i] == t[i] && Overlay(u, lines)[i] == u[i]
  {
    hide Meaning;
    if lines != [] {
      var init, last := lines[..|lines|-1], lines[|lines|-1];
      OverlayBase(t, u, init, i);
      if HasLine(init, i) {
        var k :| 0 <= k < |init| && Sets(init[k], i);
        assert lines[k] == init[k];
      } else if HasLine(lines, i) {
        forall k | 0 <= k < |init| ensures !Sets(lines[k], i) {
          assert init[k] == lines[k];
        }
      } else {
        assert !Sets(lines[|lines|-1], i);
      }
    }
  }

  // ----- the text of a line -----

  /** A line gives address, direction, the flag and the next counter for outgoing messages, and the flag and the
      highest counter of incoming ones. */
  lemma LineText(addr: nat, dir: nat, e: Entry)
    requires dir < 3
    ensures Line(addr, dir, e) == Decimal(addr) + " " + ["m2s", "s2m", "bc"][dir] + " " +
      (if e.validOut then "1" else "0") + " " + Decimal(e.nextOut) + " " +
      (if e.validIn then "1" else "0") + " " + Decimal(e.highIn) + "\n"
  {
    OneDigit();
    hide Decimal;
    Six(Decimal(addr), ["m2s", "s2m", "bc"][dir], Decimal(Flag(e.validOut)), Decimal(e.nextOut),
        Decimal(Flag(e.validIn)), Decimal(e.highIn));
  }

  lemma Six(a: string, b: string, c: string, d: string, e: string, f: string)
    ensures a + (" " + (b + (" " + (c + (" " + (d + (" " + (e + (" " + (f + "\n")))))))))) ==
      a + " " + b + " " + c + " " + d + " " + e + " " + f + "\n"
  {
  }

  lemma OneDigit()
    ensures Decimal(0) == "0" && Decimal(1) == "1"
  {
  }

  // ----- scanning undoes printing -----

  lemma {:induction false} DecimalValue(n: nat)
    ensures NumberOf(Decimal(n)) == n
  {
    if n >= 10 {
      DecimalValue(n / 10);
      assert Decimal(n)[..|Decimal(n)|-1] == Decimal(n / 10);
    } else {
      assert Decimal(n)[..0] == [];
    }
  }

  lemma {:induction false} DigitsOf(s: string, rest: string)
    requires forall i | 0 <= i < |s| :: IsDigit(s[i])
    requires rest == [] || !IsDigit(rest[0])
    ensures Digits(s + rest) == |s|
  {
    if s == [] {
      assert s + rest == rest;
    } else {
      assert (s + rest)[1..] == s[1..] + rest && (s + rest)[0] == s[0];
      DigitsOf(s[1..], rest);
    }
  }

  lemma {:induction false} VisibleOf(s: string, rest: string)
    requires forall i | 0 <= i < |s| :: !IsBlank(s[i])
    requires rest == [] || IsBlank(rest[0])
    ensures Visible(s + rest) == |s|
  {
    if s == [] {
      assert s + rest == rest;
    } else {
      assert (s + rest)[1..] == s[1..] + rest && (s + rest)[0] == s[0];
      VisibleOf(s[1..], rest);
    }
  }

  lemma OneBlank(s: string)
    requires s != [] && !IsBlank(s[0])
    ensures SkipBlanks(s) == s && SkipBlanks(" " + s) == s
  {
    assert (" " + s)[0] == ' ' && (" " + s)[1..] == s;
  }

  predicate StartsBlank(s: string) {
    s != [] && IsBlank(s[0])
  }

  lemma SpacedStartsBlank(s: string)
    ensures StartsBlank(Spaced(s)) && StartsBlank("\n")
  {
  }

  lemma ScanDecimal(n: Word, rest: string)
    requires StartsBlank(rest)
    ensures ScanNumber(Put(Decimal(n), rest)) == Got(n, rest)
    ensures ScanNumber(Spaced(Put(Decimal(n), rest))) == Got(n, rest)
  {
    var d := Decimal(n);
    hide Decimal;
    DecimalValue(n);
    DigitsOf(d, rest);
    var s := Put(d, rest);
    OneBlank(s);
    hide Digits, SkipBlanks, NumberOf;
    assert s[..|d|] == d && s[|d|..] == rest;
  }

  lemma ScanDirName(dir: nat, rest: string)
    requires StartsBlank(rest)
    ensures ScanToken(Spaced(Put(DirName(dir), rest)), 7) == Got(DirName(dir), rest)
  {
    var d := DirName(dir);
    var s := Put(d, rest);
    assert s[0] == d[0];
    OneBlank(s);
    VisibleOf(d, rest);
    hide Visible, SkipBlanks;
    assert s[..|d|] == d && s[|d|..] == rest;
  }

  /** A printed line scans to the entry it was printed from. */
  lemma LineParses(addr: Word, dir: nat, e: Entry)
    ensures ScanLine(Line(addr, dir, e)) == Some(Record(addr, DirName(dir), e))
  {
    hide ScanNumber, ScanToken, Decimal, DirName, Put, Spaced, StartsBlank;
    var f5 := Put(Decimal(e.highIn), "\n");
    var f4 := Put(Decimal(Flag(e.validIn)), Spaced(f5));
    var f3 := Put(Decimal(e.nextOut), Spaced(f4));
    var f2 := Put(Decimal(Flag(e.validOut)), Spaced(f3));
    var f1 := Put(DirName(dir), Spaced(f2));
    SpacedStartsBlank(f1);
    SpacedStartsBlank(f2);
    SpacedStartsBlank(f3);
    SpacedStartsBlank(f4);
    SpacedStartsBlank(f5);
    ScanDecimal(addr, Spaced(f1));
    ScanDirName(dir, Spaced(f2));
    ScanDecimal(Flag(e.validOut), Spaced(f3));
    ScanDecimal(e.nextOut, Spaced(f4));
    ScanDecimal(Flag(e.validIn), Spaced(f5));
    ScanDecimal(e.highIn, "\n");
  }

  lemma DirIndexOfName(dir: nat)
    requires dir < DIRS
    ensures DirIndex(DirName(dir)) == Some(dir)
  {
    assert "s2m"[0] != "m2s"[0] && "bc"[0] != "m2s"[0] && "bc"[0] != "s2m"[0];
  }

  lemma SlotLineMeaning(t: Table, slot: nat)
    requires slot < SLOTS
    ensures Meaning(SlotLine(t, slot)) == Some((slot, t[slot]))
  {
    hide ScanLine, Line, DirName, DirIndex;
    LineParses(slot / DIRS, slot % DIRS, t[slot]);
    DirIndexOfName(slot % DIRS);
  }

  // ----- a saved table loads back -----

  /** t below slot n where t is in use, and base everywhere else. */
  function Restored(t: Table, base: Table, n: nat): (r: Table) {
    seq(SLOTS, i requires 0 <= i < SLOTS => if i < n && InUse(t[i]) then t[i] else base[i])
  }

  lemma {:induction false} LoadLines(t: Table, base: Table, n: nat)
    requires n <= SLOTS
    ensures Overlay(base, Lines(t, n)) == Restored(t, base, n)
  {
    hide InUse, Meaning, SlotLine;
    if n == 0 {
      assert Restored(t, base, n) == base;
    } else {
      LoadLines(t, base, n - 1);
      SlotLineMeaning(t, n - 1);
      var l := Lines(t, n);
      if InUse(t[n-1]) {
        assert l[..|l|-1] == Lines(t, n - 1);
        assert Overlay(base, l) == Restored(t, base, n - 1)[n-1 := t[n-1]] == Restored(t, base, n);
      } else {
        assert l == Lines(t, n - 1) && Restored(t, base, n) == Restored(t, base, n - 1);
      }
    }
  }

  /** Saving and loading restores every entry in use, over whatever table; over the saved table
      itself nothing changes, and over an empty one only the entries in use come back. */
  lemma SaveThenLoad(t: Table, base: Table)
    ensures forall i | 0 <= i < SLOTS ::
      Overlay(base, Lines(t, SLOTS))[i] == if InUse(t[i]) then t[i] else base[i]
    ensures Overlay(t, Lines(t, SLOTS)) == t
  {
    LoadLines(t, base, SLOTS);
    LoadLines(t, t, SLOTS);
    assert Restored(t, t, SLOTS) == t;
  }

  /** The slot of a line that stands for one; no slot has the number SLOTS. */
  function SlotOfLine(line: string): nat {
    var m := Meaning(line);
    if m.Some? then m.value.0 else SLOTS
  }

  /** Every line of a saved table stands for an entry in use. */
  lemma {:induction false} LinesStandForEntries(t: Table, n: nat, k: nat)
    requires n <= SLOTS && k < |Lines(t, n)|
    ensures var i := SlotOfLine(Lines(t, n)[k]);
      i < n && InUse(t[i]) && Meaning(Lines(t, n)[k]) == Some((i, t[i]))
  {
    hide InUse, Meaning, SlotLine;
    if k < |Lines(t, n - 1)| {
      LinesStandForEntries(t, n - 1, k);
    } else {
      SlotLineMeaning(t, n - 1);
    }
  }

  /** Every entry in use has a line, and lines are in slot order, so that none has two. */
  lemma {:induction false} OneLineEach(t: Table, n: nat, i: nat, j: nat, k: nat)
    requires n <= SLOTS && i < n && InUse(t[i]) && j < k < |Lines(t, n)|
    ensures SlotLine(t, i) in Lines(t, n)
    ensures SlotOfLine(Lines(t, n)[j]) < SlotOfLine(Lines(t, n)[k])
  {
    EntryHasLine(t, n, i);
    LinesInOrder(t, n, j, k);
  }

  lemma {:induction false} EntryHasLine(t: Table, n: nat, i: nat)
    requires n <= SLOTS && i < n && InUse(t[i])
    ensures SlotLine(t, i) in Lines(t, n)
  {
    hide InUse, SlotLine;
    if i < n - 1 {
      EntryHasLine(t, n - 1, i);
    }
  }

  lemma LineAt(t: Table, n: nat, k: nat)
    requires n <= SLOTS && k < |Lines(t, n)|
    ensures n > 0 && k <= |Lines(t, n - 1)|
    ensures Lines(t, n)[k] == if k < |Lines(t, n - 1)| then Lines(t, n - 1)[k] else SlotLine(t, n - 1)
  {
    hide InUse, SlotLine;
  }

  lemma {:induction false} LinesInOrder(t: Table, n: nat, j: nat, k: nat)
    requires n <= SLOTS && j < k < |Lines(t, n)|
    ensures SlotOfLine(Lines(t, n)[j]) < SlotOfLine(Lines(t, n)[k])
  {
    hide Lines, InUse, Meaning, SlotLine;
    LineAt(t, n, j);
    LineAt(t, n, k);
    if k < |Lines(t, n - 1)| {
      LinesInOrder(t, n - 1, j, k);
    } else {
      LinesStandForEntries(t, n - 1, j);
      SlotLineMeaning(t, n - 1);
    }
  }
}
