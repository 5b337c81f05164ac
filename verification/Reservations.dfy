/** Runs of reservations, resets, restarts and reloads: when the messages of a slot use a counter block
    twice, and when they do not. */
module Reservations {
  import opened Bytes
  import opened Counter
  import opened CtrState
  import opened KeyStore
  import opened LeaCtr
  import opened StateFile

  datatype State = State(table: Table, file: File)

  /** What can happen: a reservation for one slot, a reset of one slot, a restart of the process, and
      a second load by a running process. */
  datatype Event =
    | Reserving(slot: nat, len: nat, saved: bool)
    | Resetting(slot: nat, saved: bool)
    | Restarting
    | Reloading

  predicate IsEvent(e: Event) {
    e.Reserving? || e.Resetting? ==> e.slot < SLOTS
  }

  type Run = es: seq<Event> | forall e | e in es :: IsEvent(e)

  datatype Message = Message(start: Word, len: nat)

  function Step(s: State, store: Store, e: Event): State
    requires IsEvent(e)
  {
    match e
    case Reserving(slot, len, saved) =>
      var t := Reserve(s.table, store, slot, len);
      State(t, Save(s.file, t, saved))
    case Resetting(slot, saved) =>
      var t := Forget(s.table, slot);
      State(t, Save(s.file, t, saved))
    case Restarting => State(LoadFile(Nothing(), s.file), s.file)
    case Reloading => State(LoadFile(s.table, s.file), s.file)
  }

  /** The messages of one slot in a run: where each starts and how long it is. */
  function Messages(s: State, store: Store, es: Run, slot: nat): seq<Message>
    requires slot < SLOTS
    decreases |es|
  {
    if es == [] then []
    else
      var rest := Messages(Step(s, store, es[0]), store, es[1..], slot);
      if es[0].Reserving? && es[0].slot == slot
      then [Message(Position(s.table, store, slot), es[0].len)] + rest
      else rest
  }

  function Blocks(ms: seq<Message>): nat {
    if ms == [] then 0 else NumBlocks(ms[0].len) + Blocks(ms[1..])
  }

  /** The file holds the table: the last save succeeded, or there was nothing to save yet. */
  predicate Current(s: State) {
    || s.file == Some(Lines(s.table, SLOTS))
    || (s.file.None? && forall i | 0 <= i < SLOTS :: !InUse(s.table[i]))
  }

  /** The file gives the slot the entry in memory, as far as that is in use. Other slots do not matter. */
  predicate Held(s: State, slot: nat)
    requires slot < SLOTS
  {
    var e := LoadFile(Nothing(), s.file)[slot];
    if InUse(s.table[slot]) then e == s.table[slot] else !InUse(e)
  }

  /** The event sets the slot to what the file says of it: a restart, or a reload of a file with a line for it. */
  predicate Loads(s: State, e: Event, slot: nat) {
    e.Restarting? || (e.Reloading? && s.file.Some? && HasLine(s.file.value, slot))
  }

  /** Not a reset of the slot, nor a load of its entry while the file is behind for it. */
  predicate CarefulEvent(s: State, e: Event, slot: nat)
    requires slot < SLOTS
  {
    (e.Resetting? ==> e.slot != slot) && (Loads(s, e, slot) ==> Held(s, slot))
  }

  predicate Careful(s: State, store: Store, es: Run, slot: nat)
    requires slot < SLOTS
    decreases |es|
  {
    es == [] || (CarefulEvent(s, es[0], slot) && Careful(Step(s, store, es[0]), store, es[1..], slot))
  }

  /** No reservation of the slot waits for a good save when the process restarts or reloads; behind says
      whether one waits at the start. Saves that fail for other slots do not matter. */
  predicate SavedInTime(es: Run, slot: nat, behind: bool)
    decreases |es|
  {
    if es == [] then true
    else match es[0]
      case Reserving(i, _, saved) => SavedInTime(es[1..], slot, !saved && (behind || i == slot))
      case Resetting(i, saved) => i != slot && SavedInTime(es[1..], slot, !saved && behind)
      case Restarting => !behind && SavedInTime(es[1..], slot, false)
      case Reloading => !behind && SavedInTime(es[1..], slot, false)
  }

  /** A good save holds every slot. */
  lemma CurrentHolds(s: State, slot: nat)
    requires slot < SLOTS && Current(s)
    ensures Held(s, slot)
  {
    hide InUse, Lines, Overlay;
    if s.file.Some? {
      SaveThenLoad(s.table, Nothing());
    }
    NothingInUse(slot);
  }

  lemma NothingInUse(slot: nat)
    requires slot < SLOTS
    ensures !InUse(Nothing()[slot])
  {
  }

  /** Loading a file that holds the slot keeps its entry, as far as that is in use, and keeps it held. */
  lemma LoadKeepsHeld(s: State, base: Table, slot: nat)
    requires slot < SLOTS && Held(s, slot) && (base == Nothing() || base == s.table)
    ensures var e := LoadFile(base, s.file)[slot];
      && (if InUse(s.table[slot]) then e == s.table[slot] else !InUse(e))
      && Held(State(LoadFile(base, s.file), s.file), slot)
  {
    NothingInUse(slot);
    if s.file.Some? {
      OverlayBase(base, Nothing(), s.file.value, slot);
    }
  }

  lemma StepKeepsHeld(s: State, store: Store, e: Event, slot: nat, behind: bool)
    requires slot < SLOTS && IsEvent(e) && (behind || Held(s, slot))
    requires e.Restarting? || e.Reloading? ==> !behind
    requires e.Resetting? ==> e.slot != slot
    ensures match e
      case Reserving(i, _, saved) => (!saved && (behind || i == slot)) || Held(Step(s, store, e), slot)
      case Resetting(_, saved) => (!saved && behind) || Held(Step(s, store, e), slot)
      case _ => Held(Step(s, store, e), slot)
  {
    hide Held;
    match e
    case Reserving(i, len, saved) =>
      if saved {
        CurrentHolds(Step(s, store, e), slot);
      } else if i != slot && !behind {
        HeldByEntry(s, Step(s, store, e), slot);
      }
    case Resetting(i, saved) =>
      if saved {
        CurrentHolds(Step(s, store, e), slot);
      } else if !behind {
        HeldByEntry(s, Step(s, store, e), slot);
      }
    case Restarting => LoadKeepsHeld(s, Nothing(), slot);
    case Reloading => LoadKeepsHeld(s, s.table, slot);
  }

  lemma HeldByEntry(s: State, u: State, slot: nat)
    requires slot < SLOTS && Held(s, slot) && u.file == s.file && u.table[slot] == s.table[slot]
    ensures Held(u, slot)
  {
  }

  /** Runs whose restarts and reloads come after a good save of the slot's reservations are careful,
      whatever happens to the saves for other slots. */
  lemma {:induction false} SavedIsCareful(s: State, store: Store, es: Run, slot: nat, behind: bool)
    requires slot < SLOTS && (behind || Held(s, slot)) && SavedInTime(es, slot, behind)
    ensures Careful(s, store, es, slot)
    decreases |es|
  {
    if es != [] {
      hide Held, Step, Save;
      StepKeepsHeld(s, store, es[0], slot, behind);
      var s' := Step(s, store, es[0]);
      match es[0]
      case Reserving(i, _, saved) => SavedIsCareful(s', store, es[1..], slot, !saved && (behind || i == slot));
      case Resetting(i, saved) => SavedIsCareful(s', store, es[1..], slot, !saved && behind);
      case Restarting => SavedIsCareful(s', store, es[1..], slot, false);
      case Reloading => SavedIsCareful(s', store, es[1..], slot, false);
    }
  }

  /** A restart or reload from a current file gives back every entry in use, and the file stays
      current. */
  lemma RestartKeeps(s: State)
    requires Current(s)
    ensures LoadFile(s.table, s.file) == s.table
    ensures forall i | 0 <= i < SLOTS ::
      LoadFile(Nothing(), s.file)[i] == if InUse(s.table[i]) then s.table[i] else EMPTY
    ensures Current(State(LoadFile(Nothing(), s.file), s.file))
  {
    var t, u := s.table, LoadFile(Nothing(), s.file);
    if s.file.Some? {
      SaveThenLoad(t, t);
      SaveThenLoad(t, Nothing());
      LinesOfUsed(t, u, SLOTS);
    }
  }

  lemma {:induction false} LinesOfUsed(t: Table, u: Table, n: nat)
    requires n <= SLOTS
    requires forall i | 0 <= i < n :: if InUse(t[i]) then u[i] == t[i] else !InUse(u[i])
    ensures Lines(u, n) == Lines(t, n)
  {
    hide Line;
    if n > 0 {
      LinesOfUsed(t, u, n - 1);
    }
  }

  lemma PositionOfUsed(t: Table, u: Table, store: Store, slot: nat)
    requires slot < SLOTS && if InUse(t[slot]) then u[slot] == t[slot] else !InUse(u[slot])
    ensures Position(u, store, slot) == Position(t, store, slot)
  {
  }

  /** What a restart would give the slot. */
  function FilePosition(s: State, store: Store, slot: nat): Word
    requires slot < SLOTS
  {
    Position(LoadFile(Nothing(), s.file), store, slot)
  }

  /** Without a reset of the slot its position moves by what is reserved for it, or goes to that of the file. */
  lemma StepMoves(s: State, store: Store, e: Event, slot: nat)
    requires slot < SLOTS && IsEvent(e) && (e.Resetting? ==> e.slot != slot)
    ensures Position(Step(s, store, e).table, store, slot) ==
      if e.Reserving? && e.slot == slot then (Position(s.table, store, slot) + NumBlocks(e.len)) % WRAP
      else if Loads(s, e, slot) then FilePosition(s, store, slot)
      else Position(s.table, store, slot)
  {
    if e.Reloading? && s.file.Some? {
      OverlayBase(s.table, Nothing(), s.file.value, slot);
    }
    hide Lines, Overlay, NumBlocks, HasLine;
  }

  /** A file that holds the slot gives it the position it has. */
  lemma HeldPosition(s: State, store: Store, slot: nat)
    requires slot < SLOTS && Held(s, slot)
    ensures FilePosition(s, store, slot) == Position(s.table, store, slot)
  {
    PositionOfUsed(s.table, LoadFile(Nothing(), s.file), store, slot);
  }

  /** A careful event moves the slot's position by what it reserves for the slot, if anything. */
  lemma StepPosition(s: State, store: Store, e: Event, slot: nat)
    requires slot < SLOTS && IsEvent(e) && CarefulEvent(s, e, slot)
    ensures Position(Step(s, store, e).table, store, slot) ==
      if e.Reserving? && e.slot == slot then (Position(s.table, store, slot) + NumBlocks(e.len)) % WRAP
      else Position(s.table, store, slot)
  {
    StepMoves(s, store, e, slot);
    if Loads(s, e, slot) {
      HeldPosition(s, store, slot);
    }
    hide Step, Position, FilePosition, NumBlocks, Held;
  }

  lemma OneEvent(s: State, store: Store, es: Run, slot: nat)
    requires slot < SLOTS && es != []
    ensures Messages(s, store, es, slot) ==
      (if es[0].Reserving? && es[0].slot == slot then [Message(Position(s.table, store, slot), es[0].len)] else []) +
      Messages(Step(s, store, es[0]), store, es[1..], slot)
    ensures Careful(s, store, es, slot) ==>
      CarefulEvent(s, es[0], slot) && Careful(Step(s, store, es[0]), store, es[1..], slot)
  {
    hide Step, Position, Held;
  }

  /** Message number k starts where the blocks reserved before it end, modulo 2^32. */
  predicate StartsAt(p: Word, ms: seq<Message>, k: nat)
    requires k < |ms|
  {
    ms[k].start == (p + Blocks(ms[..k])) % WRAP
  }

  lemma {:induction false} StartsAfterEarlier(s: State, store: Store, es: Run, slot: nat, k: nat)
    requires slot < SLOTS && Careful(s, store, es, slot)
    requires k < |Messages(s, store, es, slot)|
    ensures StartsAt(Position(s.table, store, slot), Messages(s, store, es, slot), k)
    decreases |es|
  {
    if es != [] {
      hide NumBlocks, Position, Step, Messages, Careful, CarefulEvent, StartsAt;
      OneEvent(s, store, es, slot);
      StepPosition(s, store, es[0], slot);
      var ms := Messages(s, store, es, slot);
      var s' := Step(s, store, es[0]);
      var rest := Messages(s', store, es[1..], slot);
      var p := Position(s.table, store, slot);
      if es[0].Reserving? && es[0].slot == slot {
        if k > 0 {
          StartsAfterEarlier(s', store, es[1..], slot, k - 1);
        }
        OneMore(p, Message(p, es[0].len), rest, k);
      } else {
        assert ms == rest;
        StartsAfterEarlier(s', store, es[1..], slot, k);
      }
    }
  }

  lemma OneMore(p: Word, m: Message, rest: seq<Message>, k: nat)
    requires m.start == p && k <= |rest|
    requires k > 0 ==> StartsAt((p + NumBlocks(m.len)) % WRAP, rest, k - 1)
    ensures StartsAt(p, [m] + rest, k)
  {
    hide NumBlocks;
    if k > 0 {
      var head := ([m] + rest)[..k];
      assert head[0] == m && head[1..] == rest[..k-1];
      AddMod(p, NumBlocks(m.len), Blocks(rest[..k-1]));
    }
  }

  lemma AddMod(a: nat, b: nat, c: nat)
    ensures ((a + b) % WRAP + c) % WRAP == (a + (b + c)) % WRAP
  {
  }

  lemma {:induction false} BlocksBetween(ms: seq<Message>, i: nat, j: nat)
    requires i < j <= |ms|
    ensures Blocks(ms[..i]) + NumBlocks(ms[i].len) <= Blocks(ms[..j]) <= Blocks(ms)
  {
    hide NumBlocks;
    assert ms[..j][0] == ms[0] && ms[..j][1..] == ms[1..][..j-1];
    if i > 0 {
      assert ms[..i][0] == ms[0] && ms[..i][1..] == ms[1..][..i-1];
      BlocksBetween(ms[1..], i - 1, j - 1);
    } else if j > 1 {
      BlocksBetween(ms[1..], 0, j - 1);
    } else if |ms| > 1 {
      BlocksBetween(ms[1..], 0, 1);
    }
  }

  /** The counter blocks reserved for a message. */
  ghost function Claimed(m: Message): set<Block> {
    BlockRange(CounterBlock(ZERO[..12], m.start), NumBlocks(m.len))
  }

  /** The counter blocks its encryption uses. */
  ghost function Used(m: Message): set<Block> {
    Consumed(CounterBlock(ZERO[..12], m.start), m.len)
  }

  /** A message uses no more than it reserves, and all of it unless it is empty. */
  lemma UsedIsClaimed(m: Message)
    requires m.len < 0x8000_0000
    ensures Used(m) <= Claimed(m)
    ensures m.len > 0 ==> Used(m) == Claimed(m)
  {
    hide IncBy, CounterBlock;
  }

  /** When two messages use a common counter block, wherever their reservations come from. */
  lemma SharesBlock(m: Message, n: Message)
    requires m.len < 0x8000_0000 && n.len < 0x8000_0000
    ensures Used(m) !! Used(n) <==>
      m.len == 0 || n.len == 0 || m.start + Touched(m.len) <= n.start || n.start + Touched(n.len) <= m.start
  {
    hide CounterBlock, BlockRange;
    RangesShare(m.start, Touched(m.len), n.start, Touched(n.len));
  }

  /** Reservations less than 2^32 blocks apart do not meet. */
  lemma Apart(p: nat, x: nat, y: nat, m: Message, n: Message)
    requires m.start == (p + x) % WRAP && n.start == (p + y) % WRAP
    requires x + NumBlocks(m.len) <= y && y + NumBlocks(n.len) <= x + WRAP
    ensures Claimed(m) !! Claimed(n)
  {
    hide CounterBlock, BlockRange, NumBlocks;
    var a, b := NumBlocks(m.len), NumBlocks(n.len);
    RangesShare(m.start, a, n.start, b);
  }

  /** No counter block is reserved for two messages, and so none is used by two. */
  lemma NonReuse(s: State, store: Store, es: Run, slot: nat, i: nat, j: nat)
    requires slot < SLOTS && Careful(s, store, es, slot)
    requires i < j < |Messages(s, store, es, slot)|
    requires Blocks(Messages(s, store, es, slot)) <= WRAP
    ensures var ms := Messages(s, store, es, slot);
      && Claimed(ms[i]) !! Claimed(ms[j])
      && (ms[i].len < 0x8000_0000 && ms[j].len < 0x8000_0000 ==> Used(ms[i]) !! Used(ms[j]))
  {
    hide Messages, Careful, Position, Blocks, Claimed, Used, NumBlocks;
    var ms := Messages(s, store, es, slot);
    StartsAfterEarlier(s, store, es, slot, i);
    StartsAfterEarlier(s, store, es, slot, j);
    BlocksBetween(ms, i, j);
    BlocksBetween(ms, j, |ms|);
    assert ms[..|ms|] == ms;
    Apart(Position(s.table, store, slot), Blocks(ms[..i]), Blocks(ms[..j]), ms[i], ms[j]);
    if ms[i].len < 0x8000_0000 && ms[j].len < 0x8000_0000 {
      UsedIsClaimed(ms[i]);
      UsedIsClaimed(ms[j]);
    }
  }

  // ----- when counters are used again -----

  /** Two messages of a careful run start at the same counter exactly when the blocks reserved
      between them are a multiple of 2^32. */
  lemma SameStart(s: State, store: Store, es: Run, slot: nat, i: nat, j: nat)
    requires slot < SLOTS && Careful(s, store, es, slot)
    requires i < j < |Messages(s, store, es, slot)|
    ensures var ms := Messages(s, store, es, slot);
      ms[i].start == ms[j].start <==> (Blocks(ms[..j]) - Blocks(ms[..i])) % WRAP == 0
  {
    hide Messages, Careful, Position, Blocks;
    StartsAfterEarlier(s, store, es, slot, i);
    StartsAfterEarlier(s, store, es, slot, j);
  }

  predicate NoReset(es: Run, slot: nat) {
    forall e | e in es :: e.Resetting? ==> e.slot != slot
  }

  predicate Saves(e: Event) {
    (e.Reserving? || e.Resetting?) && e.saved
  }

  predicate Reserves(e: Event, slot: nat) {
    e.Reserving? && e.slot == slot
  }

  /** The state after a run. */
  function After(s: State, store: Store, es: Run): State
    decreases |es|
  {
    if es == [] then s else After(Step(s, store, es[0]), store, es[1..])
  }

  /** Event i reserves blocks of the slot, and no good save follows before event j. */
  predicate Unsaved(es: Run, slot: nat, i: nat, j: nat)
    requires i < |es| && j <= |es|
  {
    i < j && Reserves(es[i], slot) && forall k | i <= k < j :: !Saves(es[k])
  }

  /** Event j loads the slot's entry from a file that does not know of some reservation. */
  predicate LossAt(s: State, store: Store, es: Run, slot: nat, j: nat)
    requires j < |es|
  {
    Loads(After(s, store, es[..j]), es[j], slot) && exists i | 0 <= i < j :: Unsaved(es, slot, i, j)
  }

  /** The slot is reserved for after a loss. */
  predicate ReservesAfterLoss(s: State, store: Store, es: Run, slot: nat) {
    exists j, l | 0 <= j < l < |es| :: LossAt(s, store, es, slot, j) && Reserves(es[l], slot)
  }

  /** The blocks of the slot the file does not know of after an event, when it lacks u before. */
  function LagStep(s: State, e: Event, slot: nat, u: nat): nat {
    if Saves(e) || Loads(s, e, slot) then 0 else if Reserves(e, slot) then u + NumBlocks(e.len) else u
  }

  function Lag(s: State, store: Store, es: Run, slot: nat, u: nat): nat
    decreases |es|
  {
    if es == [] then u else Lag(Step(s, store, es[0]), store, es[1..], slot, LagStep(s, es[0], slot, u))
  }

  /** The number of the first event that loads while the file is behind, or of events when there is none. */
  function FirstLoss(s: State, store: Store, es: Run, slot: nat, u: nat): (j: nat)
    ensures j <= |es|
    decreases |es|
  {
    if es == [] || (Loads(s, es[0], slot) && u > 0) then 0
    else 1 + FirstLoss(Step(s, store, es[0]), store, es[1..], slot, LagStep(s, es[0], slot, u))
  }

  /** The file is u blocks behind the memory. */
  predicate Behind(s: State, store: Store, slot: nat, u: nat)
    requires slot < SLOTS
  {
    Position(s.table, store, slot) == (FilePosition(s, store, slot) + u) % WRAP
  }

  lemma HeldIsNotBehind(s: State, store: Store, slot: nat)
    requires slot < SLOTS && Held(s, slot)
    ensures Behind(s, store, slot, 0)
  {
    HeldPosition(s, store, slot);
    hide Position, Held, FilePosition;
  }

  lemma LoadsNothingReserved(s: State, e: Event, slot: nat)
    requires Loads(s, e, slot)
    ensures !Reserves(e, slot)
  {
  }

  /** A good save makes the file current, and nothing else changes it. */
  lemma SavingIsCurrent(s: State, store: Store, e: Event)
    requires IsEvent(e)
    ensures if Saves(e) then Current(Step(s, store, e)) else Step(s, store, e).file == s.file
  {
    hide Lines, LoadFile, Reserve, Forget;
  }

  lemma StepBehind(s: State, store: Store, e: Event, slot: nat, u: nat)
    requires slot < SLOTS && IsEvent(e) && (e.Resetting? ==> e.slot != slot) && Behind(s, store, slot, u)
    ensures Behind(Step(s, store, e), store, slot, LagStep(s, e, slot, u))
  {
    hide Step, Current, Position, LoadFile, Loads, Held, NumBlocks;
    var s' := Step(s, store, e);
    SavingIsCurrent(s, store, e);
    if Saves(e) {
      CurrentHolds(s', slot);
      HeldIsNotBehind(s', store, slot);
    } else {
      StepMoves(s, store, e, slot);
      assert FilePosition(s', store, slot) == FilePosition(s, store, slot);
      hide FilePosition;
      if Loads(s, e, slot) {
        LoadsNothingReserved(s, e, slot);
      } else if Reserves(e, slot) {
        AddMod(FilePosition(s, store, slot), u, NumBlocks(e.len));
      }
    }
  }

  lemma {:induction false} RunBehind(s: State, store: Store, es: Run, slot: nat, u: nat)
    requires slot < SLOTS && NoReset(es, slot) && Behind(s, store, slot, u)
    ensures Behind(After(s, store, es), store, slot, Lag(s, store, es, slot, u))
    decreases |es|
  {
    hide Behind, Step, LagStep;
    if es != [] {
      StepBehind(s, store, es[0], slot, u);
      RunBehind(Step(s, store, es[0]), store, es[1..], slot, LagStep(s, es[0], slot, u));
    }
  }

  /** Careful events move the slot's position by the blocks of its messages. */
  lemma {:induction false} RunPosition(s: State, store: Store, es: Run, slot: nat)
    requires slot < SLOTS && Careful(s, store, es, slot)
    ensures Position(After(s, store, es).table, store, slot) ==
      (Position(s.table, store, slot) + Blocks(Messages(s, store, es, slot))) % WRAP
    decreases |es|
  {
    hide NumBlocks, Position, Step, CarefulEvent;
    if es != [] {
      var s' := Step(s, store, es[0]);
      RunPosition(s', store, es[1..], slot);
      StepPosition(s, store, es[0], slot);
      if Reserves(es[0], slot) {
        var rest := Messages(s', store, es[1..], slot);
        var m := Message(Position(s.table, store, slot), es[0].len);
        assert ([m] + rest)[1..] == rest;
        AddMod(Position(s.table, store, slot), NumBlocks(es[0].len), Blocks(rest));
      }
    }
  }

  /** When the file is behind, it is behind by the messages from number k on; k is -1 when these are all,
      and the u blocks from before as well. */
  lemma {:induction false} LagStart(s: State, store: Store, es: Run, slot: nat, u: nat) returns (k: int)
    requires slot < SLOTS && Lag(s, store, es, slot, u) > 0
    ensures var ms := Messages(s, store, es, slot);
      && -1 <= k < |ms|
      && Lag(s, store, es, slot, u) + (if k == -1 then 0 else Blocks(ms[..k])) ==
         (if k == -1 then u else 0) + Blocks(ms)
    decreases |es|
  {
    hide NumBlocks, Position, Step, Loads;
    if es == [] {
      k := -1;
    } else {
      var u' := LagStep(s, es[0], slot, u);
      var ms := Messages(s, store, es, slot);
      var rest := Messages(Step(s, store, es[0]), store, es[1..], slot);
      k := LagStart(Step(s, store, es[0]), store, es[1..], slot, u');
      if k == -1 && (Saves(es[0]) || Loads(s, es[0], slot)) {
        k := 0;
        assert rest != [] && rest[..0] == [];
      }
      if Reserves(es[0], slot) {
        assert ms == [Message(Position(s.table, store, slot), es[0].len)] + rest && ms[1..] == rest;
        if k >= 0 {
          assert ms[..k+1][0] == ms[0] && ms[..k+1][1..] == rest[..k];
          k := k + 1;
        }
      }
    }
  }

  lemma {:induction false} MessagesConcat(s: State, store: Store, es: Run, fs: Run, slot: nat)
    requires slot < SLOTS
    ensures Messages(s, store, es + fs, slot) ==
      Messages(s, store, es, slot) + Messages(After(s, store, es), store, fs, slot)
    decreases |es|
  {
    hide Step, Position;
    if es == [] {
      assert es + fs == fs;
    } else {
      assert (es + fs)[1..] == es[1..] + fs && (es + fs)[0] == es[0];
      MessagesConcat(Step(s, store, es[0]), store, es[1..], fs, slot);
    }
  }

  // ----- the first loss -----

  lemma HeldOrBehind(s: State, store: Store, e: Event, slot: nat, u: nat)
    requires slot < SLOTS && IsEvent(e) && (u > 0 || Held(s, slot)) && (e.Resetting? ==> e.slot != slot)
    requires !(Loads(s, e, slot) && u > 0)
    ensures LagStep(s, e, slot, u) > 0 || Held(Step(s, store, e), slot)
  {
    if !(e.Reloading? && u > 0) {
      StepKeepsHeld(s, store, e, slot, u > 0);
    }
    hide Held, Step;
  }

  /** Up to the first loss a run is careful, and there the file is behind. */
  lemma {:induction false} CarefulUntilLoss(s: State, store: Store, es: Run, slot: nat, u: nat)
    requires slot < SLOTS && NoReset(es, slot) && (u > 0 || Held(s, slot))
    ensures var j := FirstLoss(s, store, es, slot, u);
      && Careful(s, store, es[..j], slot)
      && (j < |es| ==> Loads(After(s, store, es[..j]), es[j], slot) && Lag(s, store, es[..j], slot, u) > 0)
    decreases |es|
  {
    hide Held, Step, LagStep, Loads;
    if es != [] && !(Loads(s, es[0], slot) && u > 0) {
      HeldOrBehind(s, store, es[0], slot, u);
      var s', u' := Step(s, store, es[0]), LagStep(s, es[0], slot, u);
      CarefulUntilLoss(s', store, es[1..], slot, u');
      var j := FirstLoss(s', store, es[1..], slot, u');
      assert es[..j+1][0] == es[0] && es[..j+1][1..] == es[1..][..j];
    }
  }

  /** A file that is behind lacks some reservation. */
  lemma {:induction false} LagWitness(s: State, store: Store, es: Run, slot: nat, u: nat)
    requires Lag(s, store, es, slot, u) > 0
    ensures (exists i | 0 <= i < |es| :: Unsaved(es, slot, i, |es|)) ||
      (u > 0 && forall k | 0 <= k < |es| :: !Saves(es[k]))
    decreases |es|
  {
    hide Step, Loads, NumBlocks;
    if es != [] {
      var rest := es[1..];
      LagWitness(Step(s, store, es[0]), store, rest, slot, LagStep(s, es[0], slot, u));
      if i :| 0 <= i < |rest| && Unsaved(rest, slot, i, |rest|) {
        LaterUnsaved(es, slot, i, |rest|);
      } else {
        assert forall k | 0 < k < |es| :: es[k] == rest[k-1];
        if Reserves(es[0], slot) {
          assert Unsaved(es, slot, 0, |es|);
        }
      }
    }
  }

  lemma LaterUnsaved(es: Run, slot: nat, i: nat, j: nat)
    requires es != [] && i < |es| - 1 && j <= |es| - 1
    ensures Unsaved(es[1..], slot, i, j) <==> Unsaved(es, slot, i + 1, j + 1)
  {
    var rest := es[1..];
    assert forall k | 0 <= k < |rest| :: rest[k] == es[k+1];
    if Unsaved(rest, slot, i, j) {
      forall k | i + 1 <= k < j + 1 ensures !Saves(es[k]) {
        assert es[k] == rest[k-1];
      }
    }
  }

  lemma ReservedIsBehind(s: State, e: Event, slot: nat, u: nat)
    requires Reserves(e, slot) && !Saves(e)
    ensures LagStep(s, e, slot, u) > 0
  {
  }

  /** No loss comes before the first. */
  lemma {:induction false} NoEarlierLoss(s: State, store: Store, es: Run, slot: nat, u: nat, i: int, j: nat)
    requires j < |es| && -1 <= i < j && Loads(After(s, store, es[..j]), es[j], slot)
    requires if i == -1 then u > 0 && forall k | 0 <= k < j :: !Saves(es[k]) else Unsaved(es, slot, i, j)
    ensures FirstLoss(s, store, es, slot, u) <= j
    decreases |es|
  {
    hide Step, Loads, NumBlocks;
    assert es[..0] == [];
    if j > 0 && !(Loads(s, es[0], slot) && u > 0) {
      var rest := es[1..];
      assert es[..j][0] == es[0] && es[..j][1..] == rest[..j-1] && es[j] == rest[j-1];
      if i > 0 {
        LaterUnsaved(es, slot, i - 1, j - 1);
      } else {
        assert !Saves(es[0]) && forall k | 0 <= k < j - 1 :: rest[k] == es[k+1];
        if i == 0 {
          ReservedIsBehind(s, es[0], slot, u);
        }
      }
      NoEarlierLoss(Step(s, store, es[0]), store, rest, slot, LagStep(s, es[0], slot, u),
                    if i <= 0 then -1 else i - 1, j - 1);
    }
  }

  /** A reservation after a loss is one after the first. */
  lemma AfterFirstLoss(s: State, store: Store, es: Run, slot: nat)
    requires slot < SLOTS && NoReset(es, slot) && Held(s, slot)
    ensures ReservesAfterLoss(s, store, es, slot)
       <==> exists l | FirstLoss(s, store, es, slot, 0) <= l < |es| :: Reserves(es[l], slot)
  {
    hide Held, Loads, FirstLoss, Lag, After, Unsaved;
    var f := FirstLoss(s, store, es, slot, 0);
    if ReservesAfterLoss(s, store, es, slot) {
      var j, l :| 0 <= j < l < |es| && LossAt(s, store, es, slot, j) && Reserves(es[l], slot);
      var i :| 0 <= i < j && Unsaved(es, slot, i, j);
      NoEarlierLoss(s, store, es, slot, 0, i, j);
      assert f <= l && Reserves(es[l], slot);
    }
    if l :| f <= l < |es| && Reserves(es[l], slot) {
      CarefulUntilLoss(s, store, es, slot, 0);
      LagWitness(s, store, es[..f], slot, 0);
      var i :| 0 <= i < f && Unsaved(es[..f], slot, i, f);
      UnsavedPrefix(es, slot, i, f);
      assert LossAt(s, store, es, slot, f);
      LoadsNothingReserved(After(s, store, es[..f]), es[f], slot);
      assert f < l;
    }
  }

  lemma UnsavedPrefix(es: Run, slot: nat, i: nat, j: nat)
    requires i < j <= |es|
    ensures Unsaved(es[..j], slot, i, j) <==> Unsaved(es, slot, i, j)
  {
    assert forall k | 0 <= k < j :: es[..j][k] == es[k];
  }

  // ----- reuse, exactly -----

  /** With the file not behind, the first message starts at the slot's position. */
  lemma {:induction false} FirstStart(s: State, store: Store, es: Run, slot: nat, l: nat)
    requires slot < SLOTS && NoReset(es, slot) && Behind(s, store, slot, 0) && l < |es| && Reserves(es[l], slot)
    ensures var ms := Messages(s, store, es, slot);
      ms != [] && ms[0].start == Position(s.table, store, slot)
    decreases |es|
  {
    hide Step, Position, FilePosition, NumBlocks, Loads;
    OneEvent(s, store, es, slot);
    if !Reserves(es[0], slot) {
      var s' := Step(s, store, es[0]);
      StepMoves(s, store, es[0], slot);
      StepBehind(s, store, es[0], slot, 0);
      assert es[l] == es[1..][l-1];
      FirstStart(s', store, es[1..], slot, l - 1);
    }
  }

  lemma {:induction false} NoMessages(s: State, store: Store, es: Run, slot: nat)
    requires slot < SLOTS && forall l | 0 <= l < |es| :: !Reserves(es[l], slot)
    ensures Messages(s, store, es, slot) == []
    decreases |es|
  {
    hide Step;
    if es != [] {
      NoMessages(Step(s, store, es[0]), store, es[1..], slot);
    }
  }

  lemma BehindBy(p: Word, t: nat, l: nat, q: Word)
    requires l <= t && (p + t) % WRAP == (q + l) % WRAP
    ensures q == (p + (t - l)) % WRAP
  {
  }

  /** Some block is reserved twice. */
  ghost predicate Twice(ms: seq<Message>) {
    exists i, j | 0 <= i < j < |ms| :: !(Claimed(ms[i]) !! Claimed(ms[j]))
  }

  /** A file that is behind after a careful run has the position some message started at. */
  lemma LostStart(s: State, store: Store, es: Run, slot: nat) returns (k: nat)
    requires slot < SLOTS && NoReset(es, slot) && Held(s, slot) && Careful(s, store, es, slot)
    requires Lag(s, store, es, slot, 0) > 0
    ensures var ms := Messages(s, store, es, slot);
      k < |ms| && ms[k].start == FilePosition(After(s, store, es), store, slot)
  {
    hide Held, Messages, Careful, Position, Blocks, NumBlocks, Lag, After, FilePosition;
    HeldIsNotBehind(s, store, slot);
    RunBehind(s, store, es, slot, 0);
    RunPosition(s, store, es, slot);
    var ms, p, q := Messages(s, store, es, slot), Position(s.table, store, slot),
                    FilePosition(After(s, store, es), store, slot);
    var i := LagStart(s, store, es, slot, 0);
    NoBlocks(ms);
    k := if i == -1 then 0 else i;
    StartsAfterEarlier(s, store, es, slot, k);
    BehindBy(p, Blocks(ms), Lag(s, store, es, slot, 0), q);
  }

  /** The first message after a load starts at the position of the file. */
  lemma StartAfterLoad(s: State, store: Store, es: Run, slot: nat, u: nat, l: nat)
    requires slot < SLOTS && NoReset(es, slot) && Behind(s, store, slot, u)
    requires l < |es| && Loads(s, es[0], slot) && Reserves(es[l], slot)
    ensures var ms := Messages(s, store, es, slot);
      ms != [] && ms[0].start == FilePosition(s, store, slot)
  {
    hide Behind, Loads, Messages, Position, NumBlocks, FilePosition, Step;
    StepMoves(s, store, es[0], slot);
    StepBehind(s, store, es[0], slot, u);
    LoadsNothingReserved(s, es[0], slot);
    OneEvent(s, store, es, slot);
    assert es[1..][l-1] == es[l];
    FirstStart(Step(s, store, es[0]), store, es[1..], slot, l - 1);
  }

  /** The message after a loss starts where one from before it does. */
  lemma LossMeets(s: State, store: Store, es: Run, slot: nat, l: nat)
    requires slot < SLOTS && NoReset(es, slot) && Held(s, slot)
    requires FirstLoss(s, store, es, slot, 0) <= l < |es| && Reserves(es[l], slot)
    ensures Twice(Messages(s, store, es, slot))
  {
    hide Held, Loads, FirstLoss, Messages, Careful, Behind, Claimed, Lag, After, FilePosition;
    var f := FirstLoss(s, store, es, slot, 0);
    var pre, post := es[..f], es[f..];
    assert es == pre + post && post[l-f] == es[l];
    CarefulUntilLoss(s, store, es, slot, 0);
    HeldIsNotBehind(s, store, slot);
    RunBehind(s, store, pre, slot, 0);
    var end := After(s, store, pre);
    var k := LostStart(s, store, pre, slot);
    StartAfterLoad(end, store, post, slot, Lag(s, store, pre, slot, 0), l - f);
    MessagesConcat(s, store, pre, post, slot);
    var ms, all, later := Messages(s, store, pre, slot), Messages(s, store, es, slot), Messages(end, store, post, slot);
    SameStartMeets(ms[k], later[0]);
    assert all[k] == ms[k] && all[|ms|] == later[0];
  }

  /** Without a reservation after the first loss all messages are those of a careful run. */
  lemma NoLossNoReuse(s: State, store: Store, es: Run, slot: nat)
    requires slot < SLOTS && NoReset(es, slot) && Held(s, slot)
    requires Blocks(Messages(s, store, es, slot)) <= WRAP
    requires forall l | FirstLoss(s, store, es, slot, 0) <= l < |es| :: !Reserves(es[l], slot)
    ensures !Twice(Messages(s, store, es, slot))
  {
    hide Held, Loads, Messages, Careful, Blocks, Claimed, FirstLoss, Lag, After, Reserves;
    var f := FirstLoss(s, store, es, slot, 0);
    var pre, post := es[..f], es[f..];
    assert es == pre + post;
    CarefulUntilLoss(s, store, es, slot, 0);
    MessagesConcat(s, store, pre, post, slot);
    forall l | 0 <= l < |post| ensures !Reserves(post[l], slot) {
      assert post[l] == es[f+l];
    }
    NoMessages(After(s, store, pre), store, post, slot);
    var ms := Messages(s, store, es, slot);
    assert ms == Messages(s, store, pre, slot);
    forall i, j | 0 <= i < j < |ms| ensures Claimed(ms[i]) !! Claimed(ms[j]) {
      NonReuse(s, store, pre, slot, i, j);
    }
  }

  /** Over every run without a reset of the slot, with any results of its saves, restarts and reloads, some counter
      block is reserved twice exactly when the slot is reserved for after a load that lost a reservation of it. */
  lemma ReuseExactly(s: State, store: Store, es: Run, slot: nat)
    requires slot < SLOTS && Held(s, slot) && NoReset(es, slot)
    requires Blocks(Messages(s, store, es, slot)) <= WRAP
    ensures Twice(Messages(s, store, es, slot)) <==> ReservesAfterLoss(s, store, es, slot)
  {
    hide Held, Messages, Blocks, Twice, FirstLoss, ReservesAfterLoss, Reserves, NoReset;
    AfterFirstLoss(s, store, es, slot);
    if l :| FirstLoss(s, store, es, slot, 0) <= l < |es| && Reserves(es[l], slot) {
      LossMeets(s, store, es, slot, l);
    } else {
      NoLossNoReuse(s, store, es, slot);
    }
  }

  /** The same for the key stream itself: messages that are not empty use all they reserve. */
  lemma KeyStreamReuse(s: State, store: Store, es: Run, slot: nat)
    requires slot < SLOTS && Held(s, slot) && NoReset(es, slot)
    requires Blocks(Messages(s, store, es, slot)) <= WRAP
    requires forall m | m in Messages(s, store, es, slot) :: 0 < m.len < 0x8000_0000
    ensures var ms := Messages(s, store, es, slot);
      (exists i, j | 0 <= i < j < |ms| :: !(Used(ms[i]) !! Used(ms[j]))) <==> ReservesAfterLoss(s, store, es, slot)
  {
    hide Held, Messages, Blocks, Claimed, Used, NumBlocks, ReservesAfterLoss;
    ReuseExactly(s, store, es, slot);
    var ms := Messages(s, store, es, slot);
    forall i | 0 <= i < |ms| ensures Used(ms[i]) == Claimed(ms[i]) {
      UsedIsClaimed(ms[i]);
    }
  }

  lemma NoBlocks(ms: seq<Message>)
    ensures Blocks(ms[..0]) == 0 && (ms == [] ==> Blocks(ms) == 0)
  {
  }

  lemma SameStartMeets(m: Message, n: Message)
    requires m.start == n.start
    ensures !(Claimed(m) !! Claimed(n))
  {
    hide CounterBlock, BlockRange;
    RangesShare(m.start, NumBlocks(m.len), n.start, NumBlocks(n.len));
  }

  /** A restart after a failed save hands out the same counter again. */
  lemma FailedSaveReuses(s: State, store: Store, slot: nat, len: nat, len': nat, saved: bool)
    requires slot < SLOTS && Current(s)
    ensures var ms := Messages(s, store, [Reserving(slot, len, false), Restarting, Reserving(slot, len', saved)], slot);
      |ms| == 2 && ms[0].start == ms[1].start
  {
    var es: Run := [Reserving(slot, len, false), Restarting, Reserving(slot, len', saved)];
    RestartKeeps(s);
    hide Lines, Overlay, NumBlocks, Messages;
    var s1 := Step(s, store, es[0]);
    var s2 := Step(s1, store, es[1]);
    assert Position(s2.table, store, slot) == Position(s.table, store, slot);
    OneEvent(s, store, es, slot);
    OneEvent(s1, store, es[1..], slot);
    OneEvent(s2, store, es[2..], slot);
    assert es[1..][1..] == es[2..] && es[2..][1..] == [];
    NoEvents(Step(s2, store, es[2]), store, slot);
  }

  lemma NoEvents(s: State, store: Store, slot: nat)
    requires slot < SLOTS
    ensures Messages(s, store, [], slot) == []
  {
  }

  /** After a reset the counter provisioned with the key is handed out again, or zero without a key. */
  lemma ResetReturnsToSeed(s: State, store: Store, slot: nat, len: nat, saved: bool, saved': bool)
    requires slot < SLOTS
    ensures var es: Run := [Resetting(slot, saved), Reserving(slot, len, saved')];
      Messages(s, store, es, slot) == [Message(if slot in store then store[slot].initialCtr else 0, len)]
  {
    var es: Run := [Resetting(slot, saved), Reserving(slot, len, saved')];
    var s' := Step(s, store, es[0]);
    assert Position(s'.table, store, slot) == if slot in store then store[slot].initialCtr else 0;
    hide Step, Position, Messages;
    OneEvent(s, store, es, slot);
    OneEvent(s', store, es[1..], slot);
    assert es[1..][1..] == [];
    NoEvents(Step(s', store, es[1]), store, slot);
  }
}
