/** Two endpoints and a line between them: the sender's frames are accepted in order with exactly the
    PDUs sent, whatever else arrives, and the two counters move together. */
module Channel {
  import opened Bytes
  import opened CtrState
  import opened KeyStore
  import opened Reservations
  import opened SecureFrame

  /** What does not change: the algorithms, the key stores of both ends, and the direction. */
  datatype Link = Link(crypto: Crypto, sender: Store, receiver: Store, addr: bv8, dir: nat)
  {
    /** Both ends hold the same keys and the same seed. */
    predicate Shared() {
      && Lookup(sender, addr, dir).Some?
      && Lookup(receiver, addr, dir).Some?
      && sender[Slot()] == receiver[Slot()]
    }

    function Slot(): (slot: nat)
      ensures slot < SLOTS
    {
      var slot := SlotOf(addr, dir);
      if slot.Some? then slot.value else 0
    }

    function Keys(): Keys
      requires Shared()
    {
      Lookup(sender, addr, dir).value
    }

    function Wire(ctr: Word, pdu: seq<bv8>): seq<bv8>
      requires Shared()
    {
      Build(SealedFrame(crypto, Keys(), ctr, addr, pdu))
    }
  }

  /** The counters and state files of both ends, and the frames under way. */
  datatype Line = Line(a: State, b: State, queue: seq<seq<bv8>>)

  /** One step of a run. Arriving frames come from anyone; the events are everything else that can
      touch an end's counters. */
  datatype Action =
    | Sending(pdu: seq<bv8>, saved: bool)
    | Delivering(expected: bv8, saved: bool)
    | Arriving(wire: seq<bv8>, expected: bv8, dir: nat, saved: bool)
    | AtSender(event: Event)
    | AtReceiver(event: Event)

  /** An event that leaves the slot's counter alone. Failed saves for other slots are among them. */
  predicate OtherEvent(s: State, e: Event, slot: nat)
    requires slot < SLOTS
  {
    IsEvent(e) && CarefulEvent(s, e, slot) && !(e.Reserving? && e.slot == slot)
  }

  /** Delivery needs a frame under way and a receiver that listens to its address. A foreign frame is
      malformed, misaddressed, keyless, fails its keyed hash, or belongs to another slot. */
  predicate Enabled(k: Link, l: Line, x: Action) {
    match x
    case Sending(_, _) => true
    case Delivering(expected, _) => l.queue != [] && (expected == ANY_ADDR || expected == k.addr)
    case Arriving(wire, expected, dir, _) =>
      && !Underflows(k.crypto, k.receiver, l.b.table, wire, expected, dir)
      && (Authentic(k.crypto, k.receiver, wire, expected, dir).0 != Ok || SlotOf(wire[0], dir).value != k.Slot())
    case AtSender(e) => OtherEvent(l.a, e, k.Slot())
    case AtReceiver(e) => OtherEvent(l.b, e, k.Slot())
  }

  /** What the receiver's state becomes when a frame arrives. */
  function Received(k: Link, b: State, wire: seq<bv8>, expected: bv8, dir: nat, saved: bool): State
    requires !Underflows(k.crypto, k.receiver, b.table, wire, expected, dir)
  {
    var t := Receive(k.crypto, k.receiver, b.table, wire, expected, dir).table;
    State(t, if Authentic(k.crypto, k.receiver, wire, expected, dir).0 == Ok then Save(b.file, t, saved) else b.file)
  }

  /** The next state. A frame the receiver must not meet is dropped; in synchronised runs there is none. */
  function Next(k: Link, l: Line, x: Action): Line
    requires k.Shared() && Enabled(k, l, x)
  {
    match x
    case Sending(pdu, saved) =>
      if !CanSend(k.sender, k.addr, pdu, k.dir) then l
      else
        var t := Reserve(l.a.table, k.sender, k.Slot(), |pdu| + 3);
        l.(a := State(t, Save(l.a.file, t, saved)),
           queue := l.queue + [k.Wire(Position(l.a.table, k.sender, k.Slot()), pdu)])
    case Delivering(expected, saved) =>
      if Underflows(k.crypto, k.receiver, l.b.table, l.queue[0], expected, k.dir) then l.(queue := l.queue[1..])
      else l.(b := Received(k, l.b, l.queue[0], expected, k.dir, saved), queue := l.queue[1..])
    case Arriving(wire, expected, dir, saved) => l.(b := Received(k, l.b, wire, expected, dir, saved))
    case AtSender(e) => l.(a := Step(l.a, k.sender, e))
    case AtReceiver(e) => l.(b := Step(l.b, k.receiver, e))
  }

  predicate Possible(k: Link, l: Line, xs: seq<Action>)
    requires k.Shared()
    decreases |xs|
  {
    xs == [] || (Enabled(k, l, xs[0]) && Possible(k, Next(k, l, xs[0]), xs[1..]))
  }

  function End(k: Link, l: Line, xs: seq<Action>): Line
    requires k.Shared() && Possible(k, l, xs)
    decreases |xs|
  {
    if xs == [] then l else End(k, Next(k, l, xs[0]), xs[1..])
  }

  /** The PDUs the sender got rid of. */
  function Sent(k: Link, l: Line, xs: seq<Action>): seq<seq<bv8>>
    requires k.Shared() && Possible(k, l, xs)
    decreases |xs|
  {
    if xs == [] then []
    else Posted(k, xs[0]) + Sent(k, Next(k, l, xs[0]), xs[1..])
  }

  function Posted(k: Link, x: Action): seq<seq<bv8>> {
    if x.Sending? && CanSend(k.sender, k.addr, x.pdu, k.dir) then [x.pdu] else []
  }

  /** What the receiver made of each delivered frame. */
  function Delivered(k: Link, l: Line, xs: seq<Action>): seq<(Status, seq<bv8>)>
    requires k.Shared() && Possible(k, l, xs)
    decreases |xs|
  {
    if xs == [] then []
    else Verdicts(k, l, xs[0]) + Delivered(k, Next(k, l, xs[0]), xs[1..])
  }

  function Verdicts(k: Link, l: Line, x: Action): seq<(Status, seq<bv8>)>
    requires k.Shared() && Enabled(k, l, x)
  {
    if !x.Delivering? then []
    else if Underflows(k.crypto, k.receiver, l.b.table, l.queue[0], x.expected, k.dir) then [(BadCrc, [])]
    else
      var r := Receive(k.crypto, k.receiver, l.b.table, l.queue[0], x.expected, k.dir);
      [(r.status, r.pdu)]
  }

  function Accepted(pdus: seq<seq<bv8>>): seq<(Status, seq<bv8>)> {
    seq(|pdus|, i requires 0 <= i < |pdus| => (Ok, pdus[i]))
  }

  // ----- the invariant -----

  /** The frames under way carry the pending PDUs, the first sealed at counter p, each further one
      where the one before ends, and the last one ends at counter q. */
  predicate Chained(k: Link, p: Word, queue: seq<seq<bv8>>, pending: seq<seq<bv8>>, q: Word)
    requires k.Shared()
    decreases |pending|
  {
    if pending == [] then queue == [] && p == q
    else
      && queue != [] && |pending[0]| <= MAX_PDU && queue[0] == k.Wire(p, pending[0])
      && Chained(k, (p + NumBlocks(|pending[0]| + 3)) % WRAP, queue[1..], pending[1..], q)
  }

  predicate Synchronised(k: Link, l: Line, pending: seq<seq<bv8>>)
    requires k.Shared()
  {
    Chained(k, Position(l.b.table, k.receiver, k.Slot()), l.queue, pending, Position(l.a.table, k.sender, k.Slot()))
  }

  lemma {:induction false} ChainAppend(k: Link, p: Word, queue: seq<seq<bv8>>, pending: seq<seq<bv8>>, q: Word,
                                       pdu: seq<bv8>)
    requires k.Shared() && Chained(k, p, queue, pending, q) && |pdu| <= MAX_PDU
    ensures Chained(k, p, queue + [k.Wire(q, pdu)], pending + [pdu], (q + NumBlocks(|pdu| + 3)) % WRAP)
    decreases |pending|
  {
    hide NumBlocks, Build, SealedFrame, Lookup;
    var w := k.Wire(q, pdu);
    if pending == [] {
      assert ([] + [w])[1..] == [] && ([] + [pdu])[1..] == [];
      assert queue + [w] == [w] && pending + [pdu] == [pdu];
    } else {
      var p' := (p + NumBlocks(|pending[0]| + 3)) % WRAP;
      ChainAppend(k, p', queue[1..], pending[1..], q, pdu);
      assert (queue + [w])[1..] == queue[1..] + [w] && (pending + [pdu])[1..] == pending[1..] + [pdu];
    }
  }

  lemma SendStep(k: Link, l: Line, pending: seq<seq<bv8>>, x: Action)
    requires k.Shared() && Synchronised(k, l, pending) && x.Sending? && CanSend(k.sender, k.addr, x.pdu, k.dir)
    ensures Synchronised(k, Next(k, l, x), pending + [x.pdu])
  {
    hide Chained, NumBlocks, Save, Build, SealedFrame;
    ChainAppend(k, Position(l.b.table, k.receiver, k.Slot()), l.queue, pending,
                Position(l.a.table, k.sender, k.Slot()), x.pdu);
  }

  lemma DeliverStep(k: Link, l: Line, pending: seq<seq<bv8>>, x: Action)
    requires k.Shared() && Synchronised(k, l, pending) && x.Delivering? && Enabled(k, l, x)
    ensures pending != [] && Verdicts(k, l, x) == [(Ok, pending[0])]
    ensures Synchronised(k, Next(k, l, x), pending[1..])
  {
    hide NumBlocks, Save, Receive, Underflows, Authentic;
    var slot := k.Slot();
    SendReceive(k.crypto, k.receiver, l.b.table, k.addr, pending[0], k.dir, x.expected);
    assert l.queue[0] == k.Wire(Position(l.b.table, k.receiver, slot), pending[0]);
  }

  lemma OtherStep(k: Link, l: Line, pending: seq<seq<bv8>>, x: Action)
    requires k.Shared() && Synchronised(k, l, pending) && Enabled(k, l, x)
    requires x.Arriving? || x.AtSender? || x.AtReceiver?
    ensures Synchronised(k, Next(k, l, x), pending)
  {
    hide Chained, NumBlocks, Save, Receive, Underflows;
    match x
    case Arriving(wire, expected, dir, saved) =>
      OnlyAuthenticFramesCount(k.crypto, k.receiver, l.b.table, wire, expected, dir);
    case AtSender(e) =>
      StepPosition(l.a, k.sender, e, k.Slot());
    case AtReceiver(e) =>
      StepPosition(l.b, k.receiver, e, k.Slot());
  }

  // ----- over whole runs -----

  lemma OneAction(k: Link, l: Line, xs: seq<Action>)
    requires k.Shared() && Possible(k, l, xs) && xs != []
    ensures Enabled(k, l, xs[0]) && Possible(k, Next(k, l, xs[0]), xs[1..])
    ensures End(k, l, xs) == End(k, Next(k, l, xs[0]), xs[1..])
    ensures Delivered(k, l, xs) == Verdicts(k, l, xs[0]) + Delivered(k, Next(k, l, xs[0]), xs[1..])
    ensures Sent(k, l, xs) == Posted(k, xs[0]) + Sent(k, Next(k, l, xs[0]), xs[1..])
  {
  }

  /** The outcome a run must have: deliveries in the order of sending, the rest still to come. */
  predicate InOrder(k: Link, all: seq<seq<bv8>>, got: seq<(Status, seq<bv8>)>, end: Line)
    requires k.Shared()
  {
    |got| <= |all| && got == Accepted(all[..|got|]) && Synchronised(k, end, all[|got|..])
  }

  function Remaining(k: Link, x: Action, pending: seq<seq<bv8>>): seq<seq<bv8>> {
    if x.Delivering? && pending != [] then pending[1..] else pending + Posted(k, x)
  }

  /** One action keeps the ends synchronised, and delivers nothing but the first pending PDU. */
  lemma StepKeeps(k: Link, l: Line, pending: seq<seq<bv8>>, x: Action)
    requires k.Shared() && Synchronised(k, l, pending) && Enabled(k, l, x)
    ensures Synchronised(k, Next(k, l, x), Remaining(k, x, pending))
    ensures if x.Delivering? then pending != [] && Verdicts(k, l, x) == [(Ok, pending[0])] else Verdicts(k, l, x) == []
  {
    if x.Delivering? {
      DeliverStep(k, l, pending, x);
    } else if !x.Sending? {
      hide Synchronised, Enabled, Next;
      OtherStep(k, l, pending, x);
      assert pending + [] == pending;
    } else {
      hide Synchronised, Enabled;
      if CanSend(k.sender, k.addr, x.pdu, k.dir) {
        SendStep(k, l, pending, x);
      } else {
        assert pending + [] == pending;
      }
    }
  }

  lemma Extend(k: Link, x: Action, pending: seq<seq<bv8>>, verdicts: seq<(Status, seq<bv8>)>,
               sent: seq<seq<bv8>>, got: seq<(Status, seq<bv8>)>, end: Line)
    requires k.Shared() && InOrder(k, Remaining(k, x, pending) + sent, got, end)
    requires if x.Delivering? then pending != [] && verdicts == [(Ok, pending[0])] else verdicts == []
    ensures InOrder(k, pending + (Posted(k, x) + sent), verdicts + got, end)
  {
    hide Synchronised, CanSend;
    var n := |got|;
    if x.Delivering? {
      var all := pending + sent;
      assert pending + (Posted(k, x) + sent) == all;
      assert all[n+1..] == (pending[1..] + sent)[n..];
      assert all[..n+1] == [pending[0]] + (pending[1..] + sent)[..n];
    } else {
      assert pending + (Posted(k, x) + sent) == (pending + Posted(k, x)) + sent && verdicts + got == got;
    }
  }

  /** From synchronised ends, every delivered frame is accepted with exactly the PDU that was sent, in
      the order of sending, and what is still to come is still synchronised. */
  lemma {:induction false} InOrderDelivery(k: Link, l: Line, xs: seq<Action>, pending: seq<seq<bv8>>)
    requires k.Shared() && Synchronised(k, l, pending) && Possible(k, l, xs)
    ensures InOrder(k, pending + Sent(k, l, xs), Delivered(k, l, xs), End(k, l, xs))
    decreases |xs|
  {
    if xs == [] {
      assert pending + [] == pending && pending[..0] == [] && pending[0..] == pending;
    } else {
      hide Synchronised, Enabled, Next, Sent, Delivered, End, Possible, Verdicts, InOrder, Remaining, Posted;
      OneAction(k, l, xs);
      var x, l' := xs[0], Next(k, l, xs[0]);
      StepKeeps(k, l, pending, x);
      InOrderDelivery(k, l', xs[1..], Remaining(k, x, pending));
      Extend(k, x, pending, Verdicts(k, l, x), Sent(k, l', xs[1..]), Delivered(k, l', xs[1..]), End(k, l', xs[1..]));
    }
  }

  /** With nothing under way the two counters are equal. */
  lemma AgreeWhenQuiet(k: Link, l: Line, xs: seq<Action>)
    requires k.Shared() && l.queue == [] && Possible(k, l, xs)
    requires Position(l.a.table, k.sender, k.Slot()) == Position(l.b.table, k.receiver, k.Slot())
    requires End(k, l, xs).queue == []
    ensures var e := End(k, l, xs);
      Position(e.a.table, k.sender, k.Slot()) == Position(e.b.table, k.receiver, k.Slot())
    ensures Delivered(k, l, xs) == Accepted(Sent(k, l, xs))
  {
    hide Possible, End, Sent, Delivered, Position, Enabled, Next;
    InOrderDelivery(k, l, xs, []);
    var sent, n := Sent(k, l, xs), |Delivered(k, l, xs)|;
    assert [] + sent == sent;
    assert sent[n..] == [] && sent[..n] == sent;
  }

  /** An extra authentic frame of the slot, such as a repeated one, drives the counters apart. */
  lemma RepetitionSeparates(k: Link, l: Line, wire: seq<bv8>, expected: bv8, saved: bool)
    requires k.Shared() && Synchronised(k, l, [])
    requires !Underflows(k.crypto, k.receiver, l.b.table, wire, expected, k.dir)
    requires Authentic(k.crypto, k.receiver, wire, expected, k.dir).0 == Ok && wire[0] == k.addr
    ensures !Synchronised(k, l.(b := Received(k, l.b, wire, expected, k.dir, saved)), [])
  {
    hide Receive, Position, Underflows;
    OnlyAuthenticFramesCount(k.crypto, k.receiver, l.b.table, wire, expected, k.dir);
  }
}
