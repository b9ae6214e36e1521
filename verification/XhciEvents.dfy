/** The xHCI event ring and the callbacks it completes (kernel/src/usb/xhci.cpp). */
module XhciEvents {
  import opened Words
  import opened Laps
  import TransferRing
  import opened PhaseQueue
  import opened Pending
  import opened KeySeries

  type Trb = TransferRing.Trb

  const BLANK: Trb := TransferRing.Trb(0, 0, 0)

  const CYCLE_BIT: Trb -> bool := (t: Trb) => t.Cycle()

  /** `(current.control >> 10) & 0x3F` */
  function TrbType(t: Trb): bv32 { (t.control >> 10) & 0x3F }

  /** Transfer and command completion events are for whoever waits for the TRB they point to. */
  predicate IsCompletion(t: Trb) { TrbType(t) == 32 || TrbType(t) == 33 }

  predicate IsPortChange(t: Trb) { TrbType(t) == 34 }

  function StatusOf(t: Trb): bv64 { ((t.status as bv64) << 32) | t.control as bv64 }

  /** What a sequence of events reports, in order. */
  function Reports(ts: seq<Trb>): seq<(nat, bv64)> {
    if ts == [] then []
    else
      var n := |ts| - 1;
      Reports(ts[..n]) + if IsCompletion(ts[n]) then [(ts[n].pointer, StatusOf(ts[n]))] else []
  }

  /** What the next interrupt has to tell the callbacks. */
  function Completion(q: Queue<Trb>): seq<Event<nat, bv64>>
    requires |q.slots| == SLOTS
  {
    if Accepts(q.slots, CYCLE_BIT, Index(q)) then Passed(q.slots[Slot(Index(q))]) else []
  }

  /** What an accepted event has to tell the callbacks. */
  function Passed(t: Trb): seq<Event<nat, bv64>> {
    if IsCompletion(t) then [Completed(t.pointer, StatusOf(t))] else []
  }

  /** The value of a completion: the status word above the control word. */
  predicate SaysStatus(v: bv64, t: Trb) { v >> 32 == t.status as bv64 && v & 0xFFFF_FFFF == t.control as bv64 }

  /** Transfer events, of type 32, and command completion events, of type 33, are passed on to whoever waits
      under their pointer, with both words of their status (sections 6.4.2.1 and 6.4.2.2 of the xHCI
      specification); nothing else is. */
  lemma PassesOn(t: Trb)
    ensures var kind := (t.control >> 10) & 0x3F;
            if kind == 32 || kind == 33 then
              exists v :: SaysStatus(v, t) && Passed(t) == [Completed(t.pointer, v)]
            else
              Passed(t) == []
  {
    StatusBits(t);
  }

  /** What an event does to the callbacks: the first one that waits under the event's pointer is set to both
      words of its status and waits no longer; without one, and for other events, nothing changes. */
  ghost predicate Told(t: Trb, before: Board<nat, bv64>, after: Board<nat, bv64>) {
    var kind := (t.control >> 10) & 0x3F;
    if kind == 32 || kind == 33 then
      && (forall k: nat :: FirstWaiting(before.waiting, t.pointer, k) ==>
           && (exists v :: SaysStatus(v, t) && after.done == before.done[before.waiting[k].promise := v])
           && multiset(after.waiting) == multiset(before.waiting) - multiset{before.waiting[k]})
      && (!WaitsUnder(before.waiting, t.pointer) ==> after == before)
    else
      after == before
  }

  /** The board after what an event passes on. */
  function After(b: Board<nat, bv64>, es: seq<Event<nat, bv64>>, n: nat): Board<nat, bv64> {
    if es == [] then b else Apply(b, n, es[0])
  }

  lemma PassedTells(t: Trb, b: Board<nat, bv64>, n: nat)
    ensures Told(t, b, After(b, Passed(t), n))
  {
    hide SaysStatus, Passed, Settle;
    PassesOn(t);
    var kind := (t.control >> 10) & 0x3F;
    if kind == 32 || kind == 33 {
      var v :| SaysStatus(v, t) && Passed(t) == [Completed(t.pointer, v)];
      hide FirstWaiting;
      SettlesFirst(b, t.pointer, v);
    }
  }

  /** A port change event, of type 34, names the port in bits 24 to 31 of its pointer, counted from 1. */
  ghost predicate Looked(t: Trb, before: seq<nat>, after: seq<nat>) {
    if (t.control >> 10) & 0x3F == 34 then
      |after| == |before| + 1 && before <= after && after[|before|] < 256
      && (after[|before|] + 1) % 256 == t.pointer / 0x100_0000 % 256
    else
      after == before
  }

  lemma StatusBits(t: Trb)
    ensures SaysStatus(StatusOf(t), t)
  {
    WordsApart(t.status as bv64, t.control as bv64);
  }

  lemma WordsApart(high: bv64, low: bv64)
    requires high <= 0xFFFF_FFFF && low <= 0xFFFF_FFFF
    ensures ((high << 32) | low) >> 32 == high && ((high << 32) | low) & 0xFFFF_FFFF == low
  {
  }

  /** `((current.pointer >> 24) & 0xFF) - 1`, as a byte */
  function PortOf(t: Trb): nat { (t.pointer / 0x100_0000 % 256 + 255) % 256 }

  function Ports(ts: seq<Trb>): seq<nat> {
    if ts == [] then []
    else
      var n := |ts| - 1;
      Ports(ts[..n]) + if IsPortChange(ts[n]) then [PortOf(ts[n])] else []
  }

  class XhciDevice {
    const eventRing: array<Trb>
    const eventRingPhysical: nat
    const callbacks: Dispatcher<nat, bv64>
    var eventRingIndex: nat                     // uint16_t
    var portChanges: seq<nat>                   // ports for which a device was looked at
    var erdp: nat                               // the dequeue pointer last told to the controller
    var serial: nat                             // numbers the promises
    ghost var queue: Queue<Trb>
    ghost var events: seq<Event<nat, bv64>>

    /** The callbacks have seen exactly the completions among the accepted events, in their order. */
    ghost predicate Valid()
      reads this, eventRing, callbacks
    {
      && eventRing[..] == queue.slots && |queue.slots| == SLOTS && Inv(queue, CYCLE_BIT)
      && eventRingIndex == Index(queue)
      && callbacks.State() == Play(events) && serial == |events|
      && Answers(events) == Reports(queue.accepted)
      && portChanges == Ports(queue.accepted)
    }

    constructor (physical: nat)
      ensures Valid() && events == [] && queue.produced == []
      ensures fresh(eventRing) && fresh(callbacks)
    {
      eventRing := new Trb[SLOTS](_ => BLANK);
      eventRingPhysical := physical;
      eventRingIndex := 0;
      portChanges := [];
      erdp, serial := physical, 0;
      callbacks := new Dispatcher();
      events := [];
      queue := Queue(seq(SLOTS, _ => BLANK), [], []);
      new;
      assert !BLANK.Cycle();
      assert eventRing[..] == queue.slots;
    }

    /** The controller writes an event; a step of the other side. */
    method ControllerWrites(slot: nat, t: Trb)
      requires Valid() && MayProduce(queue, CYCLE_BIT, t) && slot == Slot(|queue.produced|)
      modifies this`queue, eventRing
      ensures Valid() && queue == Produce(old(queue), t)
    {
      ProduceKeeps(queue, CYCLE_BIT, t);
      eventRing[slot] := t;
      queue := Produce(queue, t);
    }

    /** The promise that is returned is the number of the event that issued it. */
    method RegisterStatus(address: nat) returns (promise: nat)
      requires Valid()
      modifies this`events, this`serial, callbacks
      ensures Valid() && events == old(events) + [Issued(address)] && promise == |old(events)|
    {
      hide Inv, Reports, Ports;
      PlayOn(events, Issued(address));
      promise := serial;
      callbacks.Register(address, promise);
      serial := serial + 1;
      events := events + [Issued(address)];
    }

    /** One interrupt takes at most one event from the ring. */
    method HandleInterrupt()
      requires Valid()
      modifies this, callbacks
      ensures Valid() && queue == Consume(old(queue), CYCLE_BIT)
      ensures erdp == eventRingPhysical + 16 * Slot(eventRingIndex) + 8
      ensures events == old(events) + Completion(old(queue))
      ensures var n := |old(queue).accepted|;
              if n < |old(queue).produced| then
                && queue == old(queue).(accepted := old(queue).produced[..n + 1])
                && Told(old(queue).produced[n], old(callbacks.State()), callbacks.State())
                && Looked(old(queue).produced[n], old(portChanges), portChanges)
              else
                queue == old(queue) && callbacks.State() == old(callbacks.State()) && portChanges == old(portChanges)
    {
      hide Inv, Slot, EvenLap, Play, Answers, Reports, Ports, IsCompletion, Told, Looked;
      NextEvent(queue);
      var current := eventRing[Slot(eventRingIndex)];
      ConsumeKeeps(queue, CYCLE_BIT);
      if current.Cycle() == EvenLap(eventRingIndex) {
        Accept(current);
      }
      erdp := eventRingPhysical + 16 * Slot(eventRingIndex) + 8;
    }

    /** Every promise is set exactly once, to the status of the first completion for its address, as long as
        nobody waits for an address that somebody waits for already. */
    lemma Routed()
      requires Valid() && UnsharedKeys(events)
      ensures Pending.Sound(events, callbacks.State())
    {
      hide Inv, Play, Answers, Reports, Ports, Pending.Sound;
      ExactlyOnce(events);
    }

    /** With the requests of each of some rings under the addresses of that ring in turn: every answer reaches
        its request, at every moment, exactly if no ring issues a request while the one a lap before still
        waits. */
    lemma RoutedExactly(rings: set<Series>, answer: bv64)
      requires Valid() && Covered(events, rings) && forall r :: r in rings ==> InTurn(events, r)
      ensures Routes(events, answer) <==> forall r :: r in rings ==> Freed(events, r)
      ensures (forall r :: r in rings ==> Freed(events, r)) ==> Pending.Sound(events, callbacks.State())
    {
      hide Inv, Play, Answers, Reports, Ports, Pending.Sound, UnsharedKeys, Freed, InTurn, Covered, Routes;
      AllUniqueExactly(events, rings);
      UniquenessExact(events, answer);
      if UnsharedKeys(events) { ExactlyOnce(events); }
    }

    /** What an accepted event does: a completion is passed on, a port change is looked at, and the index
        moves on. */
    method Accept(current: Trb)
      requires Valid() && Inv(queue.(accepted := queue.accepted + [current]), CYCLE_BIT)
      modifies this`eventRingIndex, this`portChanges, this`serial, this`queue, this`events, callbacks
      ensures Valid() && queue == old(queue).(accepted := old(queue).accepted + [current])
      ensures events == old(events) + Passed(current)
      ensures Told(current, old(callbacks.State()), callbacks.State())
      ensures Looked(current, old(portChanges), portChanges)
    {
      hide Inv, Slot, EvenLap, Play, Answers, Reports, Ports, Told, Looked;
      PassedTells(current, callbacks.State(), 0);
      PortIs(current, portChanges);
      ReportsOn(queue.accepted, current);
      if IsCompletion(current) {
        PlayOn(events, Completed(current.pointer, StatusOf(current)));
        callbacks.Complete(current.pointer, StatusOf(current));
        serial := serial + 1;
        events := events + [Completed(current.pointer, StatusOf(current))];
      } else if IsPortChange(current) {
        portChanges := portChanges + [PortOf(current)];
      }
      IndexSteps(|queue.accepted|);
      eventRingIndex := (eventRingIndex + 1) % WORD16;
      queue := queue.(accepted := queue.accepted + [current]);
    }
  }

  /** The addresses of the requests in the ring of an endpoint at `base`. */
  function AddressesOf(base: nat): Series { Series(base, 16, 255) }

  /** A submission to the ring, under the address it returns, keeps the ring's addresses in turn, and those of
      every other ring. */
  lemma SubmissionInTurn(base: nat, s: TransferRing.System, physAddr: nat, length: nat, es: seq<Event<nat, bv64>>,
      other: Series)
    requires TransferRing.Inv(base, s) && |Keys(es, AddressesOf(base))| == |s.submitted|
    requires InTurn(es, AddressesOf(base)) && InTurn(es, other)
    requires other.base + other.stride * other.period <= base || base + 16 * 255 <= other.base
    ensures var es' := es + [Issued(base + 16 * Slot(TransferRing.EnsureSpace(s.ring, base, 1).index))];
            && InTurn(es', AddressesOf(base)) && InTurn(es', other)
            && |Keys(es', AddressesOf(base))| == |TransferRing.Driver(base, s, physAddr, length).submitted|
  {
    hide TransferRing.Inv, Keys, InTurn, Slot;
    TransferRing.AddressInTurn(base, s);
    var e: Event<nat, bv64> := Issued(AddressesOf(base).Nth(|s.submitted|));
    NthIsInTurn(AddressesOf(base), |s.submitted|, |s.submitted|);
    KeysOn(es, AddressesOf(base), e);
    KeysOn(es, other, e);
  }

  lemma PortIs(t: Trb, ports: seq<nat>)
    ensures Looked(t, ports, ports + if !IsCompletion(t) && IsPortChange(t) then [PortOf(t)] else [])
  {
    var n := t.pointer / 0x100_0000 % 256;
    assert ((n + 255) % 256 + 1) % 256 == n;
  }

  /** What the driver finds at its index. */
  lemma NextEvent(q: Queue<Trb>)
    requires Inv(q, CYCLE_BIT)
    ensures Accepts(q.slots, CYCLE_BIT, Index(q)) <==> |q.accepted| < |q.produced|
    ensures |q.accepted| < |q.produced| ==>
              && q.slots[Slot(Index(q))] == q.produced[|q.accepted|]
              && q.accepted + [q.produced[|q.accepted|]] == q.produced[..|q.accepted| + 1]
  {
    AcceptsExactly(q, CYCLE_BIT);
  }

  /** A completion is not a port change. */
  lemma ReportsOn(ts: seq<Trb>, t: Trb)
    ensures Reports(ts + [t]) == Reports(ts) + if IsCompletion(t) then [(t.pointer, StatusOf(t))] else []
    ensures Ports(ts + [t]) == Ports(ts) + if !IsCompletion(t) && IsPortChange(t) then [PortOf(t)] else []
  {
  }

  lemma IndexSteps(n: nat)
    ensures (n % WORD16 + 1) % WORD16 == (n + 1) % WORD16
  {
  }
}
