/** The transfer ring of a USB endpoint (kernel/src/usb/xhci.cpp): 256 slots shared between the
    driver, which produces transfer requests, and the controller, which consumes them. A slot's
    owner is told by its cycle bit alone, and the bit is derived from a free-running 32-bit index.
    The ring is proved to be a FIFO for every interleaving of driver and controller
    (sections 4.9.2 and 6.4.4.1 of the xHCI specification). */
module TransferRing {
  import opened Words
  import opened Numbers
  import opened Laps

  const FLAG_C: bv32 := 0x1
  const FLAG_TC: bv32 := 0x2
  const FLAG_IOC: bv32 := 0x20
  const TYPE_NORMAL: bv32 := 0x0400
  const TYPE_LINK: bv32 := 0x1800

  /** `xhci_command` */
  datatype Trb = Trb(pointer: nat, status: bv32, control: bv32) {
    predicate Cycle() { control & FLAG_C == FLAG_C }
    predicate IsLink() { (control >> 10) & 0x3F == 6 }
    predicate Toggles() { control & FLAG_TC == FLAG_TC }

    /** A Normal TRB, bit for bit (section 6.4.1.1 of the xHCI specification): type 1 in bits 10 to 15, an
        interrupt on completion by bit 5, the cycle bit, no other bit, and in the status nothing but the
        length, of which 32 bits are kept. */
    predicate SaysTransfer(data: nat, length: nat, cycle: bool) {
      && pointer == data && status == (length % WORD32) as bv32
      && (control >> 10) & 0x3F == 1 && control & 0x20 == 0x20 && (control & 1 == 1 <==> cycle)
      && control & 0xFFFF_03DE == 0
    }

    /** A Link TRB, bit for bit (section 6.4.4.1): type 6, the toggle by bit 1, the cycle bit and no other. */
    predicate SaysLink(target: nat, cycle: bool) {
      && pointer == target && status == 0
      && (control >> 10) & 0x3F == 6 && control & 2 == 2 && (control & 1 == 1 <==> cycle)
      && control & 0xFFFF_03FC == 0
    }
  }

  function Link(deqPtr: nat): Trb { Trb(deqPtr, 0, TYPE_LINK | 2) }

  function NormalTRB(dataBuffer: nat, trbBytes: bv32, tdSize: bv8): Trb {
    Trb(dataBuffer, ((tdSize as bv32) << 17) | trbBytes, TYPE_NORMAL)
  }

  function Low32(n: nat): bv32 { (n % WORD32) as bv32 }

  /** The driver's view: the slots and the index it has reached. */
  datatype Ring = Ring(slots: seq<Trb>, index: nat)

  function CycleFlag(index: nat): bv32 { if EvenLap(index) then FLAG_C else 0 }

  function LinkFor(base: nat, index: nat): Trb {
    var t := Link(base);
    t.(control := t.control | CycleFlag(index))
  }

  function RequestFor(index: nat, physAddr: nat, length: nat): Trb {
    var t := NormalTRB(physAddr, Low32(length), 0);
    t.(control := t.control | FLAG_IOC | CycleFlag(index))
  }

  lemma LinkBits(base: nat, index: nat)
    ensures var t := LinkFor(base, index);
            t.IsLink() && t.Toggles() && (t.Cycle() <==> EvenLap(index)) && t.pointer == base
    ensures LinkFor(base, index).SaysLink(base, EvenLap(index))
  {
  }

  lemma RequestBits(index: nat, physAddr: nat, length: nat)
    ensures var t := RequestFor(index, physAddr, length);
            !t.IsLink() && (t.Cycle() <==> EvenLap(index)) && t.pointer == physAddr && t.control & FLAG_IOC != 0
    ensures RequestFor(index, physAddr, length).SaysTransfer(physAddr, length, EvenLap(index))
  {
  }

  class XhciEndpoint {
    const loop: array<Trb>       // one page of transfer requests
    const virtaddr: nat          // where the page is mapped
    const address: nat           // its physical address
    var loopIndex: nat           // uint32_t

    ghost predicate Valid()
      reads this
    {
      loop.Length == SLOTS && loopIndex < WORD32
    }

    ghost function State(): Ring
      reads this, loop
    {
      Ring(loop[..], loopIndex)
    }

    constructor (virtaddr: nat, address: nat)
      ensures Valid() && State() == Ring(seq(SLOTS, _ => Trb(0, 0, 0)), 0)
      ensures this.address == address && this.virtaddr == virtaddr && fresh(loop)
    {
      loop := new Trb[SLOTS](_ => Trb(0, 0, 0));
      loopIndex := 0;
      this.virtaddr := virtaddr;
      this.address := address;
    }

    /** `mapping::to_physical` */
    function ToPhysical(p: int): int { p - virtaddr + address }

    /** The pointer to slot `i` as the driver sees it. */
    function SlotPointer(i: nat): nat { virtaddr + 16 * i }

    /** Closes the lap with a Link TRB when `trbCount` more entries would touch the last slot. */
    method EnsureSpaceFor(trbCount: nat)
      requires Valid()
      modifies this`loopIndex, loop
      ensures Valid()
      ensures State() == EnsureSpace(old(State()), address, trbCount)
      ensures if Slot(old(loopIndex)) + trbCount < 256 then State() == old(State())
              else
                && loop[Slot(old(loopIndex))].SaysLink(address, EvenLap(old(loopIndex)))
                && loopIndex % 256 == 0 && loopIndex == (old(loopIndex) - Slot(old(loopIndex)) + 256) % WORD32
    {
      LinkBits(address, loopIndex);
      NextLap(loopIndex);
      if Slot(loopIndex) + trbCount < 0x100 { return; }
      loop[Slot(loopIndex)] := Link(ToPhysical(SlotPointer(0)));
      loop[Slot(loopIndex)] := loop[Slot(loopIndex)].(control := loop[Slot(loopIndex)].control | CycleFlag(loopIndex));
      loopIndex := (loopIndex + 0x100) % WORD32 / 256 * 256;
    }

    /** The part of `WriteData` and of `ReadData` before they wait: both write one request and return
        the address under which its completion will be reported. Note that the cycle bit is taken
        from the index after its increment. */
    method Submit(physAddr: nat, length: nat) returns (statusAddress: int)
      requires Valid()
      modifies this`loopIndex, loop
      ensures Valid()
      ensures State() == Submitted(old(State()), address, physAddr, length)
      ensures statusAddress == address + 16 * Slot(EnsureSpace(old(State()), address, 1).index)
      ensures var slot := if Slot(old(loopIndex)) == 255 then 0 else Slot(old(loopIndex));
              && statusAddress == address + 16 * slot
              && loop[slot].SaysTransfer(physAddr, length, EvenLap(loopIndex))
              && loopIndex == (old(loopIndex) + if Slot(old(loopIndex)) == 255 then 2 else 1) % WORD32
    {
      hide EvenLap, Trb.SaysTransfer, Trb.SaysLink, EnsureSpace;
      EnsureSpaceFor(1);
      RequestBits((loopIndex + 1) % WORD32, physAddr, length);
      var slot := Slot(loopIndex);
      loopIndex := (loopIndex + 1) % WORD32;
      loop[slot] := NormalTRB(physAddr, Low32(length), 0);
      loop[slot] := loop[slot].(control := loop[slot].control | FLAG_IOC | CycleFlag(loopIndex));
      statusAddress := ToPhysical(SlotPointer(slot));
    }
  }

  /** `(index + 0x100) & 0xFFFFFF00` */
  lemma NextLap(index: nat)
    ensures (index + 0x100) % WORD32 / 256 * 256 == (index - Slot(index) + 256) % WORD32
    ensures (index + 0x100) % WORD32 / 256 * 256 % 256 == 0
  {
    var lap, slot := index / 256, index % 256;
    WordOfLaps(lap + 1, slot);
    WordOfLaps(lap + 1, 0);
  }

  lemma WordOfLaps(lap: nat, slot: nat)
    requires slot < 256
    ensures (256 * lap + slot) % WORD32 == 256 * (lap % 0x100_0000) + slot
    ensures (256 * lap + slot) % WORD32 / 256 * 256 == 256 * (lap % 0x100_0000)
  {
    var n, r := lap / 0x100_0000, lap % 0x100_0000;
    DivUnique(256 * lap + slot, WORD32, n, 256 * r + slot);
    DivUnique(256 * r + slot, 256, r, slot);
  }

  function EnsureSpace(r: Ring, base: nat, trbCount: nat): (r': Ring)
    requires |r.slots| == SLOTS
    ensures |r'.slots| == SLOTS
  {
    if Slot(r.index) + trbCount < 0x100 then r
    else Ring(r.slots[Slot(r.index) := LinkFor(base, r.index)], (r.index + 0x100) % WORD32 / 256 * 256)
  }

  function Submitted(r: Ring, base: nat, physAddr: nat, length: nat): (r': Ring)
    requires |r.slots| == SLOTS
    ensures |r'.slots| == SLOTS
  {
    var s := EnsureSpace(r, base, 1);
    var i := (s.index + 1) % WORD32;
    Ring(s.slots[Slot(s.index) := RequestFor(i, physAddr, length)], i)
  }

  // ---------------------------------------------------------------- driver and controller together

  /** Where the controller stands: its dequeue pointer and its consumer cycle state. */
  datatype Controller = Controller(dequeue: int, ccs: bool)

  /** The whole system with its history: `produced` lists every slot the driver has ever filled,
      `submitted` the requests among them, `consumed` the requests the controller has executed,
      and `taken` counts the slots it has passed. None of the history influences a step. */
  datatype System = System(ring: Ring, ctrl: Controller,
                           produced: seq<Trb>, submitted: seq<Trb>, consumed: seq<Trb>, taken: nat)

  function Boot(base: nat): System {
    System(Ring(seq(SLOTS, _ => Trb(0, 0, 0)), 0), Controller(base, true), [], [], [], 0)
  }

  /** How many slots the next submission fills: a lap's last slot is always its Link. */
  function Needed(r: Ring): nat { if Slot(r.index) + 1 < 0x100 then 1 else 2 }

  /** The slots the next submission fills have all been consumed. */
  predicate Room(s: System) { |s.produced| - s.taken + Needed(s.ring) <= SLOTS }

  function Driver(base: nat, s: System, physAddr: nat, length: nat): System
    requires |s.ring.slots| == SLOTS
  {
    var mid := EnsureSpace(s.ring, base, 1);
    var i := (mid.index + 1) % WORD32;
    var t := RequestFor(i, physAddr, length);
    s.(ring := Submitted(s.ring, base, physAddr, length),
       produced := s.produced + (if mid == s.ring then [] else [LinkFor(base, s.ring.index)]) + [t],
       submitted := s.submitted + [t])
  }

  /** The slot the controller looks at, as its dequeue pointer says. */
  predicate Aims(base: nat, s: System, i: nat) {
    i < SLOTS && s.ctrl.dequeue == base + 16 * i
  }

  /** The controller owns the slot at its dequeue pointer when the cycle bits agree. It executes a
      request, or follows a Link. */
  function Advance(s: System, t: Trb): System {
    if t.Cycle() != s.ctrl.ccs then s
    else if t.IsLink() then
      s.(ctrl := Controller(t.pointer, if t.Toggles() then !s.ctrl.ccs else s.ctrl.ccs), taken := s.taken + 1)
    else
      s.(ctrl := s.ctrl.(dequeue := s.ctrl.dequeue + 16), consumed := s.consumed + [t], taken := s.taken + 1)
  }

  ghost predicate Step(base: nat, s: System, s': System) {
    && |s.ring.slots| == SLOTS
    && (|| (exists physAddr: nat, length: nat :: Room(s) && s' == Driver(base, s, physAddr, length))
        || (exists i: nat :: Aims(base, s, i) && s' == Advance(s, s.ring.slots[i])))
  }

  /** Any interleaving of the two. */
  ghost predicate Run(base: nat, ss: seq<System>) {
    && ss != [] && ss[0] == Boot(base)
    && forall k, l :: 0 <= k < |ss| && l == k + 1 && l < |ss| ==> Step(base, ss[k], ss[l])
  }

  function Requests(ts: seq<Trb>): seq<Trb> {
    if ts == [] then []
    else Requests(ts[..|ts| - 1]) + (if ts[|ts| - 1].IsLink() then [] else [ts[|ts| - 1]])
  }

  /** What the `n`th slot ever filled must look like. */
  predicate Proper(base: nat, n: nat, t: Trb) {
    && (t.Cycle() <==> EvenLap(n))
    && (t.IsLink() <==> Slot(n) == 255)
    && (t.IsLink() ==> t.pointer == base && t.Toggles())
  }

  /** Slot `i` as the `n`th filling left it. */
  predicate Filled(s: System, n: nat)
    requires n < |s.produced| && |s.ring.slots| == SLOTS
  {
    s.ring.slots[Slot(n)] == s.produced[n]
  }

  ghost predicate Inv(base: nat, s: System) {
    && |s.ring.slots| == SLOTS
    && s.ring.index == |s.produced| % WORD32
    && s.taken <= |s.produced| <= s.taken + SLOTS
    && s.ctrl == Controller(base + 16 * Slot(s.taken), EvenLap(s.taken))
    && (forall n: nat :: n < |s.produced| ==> Proper(base, n, s.produced[n]))
    && (forall n: nat :: |s.produced| <= n + SLOTS && n < |s.produced| ==> Filled(s, n))
    && (forall i: nat :: |s.produced| <= i < SLOTS ==> !s.ring.slots[i].Cycle())
    && s.submitted == Requests(s.produced)
    && s.consumed == Requests(s.produced[..s.taken])
  }

  /** A submission ends with a request: a Link is never the last entry. */
  predicate EndsWithRequest(s: System) { s.produced != [] ==> !s.produced[|s.produced| - 1].IsLink() }

  lemma LapEnd(p: nat)
    requires Slot(p) == 255
    ensures (p % WORD32 + 0x100) % WORD32 / 256 * 256 == (p + 1) % WORD32
  {
    IndexWraps(p, WORD32);
    WordLapEnd(p % WORD32);
  }

  lemma WordLapEnd(r: nat)
    requires r < WORD32 && r % 256 == 255
    ensures (r + 0x100) % WORD32 / 256 * 256 == (r + 1) % WORD32
  {
    if r + 0x100 < WORD32 {
      DivUnique(r + 0x100, 256, r / 256 + 1, 255);
    } else {
      assert r + 1 == WORD32 && r + 0x100 == WORD32 + 255;
    }
  }

  /** Filling the next slot with a proper entry, when it has been consumed. */
  lemma Fill(base: nat, s: System, t: Trb, s': System)
    requires Inv(base, s) && |s.produced| < s.taken + SLOTS && Proper(base, |s.produced|, t)
    requires s' == s.(ring := Ring(s.ring.slots[Slot(|s.produced|) := t], (|s.produced| + 1) % WORD32),
                      produced := s.produced + [t],
                      submitted := s.submitted + if t.IsLink() then [] else [t])
    ensures Inv(base, s')
  {
    hide Slot, EvenLap, Proper;
    var p := |s.produced|;
    forall n: nat | |s'.produced| <= n + SLOTS && n < |s'.produced| ensures Filled(s', n) {
      if n < p {
        SlotsDiffer(n, p);
        assert Filled(s, n);
      }
    }
    forall i: nat | |s'.produced| <= i < SLOTS ensures !s'.ring.slots[i].Cycle() {
      FirstLap(p);
    }
    assert s'.produced[..|s'.produced| - 1] == s.produced;
    assert s'.produced[..s.taken] == s.produced[..s.taken];
  }

  /** A request in the next slot, which is not the last of its lap. */
  lemma RequestKeeps(base: nat, s: System, physAddr: nat, length: nat, s': System)
    requires Inv(base, s) && |s.produced| < s.taken + SLOTS && Slot(|s.produced|) != 255
    requires var i := (s.ring.index + 1) % WORD32;
             var t := RequestFor(i, physAddr, length);
             s' == s.(ring := Ring(s.ring.slots[Slot(s.ring.index) := t], i),
                      produced := s.produced + [t], submitted := s.submitted + [t])
    ensures Inv(base, s')
  {
    hide Slot, EvenLap, RequestFor, Filled;
    var p := |s.produced|;
    IndexWraps(p, WORD32);
    NextSlot(p);
    IndexWraps(p + 1, WORD32);
    var t := RequestFor((p + 1) % WORD32, physAddr, length);
    RequestBits((p + 1) % WORD32, physAddr, length);
    Fill(base, s, t, s');
  }

  /** The Link in the last slot of a lap. */
  lemma LinkKeeps(base: nat, s: System, s': System)
    requires Inv(base, s) && |s.produced| < s.taken + SLOTS && Slot(|s.produced|) == 255
    requires s' == s.(ring := EnsureSpace(s.ring, base, 1), produced := s.produced + [LinkFor(base, s.ring.index)])
    ensures Inv(base, s') && s'.ring.index != s.ring.index && Slot(|s'.produced|) == 0
  {
    hide Slot, EvenLap, LinkFor, Filled;
    var p := |s.produced|;
    IndexWraps(p, WORD32);
    LapEnd(p);
    NextSlot(p);
    IndexWraps(p + 1, WORD32);
    LinkBits(base, s.ring.index);
    assert s.submitted + [] == s.submitted;
    Fill(base, s, LinkFor(base, s.ring.index), s');
  }

  lemma DriverKeeps(base: nat, s: System, physAddr: nat, length: nat)
    requires Inv(base, s) && Room(s)
    ensures Inv(base, Driver(base, s, physAddr, length))
  {
    hide Slot, EvenLap, RequestFor, LinkFor, Filled, Proper;
    var p := |s.produced|;
    IndexWraps(p, WORD32);
    if Slot(s.ring.index) + 1 < 0x100 {
      RequestKeeps(base, s, physAddr, length, Driver(base, s, physAddr, length));
    } else {
      var mid := s.(ring := EnsureSpace(s.ring, base, 1), produced := s.produced + [LinkFor(base, s.ring.index)]);
      LinkKeeps(base, s, mid);
      RequestKeeps(base, mid, physAddr, length, Driver(base, s, physAddr, length));
    }
  }

  /** Ownership is exact: looking `k` slots ahead of what it has consumed, the controller finds the
      cycle bit it expects there if and only if the driver has filled that slot. */
  lemma Ownership(base: nat, s: System, n: nat)
    requires Inv(base, s) && s.taken <= n < s.taken + SLOTS
    ensures s.ring.slots[Slot(n)].Cycle() == EvenLap(n) <==> n < |s.produced|
  {
    hide Slot, EvenLap;
    if n < |s.produced| {
      assert Filled(s, n) && Proper(base, n, s.produced[n]);
    } else if n >= SLOTS {
      var m: nat := n - SLOTS;
      LapsAlternate(m);
      assert Filled(s, m) && Proper(base, m, s.produced[m]);
    } else {
      FirstLap(n);
    }
  }

  lemma ControllerKeeps(base: nat, s: System, i: nat)
    requires Inv(base, s) && Aims(base, s, i)
    ensures Inv(base, Advance(s, s.ring.slots[i]))
  {
    hide Slot, EvenLap;
    var n, t := s.taken, s.ring.slots[i];
    assert i == Slot(n);
    NextSlot(n);
    Ownership(base, s, n);
    if t.Cycle() == s.ctrl.ccs {
      assert Filled(s, n) && Proper(base, n, s.produced[n]);
      var s' := Advance(s, t);
      assert s.produced[..n + 1][..n] == s.produced[..n];
      assert s.produced[..n + 1][n] == t;
      forall k: nat | |s'.produced| <= k + SLOTS && k < |s'.produced| ensures Filled(s', k) {
        assert Filled(s, k);
      }
    }
  }

  /** The slots that are filled and not consumed survive the change to `slots`. */
  ghost predicate Survive(s: System, slots: seq<Trb>) {
    |slots| == SLOTS && forall n: nat :: s.taken <= n < |s.produced| ==> slots[Slot(n)] == s.produced[n]
  }

  /** Room is what a submission needs, exactly: without it the driver writes over a slot that the controller
      has not consumed. */
  lemma RoomExactly(base: nat, s: System, physAddr: nat, length: nat)
    requires Inv(base, s)
    ensures Survive(s, Driver(base, s, physAddr, length).ring.slots) <==> Room(s)
  {
    hide Slot, EvenLap, RequestFor, LinkFor, Proper;
    var p, s' := |s.produced|, Driver(base, s, physAddr, length);
    if Room(s) {
      DriverKeeps(base, s, physAddr, length);
      forall n: nat | s.taken <= n < p ensures s'.ring.slots[Slot(n)] == s.produced[n] {
        assert Filled(s', n);
      }
    } else {
      var q := p + Needed(s.ring) - 1;
      var n: nat := q - SLOTS;
      RequestAt(base, s, physAddr, length);
      LapsAlternate(n);
      assert Proper(base, n, s.produced[n]);
      HasCycle(base, n, s.produced[n]);
      assert s'.ring.slots[Slot(n)] != s.produced[n];
    }
  }

  lemma HasCycle(base: nat, n: nat, t: Trb)
    requires Proper(base, n, t)
    ensures t.Cycle() <==> EvenLap(n)
  {
  }

  /** Where a submission puts its request, and with which cycle bit. */
  lemma RequestAt(base: nat, s: System, physAddr: nat, length: nat)
    requires |s.ring.slots| == SLOTS && s.ring.index == |s.produced| % WORD32
    ensures var q := |s.produced| + Needed(s.ring) - 1;
            && Slot(q) != 255
            && (Driver(base, s, physAddr, length).ring.slots[Slot(q)].Cycle() <==> EvenLap(q))
  {
    hide Slot, EvenLap, RequestFor, LinkFor;
    var p := |s.produced|;
    IndexWraps(p, WORD32);
    NextSlot(p);
    IndexWraps(p + 1, WORD32);
    if Slot(p) == 255 {
      LapEnd(p);
      NextSlot(p + 1);
      IndexWraps(p + 2, WORD32);
      RequestBits((p + 2) % WORD32, physAddr, length);
    } else {
      RequestBits((p + 1) % WORD32, physAddr, length);
    }
  }

  /** One slot of each 256 holds no request. */
  lemma {:induction false} RequestCount(base: nat, ts: seq<Trb>)
    requires forall n: nat :: n < |ts| ==> Proper(base, n, ts[n])
    ensures |Requests(ts)| == |ts| - |ts| / 256
    decreases |ts|
  {
    if ts != [] {
      var n := |ts| - 1;
      RequestCount(base, ts[..n]);
      assert Proper(base, n, ts[n]);
      assert (n + 1) / 256 == n / 256 + if n % 256 == 255 then 1 else 0;
    }
  }

  /** Room in terms of requests: there is room for one more exactly if fewer than 255 wait to be executed. */
  lemma RoomForRequests(base: nat, s: System)
    requires Inv(base, s)
    ensures Room(s) <==> |s.submitted| < |s.consumed| + 255
  {
    hide Proper, EvenLap;
    var p, t := |s.produced|, s.taken;
    RequestCount(base, s.produced);
    RequestCount(base, s.produced[..t]);
    IndexWraps(p, WORD32);
    Lead(p, t);
  }

  lemma Lead(p: nat, t: nat)
    requires t <= p <= t + 256
    ensures p - t + (if p % 256 + 1 < 0x100 then 1 else 2) <= 256 <==> p - p / 256 < t - t / 256 + 255
  {
  }

  /** The requests take the 255 addresses of the ring in turn. */
  lemma AddressInTurn(base: nat, s: System)
    requires Inv(base, s)
    ensures Slot(EnsureSpace(s.ring, base, 1).index) == |s.submitted| % 255
  {
    hide Proper, EvenLap, LinkFor, Slot;
    var p := |s.produced|;
    RequestCount(base, s.produced);
    IndexWraps(p, WORD32);
    NextSlot(p);
    IndexWraps(p + 1, WORD32);
    if Slot(p) == 255 { LapEnd(p); }
    Turn(p);
  }

  lemma Turn(p: nat)
    ensures (p - p / 256) % 255 == if Slot(p) == 255 then 0 else Slot(p)
  {
    var lap, slot := p / 256, p % 256;
    if slot == 255 { DivUnique(p - lap, 255, lap + 1, 0); } else { DivUnique(p - lap, 255, lap, slot); }
  }

  lemma BootInv(base: nat)
    ensures Inv(base, Boot(base)) && EndsWithRequest(Boot(base))
  {
  }

  lemma DriverEndsWithRequest(base: nat, s: System, physAddr: nat, length: nat)
    requires |s.ring.slots| == SLOTS
    ensures EndsWithRequest(Driver(base, s, physAddr, length))
  {
    RequestBits((EnsureSpace(s.ring, base, 1).index + 1) % WORD32, physAddr, length);
  }

  lemma StepKeeps(base: nat, s: System, s': System)
    requires Inv(base, s) && EndsWithRequest(s) && Step(base, s, s')
    ensures Inv(base, s') && EndsWithRequest(s')
  {
    hide Inv, Driver, EndsWithRequest;
    if physAddr: nat, length: nat :| Room(s) && s' == Driver(base, s, physAddr, length) {
      DriverKeeps(base, s, physAddr, length);
      DriverEndsWithRequest(base, s, physAddr, length);
    } else {
      var i: nat :| Aims(base, s, i) && s' == Advance(s, s.ring.slots[i]);
      ControllerKeeps(base, s, i);
      SameEnd(s, s');
    }
  }

  lemma SameEnd(s: System, s': System)
    requires EndsWithRequest(s) && s'.produced == s.produced
    ensures EndsWithRequest(s')
  {
  }

  lemma {:induction false} RunKeeps(base: nat, ss: seq<System>)
    requires Run(base, ss)
    ensures forall k :: 0 <= k < |ss| ==> Inv(base, ss[k]) && EndsWithRequest(ss[k])
    decreases |ss|
  {
    hide Inv, EndsWithRequest, Step;
    BootInv(base);
    if |ss| > 1 {
      var n := |ss| - 2;
      RunKeeps(base, ss[..n + 1]);
      assert ss[n] == ss[..n + 1][n] && Step(base, ss[n], ss[n + 1]);
      StepKeeps(base, ss[n], ss[n + 1]);
      forall k | 0 <= k < |ss| ensures Inv(base, ss[k]) && EndsWithRequest(ss[k]) {
        if k <= n { assert ss[k] == ss[..n + 1][k]; }
      }
    }
  }

  /** What the driver does by itself: it submits, room or not. */
  ghost predicate UncheckedStep(base: nat, s: System, s': System) {
    && |s.ring.slots| == SLOTS
    && (|| (exists physAddr: nat, length: nat :: s' == Driver(base, s, physAddr, length))
        || (exists i: nat :: Aims(base, s, i) && s' == Advance(s, s.ring.slots[i])))
  }

  ghost predicate UncheckedRun(base: nat, ss: seq<System>) {
    && ss != [] && ss[0] == Boot(base)
    && forall k, l :: 0 <= k < |ss| && l == k + 1 && l < |ss| ==> UncheckedStep(base, ss[k], ss[l])
  }

  lemma UncheckedExactly(base: nat, s: System, s': System)
    requires Inv(base, s) && UncheckedStep(base, s, s')
    ensures Survive(s, s'.ring.slots) <==> Step(base, s, s')
  {
    hide Inv, Driver, Slot, Room;
    if physAddr: nat, length: nat :| s' == Driver(base, s, physAddr, length) {
      RoomExactly(base, s, physAddr, length);
      Longer(base, s, physAddr, length);
    } else {
      var i: nat :| Aims(base, s, i) && s' == Advance(s, s.ring.slots[i]);
      NoneLost(base, s);
    }
  }

  /** A submission is no step of the controller. */
  lemma Longer(base: nat, s: System, physAddr: nat, length: nat)
    requires |s.ring.slots| == SLOTS
    ensures |Driver(base, s, physAddr, length).produced| > |s.produced|
  {
  }

  lemma NoneLost(base: nat, s: System)
    requires Inv(base, s)
    ensures Survive(s, s.ring.slots)
  {
    hide Slot;
    forall n: nat | s.taken <= n < |s.produced| ensures s.ring.slots[Slot(n)] == s.produced[n] {
      assert Filled(s, n);
    }
  }

  /** In every interleaving with a driver that never checks, no slot is lost before the controller has
      consumed it exactly if every submission had room, which is what a run asks. */
  lemma {:induction false} RunsExactly(base: nat, ss: seq<System>)
    requires UncheckedRun(base, ss)
    ensures (forall k, l :: 0 <= k < |ss| && l == k + 1 && l < |ss| ==> Survive(ss[k], ss[l].ring.slots)) <==>
            Run(base, ss)
    decreases |ss|
  {
    hide Inv, Step, UncheckedStep, Survive, EndsWithRequest;
    if |ss| > 1 {
      var n := |ss| - 2;
      var init := ss[..n + 1];
      RunsExactly(base, init);
      assert UncheckedStep(base, ss[n], ss[n + 1]);
      assert forall k, l :: 0 <= k < |init| && l == k + 1 && l < |init| ==> init[k] == ss[k] && init[l] == ss[l];
      if Run(base, init) {
        RunKeeps(base, init);
        assert init[n] == ss[n];
        UncheckedExactly(base, ss[n], ss[n + 1]);
      }
      assert Run(base, ss) <==> Run(base, init) && Step(base, ss[n], ss[n + 1]);
    }
  }

  lemma {:induction false} RequestsPrefix(ts: seq<Trb>, k: nat)
    requires k <= |ts|
    ensures Requests(ts[..k]) <= Requests(ts)
    decreases |ts|
  {
    if k < |ts| {
      var init := ts[..|ts| - 1];
      RequestsPrefix(init, k);
      assert init[..k] == ts[..k];
    } else {
      assert ts[..k] == ts;
    }
  }

  /** What has been passed leaves a request behind, unless everything has been passed. */
  lemma RequestsLeft(ts: seq<Trb>, k: nat)
    requires k <= |ts| && (ts != [] ==> !ts[|ts| - 1].IsLink())
    ensures Requests(ts[..k]) <= Requests(ts)
    ensures Requests(ts[..k]) == Requests(ts) <==> k == |ts|
  {
    if k < |ts| {
      var n := |ts| - 1;
      RequestsPrefix(ts[..n], k);
      assert ts[..n][..k] == ts[..k];
    } else {
      assert ts[..k] == ts;
    }
  }

  /** The ring is a FIFO: at every point of every interleaving the controller has executed a prefix of
      what was submitted, in order and once each; the slot at its dequeue pointer is its own exactly
      as long as something submitted is outstanding. */
  lemma Fifo(base: nat, ss: seq<System>, k: nat)
    requires Run(base, ss) && k < |ss|
    ensures var s := ss[k];
            && s.consumed <= s.submitted
            && exists i: nat :: Aims(base, s, i) && |s.ring.slots| == SLOTS
                 && (s.ring.slots[i].Cycle() == s.ctrl.ccs <==> s.taken < |s.produced|)
                 && (s.ring.slots[i].Cycle() != s.ctrl.ccs <==> s.consumed == s.submitted)
  {
    RunKeeps(base, ss);
    var s := ss[k];
    RequestsLeft(s.produced, s.taken);
    Ownership(base, s, s.taken);
    assert Aims(base, s, Slot(s.taken));
  }
}
