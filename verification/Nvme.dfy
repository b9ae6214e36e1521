/** The NVMe disk driver (kernel/src/pci/nvme.cpp): it submits commands through a ring of 256 slots
    and learns of their completion, in any order, through a second ring of 256 slots. */
module Nvme {
  import opened Words
  import opened Numbers
  import opened Laps
  import opened PhaseQueue
  import opened Pending
  import opened KeySeries
  import FreePages

  datatype NvmeCommand = NvmeCommand(opcode: nat, fuse_psdt: nat, cid: nat, nsid: nat, rs: nat, metadataPtr: nat,
                                     prp1: nat, prp2: nat, cdw10: nat, cdw11: nat, cdw12: nat, cdw13: nat,
                                     cdw14: nat, cdw15: nat)

  datatype NvmeCompletion = NvmeCompletion(dw0: bv32, dw1: bv32, sqhead: bv16, sqid: bv16, cmdid: nat, status: bv16)

  /** Consecutive commands get consecutive ids modulo 512. */
  const IDS: nat := 0x200
  const COMMAND_IDS: Series := Series(0, 1, IDS)

  const BLANK := NvmeCompletion(0, 0, 0, 0, 0, 0)

  const PHASE_TAG: NvmeCompletion -> bool := (c: NvmeCompletion) => c.status & 1 == 1

  /** `(dw0 << 16) | (status & 0xFFFE)` */
  function ValueOf(c: NvmeCompletion): bv64 { Joined(c.dw0, c.status) }

  function Joined(dw0: bv32, status: bv16): bv64 { ((dw0 << 16) | (status & 0xFFFE) as bv32) as bv64 }

  /** What a command's promise is set to: the completion's status without the phase bit, and above it the lower
      half of its first word; the rest of that word is lost. */
  predicate SaysResult(v: bv64, dw0: bv32, status: bv16) {
    v & 1 == 0 && (v >> 1) & 0x7FFF == (status >> 1) as bv64 && v >> 16 == (dw0 & 0xFFFF) as bv64
  }

  lemma ResultBits(dw0: bv32, status: bv16)
    ensures SaysResult(Joined(dw0, status), dw0, status)
  {
  }

  /** The `Read` command builder. */
  function Read(nsid: nat, targetBuffer: nat, startLba: nat, blockCount: nat): NvmeCommand {
    NvmeCommand(0x02, 0, 0, nsid, 0, 0, targetBuffer, 0,
                startLba % WORD32, startLba / WORD32 % WORD32, blockCount, 0, 0, 0)
  }

  /** The first byte of the disk that a read command names, and how many bytes it reads; the block count
      in the command is one less than the number of sectors (NVM Express 1.4, section 6.9). */
  function FirstByte(c: NvmeCommand, sectorSize: nat): nat { (c.cdw10 + WORD32 * c.cdw11) * sectorSize }

  function ByteCount(c: NvmeCommand, sectorSize: nat): nat { (c.cdw12 + 1) * sectorSize }

  /** The fields that a plain read leaves alone: one page, no metadata, no options. */
  predicate NothingElse(c: NvmeCommand) {
    && c.fuse_psdt == 0 && c.rs == 0 && c.metadataPtr == 0 && c.prp2 == 0
    && c.cdw13 == 0 && c.cdw14 == 0 && c.cdw15 == 0
  }

  predicate SectorSize(n: nat) { n == 512 || n == 1024 || n == 2048 || n == 4096 }

  /** The command for 4096-byte block `block` reads exactly the bytes of that block, for every sector
      size the driver accepts. */
  lemma ReadsItsBlock(nsid: nat, page: nat, block: nat, sectorSize: nat)
    requires SectorSize(sectorSize) && block * (4096 / sectorSize) < WORD64
    ensures var c := Read(nsid, page, block * (4096 / sectorSize), 4096 / sectorSize - 1);
            && c.prp1 == page && NothingElse(c)
            && FirstByte(c, sectorSize) == block * 4096 && ByteCount(c, sectorSize) == 4096
  {
    var lba := block * (4096 / sectorSize);
    Halves(lba);
    Sectors(block, sectorSize);
  }

  lemma Halves(n: nat)
    requires n < WORD64
    ensures n % WORD32 + WORD32 * (n / WORD32 % WORD32) == n
  {
  }

  lemma Sectors(block: nat, sectorSize: nat)
    requires SectorSize(sectorSize)
    ensures block * (4096 / sectorSize) * sectorSize == block * 4096 && 4096 / sectorSize * sectorSize == 4096
  {
    if sectorSize == 512 {
    } else if sectorSize == 1024 {
    } else if sectorSize == 2048 {
    }
  }

  /** What a sequence of completion entries reports, in order. */
  function Reports(cs: seq<NvmeCompletion>): seq<(nat, bv64)> {
    if cs == [] then []
    else
      var n := |cs| - 1;
      Reports(cs[..n]) + [(cs[n].cmdid, ValueOf(cs[n]))]
  }

  /** Report `n` is for the command that the `n`th entry names, with its result. */
  lemma {:induction false} ReportsAt(cs: seq<NvmeCompletion>, n: nat)
    requires n < |cs|
    ensures |Reports(cs)| == |cs| && Reports(cs)[n].0 == cs[n].cmdid
    ensures SaysResult(Reports(cs)[n].1, cs[n].dw0, cs[n].status)
    decreases |cs|
  {
    hide Joined, SaysResult;
    var last := |cs| - 1;
    ResultBits(cs[last].dw0, cs[last].status);
    if n < last { ReportsAt(cs[..last], n); } else if last > 0 { ReportsAt(cs[..last], 0); }
  }

  class NvmeDisk {
    const nsid: nat
    const sectorSize: nat
    const sq: array<NvmeCommand>
    const cq: array<NvmeCompletion>
    const completions: Dispatcher<nat, bv64>
    var sqi: nat
    var cqi: nat
    var sqTail: nat                   // the doorbells last rung
    var cqHead: nat
    var serial: nat                   // numbers the promises
    ghost var queue: Queue<NvmeCompletion>
    ghost var events: seq<Event<nat, bv64>>
    ghost var submitted: seq<NvmeCommand>
    ghost var fetched: seq<NvmeCommand>       // what the controller has taken from the submission ring

    ghost predicate Valid()
      reads this, sq, cq, completions
    {
      && SectorSize(sectorSize)
      && sq.Length == SLOTS
      && cq[..] == queue.slots && |queue.slots| == SLOTS && Inv(queue, PHASE_TAG)
      && sqi == |submitted| % IDS && cqi == Index(queue)
      && completions.State() == Play(events) && serial == |events|
      && Answers(events) == Reports(queue.accepted)
      && Identified(events, submitted)
      && Recent(sq[..], submitted)
      && sqTail == Slot(|submitted|) && Fetched(submitted, fetched)
    }

    /** The controller is fewer than 256 commands behind. */
    ghost predicate Follows()
      reads this
    {
      |submitted| < |fetched| + SLOTS
    }

    constructor (nsid: nat, sectorSize: nat, blank: NvmeCommand)
      requires SectorSize(sectorSize)
      ensures Valid() && events == [] && submitted == [] && fetched == [] && queue.produced == []
      ensures this.nsid == nsid && this.sectorSize == sectorSize
      ensures fresh(sq) && fresh(cq) && fresh(completions)
    {
      this.nsid, this.sectorSize := nsid, sectorSize;
      sq := new NvmeCommand[SLOTS](_ => blank);
      cq := new NvmeCompletion[SLOTS](_ => BLANK);
      completions := new Dispatcher();
      sqi, cqi, sqTail, cqHead, serial := 0, 0, 0, 0, 0;
      events, submitted, fetched := [], [], [];
      queue := Queue(seq(SLOTS, _ => BLANK), [], []);
      new;
      assert cq[..] == queue.slots;
    }

    /** The controller posts a completion; a step of the other side. */
    method ControllerPosts(slot: nat, c: NvmeCompletion)
      requires Valid() && MayProduce(queue, PHASE_TAG, c) && slot == Slot(|queue.produced|)
      modifies this`queue, cq
      ensures Valid() && queue == Produce(old(queue), c)
    {
      hide Slot, EvenLap;
      ProduceKeeps(queue, PHASE_TAG, c);
      cq[slot] := c;
      queue := Produce(queue, c);
    }

    /** The controller fetches a command when the doorbell's tail is not its own head (sections 4.1.1 and 4.1.2 of
        NVM Express 1.4); a step of the other side. Commands are fetched in order while the controller follows.
        Once it does not, it never follows again. */
    ghost method ControllerFetches()
      requires Valid()
      modifies this`fetched
      ensures Valid() && Follows() == old(Follows())
      ensures fetched == if Slot(|old(fetched)|) == sqTail then old(fetched)
                         else old(fetched) + [sq[Slot(|old(fetched)|)]]
      ensures Follows() && old(fetched) != submitted ==> fetched == submitted[..|old(fetched)| + 1]
    {
      hide Inv, Recent, Play, Answers, Reports, SectorSize, Identified;
      Behind(|fetched|, |submitted|);
      if Slot(|fetched|) != sqTail {
        if Follows() { StillThere(sq[..], submitted, |fetched|); }
        fetched := fetched + [sq[Slot(|fetched|)]];
      }
    }

    /** An idle controller, whose head is the tail, has executed everything exactly if it follows: with 256
        commands to fetch the full ring looks empty, and they stay there. */
    lemma IdleExactly()
      requires Valid() && Slot(|fetched|) == sqTail
      ensures fetched == submitted <==> Follows()
    {
      hide Inv, Recent, Play, Answers, Reports, SectorSize, Identified, Slot;
      Behind(|fetched|, |submitted|);
    }

    /** `RunCommand`: the command gets the next id and the next slot. */
    method RunCommand(cmd: NvmeCommand) returns (promise: nat)
      requires Valid()
      modifies this`sqi, this`sqTail, this`serial, this`events, this`submitted, sq, completions
      ensures Valid() && promise == |old(events)|
      ensures submitted == old(submitted) + [cmd.(cid := |old(submitted)| % 512)]
      ensures events == old(events) + [Issued(|old(submitted)| % 512)]
      ensures sqTail == Slot(|submitted|) && (Follows() <==> old(|submitted| + 1 < |fetched| + SLOTS))
    {
      hide Inv, Reports, Recent, Slot, SectorSize, Play, Answers, Identified, Fetched;
      var currentCommand := sqi;
      sqi := sqi + 1;
      if sqi == 0x200 { sqi := 0; }
      var cmd' := cmd.(cid := currentCommand);
      ghost var e := Issued(currentCommand);
      PlayOn(events, e);
      IdentifiedOn(events, submitted, cmd');
      FetchedOn(submitted, fetched, cmd');
      IdsWrap(|submitted|);
      SlotsKeep(sq[..], submitted, cmd');
      sq[Slot(currentCommand)] := cmd';
      promise := serial;
      completions.Register(currentCommand, promise);
      serial := serial + 1;
      sqTail := Slot(sqi);
      events, submitted := events + [e], submitted + [cmd'];
    }

    /** `read`, up to where it waits: one fresh page and one command for every block. The list must hold
        enough pages, and the sector numbers must fit 64 bits. */
    method ReadBlocks(pages: FreePages.PageList, startblock: nat, blockCount: nat) returns (sglist: seq<nat>)
      requires Valid() && pages.Valid() && FreePages.TotalFree(pages.runs) >= blockCount
      requires forall b :: startblock <= b < startblock + blockCount ==> FitsSectors(b)
      modifies this`sqi, this`sqTail, this`serial, this`events, this`submitted, sq, completions, pages, pages.spine
      ensures Valid() && pages.Valid()
      ensures |sglist| == blockCount && |submitted| == |old(submitted)| + blockCount && old(submitted) <= submitted
      ensures Matches(submitted, |old(submitted)|, sglist, startblock)
      ensures pages.issued == old(pages.issued) + SetOf(sglist) && AllNew(sglist, old(pages.issued))
    {
      hide Inv, Recent, Play, Answers, Reports, SectorSize, Identified, FreePages.PageList.Valid, Valid, Transfers,
           Matches, SetOf, AllNew;
      sglist := [];
      NothingMatches(submitted, startblock);
      NothingNew(pages.issued);
      pages.Enough(blockCount);
      for n := 0 to blockCount
        invariant Valid() && pages.Valid()
        invariant (forall i :: 0 <= i < |pages.spine| ==> pages.spine[i] in old(pages.spine))
        invariant pages.registered == old(pages.registered) && |pages.issued| + blockCount - n <= |pages.registered|
        invariant |sglist| == n && |submitted| == |old(submitted)| + n && old(submitted) <= submitted
        invariant Matches(submitted, |old(submitted)|, sglist, startblock)
        invariant pages.issued == old(pages.issued) + SetOf(sglist) && AllNew(sglist, old(pages.issued))
      {
        ghost var cs := submitted;
        var page := ReadBlock(pages, n + startblock);
        MatchesOn(cs, submitted, |old(submitted)|, sglist, page, startblock);
        NewOn(sglist, page, old(pages.issued));
        sglist := sglist + [page];
      }
    }

    /** The sector numbers of a block fit the 64 bits the driver computes them in. */
    predicate FitsSectors(block: nat) { 0 < sectorSize <= 4096 && block * (4096 / sectorSize) < WORD64 }

    /** One turn of the loop in `read`. */
    method ReadBlock(pages: FreePages.PageList, block: nat) returns (page: nat)
      requires Valid() && pages.Valid() && |pages.issued| < |pages.registered|
      requires FitsSectors(block)
      modifies this`sqi, this`sqTail, this`serial, this`events, this`submitted, sq, completions, pages, pages.spine
      ensures Valid() && pages.Valid() && pages.registered == old(pages.registered)
      ensures forall i :: 0 <= i < |pages.spine| ==> pages.spine[i] in old(pages.spine)
      ensures page !in old(pages.issued) && pages.issued == old(pages.issued) + {page}
      ensures |submitted| == |old(submitted)| + 1 && old(submitted) <= submitted
      ensures Transfers(submitted[|old(submitted)|], page, block)
    {
      hide Valid, FreePages.PageList.Valid, FirstByte, ByteCount, Read, SectorSize;
      ValidSector();
      pages.HasPages();
      page := pages.Get();
      CommandFor(page, block, |submitted| % IDS);
      var promise := RunCommand(Read(nsid, page, block * (4096 / sectorSize) % WORD64, 4096 / sectorSize - 1));
    }

    lemma ValidSector()
      requires Valid()
      ensures SectorSize(sectorSize)
    {
    }

    lemma CommandFor(page: nat, block: nat, id: nat)
      requires SectorSize(sectorSize) && FitsSectors(block)
      ensures Transfers(Read(nsid, page, block * (4096 / sectorSize) % WORD64, 4096 / sectorSize - 1).(cid := id),
              page, block)
    {
      hide FirstByte, ByteCount, SectorSize;
      ReadsItsBlock(nsid, page, block, sectorSize);
      var lba := block * (4096 / sectorSize);
      assert lba % WORD64 == lba by { InWord(lba); }
      SameTransfer(Read(nsid, page, lba, 4096 / sectorSize - 1), id, page, block);
    }

    /** The id plays no part in what a command transfers. */
    lemma SameTransfer(c: NvmeCommand, id: nat, page: nat, block: nat)
      requires Transfers(c, page, block)
      ensures Transfers(c.(cid := id), page, block)
    {
    }

    /** From command `first` on, the commands transfer consecutive blocks into the listed pages. */
    ghost predicate Matches(cs: seq<NvmeCommand>, first: nat, sglist: seq<nat>, startblock: nat) {
      first + |sglist| == |cs| &&
      forall j: nat :: first <= j < |cs| ==> Transfers(cs[j], sglist[j - first], startblock + (j - first))
    }

    lemma NothingMatches(cs: seq<NvmeCommand>, startblock: nat)
      ensures Matches(cs, |cs|, [], startblock)
    {
    }

    lemma MatchesOn(cs: seq<NvmeCommand>, cs': seq<NvmeCommand>, first: nat, sglist: seq<nat>, page: nat,
        startblock: nat)
      requires Matches(cs, first, sglist, startblock) && cs <= cs' && |cs'| == |cs| + 1
      requires Transfers(cs'[|cs|], page, startblock + |sglist|)
      ensures Matches(cs', first, sglist + [page], startblock)
    {
      hide Transfers;
      assert forall j :: 0 <= j < |cs| ==> cs'[j] == cs[j];
    }

    /** Command `c` fills `page` with exactly the bytes of block `block`. */
    predicate Transfers(c: NvmeCommand, page: nat, block: nat) {
      c.prp1 == page && c.opcode == 2 && c.nsid == nsid && NothingElse(c)
      && FirstByte(c, sectorSize) == block * 4096 && ByteCount(c, sectorSize) == 4096
    }

    /** `HandleInterrupt`: takes everything the controller has posted. */
    method HandleInterrupt()
      requires Valid()
      modifies this`cqi, this`cqHead, this`serial, this`events, this`queue, completions
      ensures Valid() && queue == old(queue).(accepted := old(queue).produced)
      ensures Answers(events) == Reports(queue.produced)
      ensures cqHead == Slot(cqi)
    {
      hide Inv, Slot, EvenLap, Recent, SectorSize, Identified, Fetched, Play;
      AcceptedAll(queue, PHASE_TAG);
      while true
        invariant Valid() && queue == old(queue).(accepted := queue.accepted)
        invariant |queue.accepted| <= |queue.produced|
        decreases |queue.produced| - |queue.accepted|
      {
        var i := Slot(cqi);
        var phase := EvenLap(cqi);
        AcceptsExactly(queue, PHASE_TAG);
        ConsumeKeeps(queue, PHASE_TAG);
        AcceptedAll(queue, PHASE_TAG);
        if (cq[i].status & 1 == 1) != phase {
          cqHead := Slot(cqi);
          return;
        }
        Accept(cq[i]);
      }
    }

    /** As long as no command is issued while the one 512 before it still waits, every command's promise is set
        exactly once, to the value of the first completion that carries its id. */
    lemma Routed()
      requires Valid() && Freed(events, COMMAND_IDS)
      ensures Pending.Sound(events, completions.State())
    {
      hide Inv, Recent, Play, Answers, Reports, SectorSize, Pending.Sound, UnsharedKeys, Freed, InTurn, Covered;
      AllUniqueExactly(events, {COMMAND_IDS});
      ExactlyOnce(events);
    }

    /** And only then: otherwise there is a moment at which some answer leaves a command without its value. */
    lemma RoutedExactly(answer: bv64)
      requires Valid()
      ensures Routes(events, answer) <==> Freed(events, COMMAND_IDS)
    {
      hide Inv, Recent, Play, Answers, Reports, SectorSize, Pending.Sound, UnsharedKeys, Freed, InTurn, Covered,
           Routes;
      AllUniqueExactly(events, {COMMAND_IDS});
      UniquenessExact(events, answer);
    }

    /** The rest of the loop's body: the waiting command is told, and the index moves on. */
    method Accept(c: NvmeCompletion)
      requires Valid() && Inv(queue.(accepted := queue.accepted + [c]), PHASE_TAG)
      modifies this`cqi, this`serial, this`events, this`queue, completions
      ensures Valid() && queue == old(queue).(accepted := old(queue).accepted + [c])
    {
      hide Inv, Slot, EvenLap, Recent, SectorSize, Identified, Fetched, Play, Answers, Reports;
      ghost var e := Completed(c.cmdid, ValueOf(c));
      PlayOn(events, e);
      IdentifiedOnAnswer(events, submitted, e);
      ReportsOn(queue.accepted, c);
      IndexWraps(|queue.accepted|, WORD16);
      completions.Complete(c.cmdid, ValueOf(c));
      serial := serial + 1;
      cqi := (cqi + 1) % WORD16;
      events := events + [e];
      queue := queue.(accepted := queue.accepted + [c]);
    }
  }

  ghost function SetOf(s: seq<nat>): set<nat> { set p | p in s }

  /** None of the pages was issued before, and none is listed twice. */
  ghost predicate AllNew(s: seq<nat>, issued: set<nat>) {
    && (forall k :: 0 <= k < |s| ==> s[k] !in issued)
    && forall j, k :: 0 <= j < k < |s| ==> s[j] != s[k]
  }

  lemma NothingNew(issued: set<nat>)
    ensures SetOf([]) == {} && issued + {} == issued && AllNew([], issued)
  {
  }

  lemma NewOn(s: seq<nat>, p: nat, issued: set<nat>)
    requires AllNew(s, issued) && p !in issued + SetOf(s)
    ensures AllNew(s + [p], issued) && issued + SetOf(s + [p]) == issued + SetOf(s) + {p}
  {
    assert SetOf(s + [p]) == SetOf(s) + {p};
  }

  lemma ReportsOn(cs: seq<NvmeCompletion>, c: NvmeCompletion)
    ensures Reports(cs + [c]) == Reports(cs) + [(c.cmdid, ValueOf(c))]
  {
  }

  /** The promises were issued under the ids of the commands, which are their numbers modulo 512. */
  ghost predicate Identified(es: seq<Event<nat, bv64>>, cs: seq<NvmeCommand>) {
    Keys(es, COMMAND_IDS) == Ids(cs) && InTurn(es, COMMAND_IDS) && Covered(es, {COMMAND_IDS})
  }

  lemma CommandId(n: nat)
    ensures COMMAND_IDS.Nth(n) == n % IDS && COMMAND_IDS.Has(n % IDS)
  {
  }

  lemma IdentifiedOn(es: seq<Event<nat, bv64>>, cs: seq<NvmeCommand>, c: NvmeCommand)
    requires Identified(es, cs) && c.cid == |cs| % IDS
    ensures Identified(es + [Issued(c.cid)], cs + [c])
  {
    hide Keys, InTurn, Covered, Series.Nth, Series.Has;
    CommandId(|cs|);
    KeysOn(es, COMMAND_IDS, Issued(c.cid));
    CoveredOn(es, {COMMAND_IDS}, Issued(c.cid));
  }

  lemma IdentifiedOnAnswer(es: seq<Event<nat, bv64>>, cs: seq<NvmeCommand>, e: Event<nat, bv64>)
    requires Identified(es, cs) && e.Completed?
    ensures Identified(es + [e], cs)
  {
    hide Keys, InTurn, Covered;
    KeysOn(es, COMMAND_IDS, e);
    CoveredOn(es, {COMMAND_IDS}, e);
  }

  /** As long as fewer than 256 commands are left to fetch, those fetched are the first ones submitted. */
  ghost predicate Fetched(submitted: seq<NvmeCommand>, fetched: seq<NvmeCommand>) {
    |fetched| <= |submitted| && (|submitted| < |fetched| + SLOTS ==> fetched <= submitted)
  }

  lemma FetchedOn(submitted: seq<NvmeCommand>, fetched: seq<NvmeCommand>, c: NvmeCommand)
    requires Fetched(submitted, fetched)
    ensures Fetched(submitted + [c], fetched)
  {
  }

  lemma AcceptedAll<T>(q: Queue<T>, phase: T -> bool)
    requires Inv(q, phase)
    ensures q.accepted <= q.produced
    ensures |q.accepted| == |q.produced| ==> q.accepted == q.produced
    ensures Accepts(q.slots, phase, Index(q)) ==> |Consume(q, phase).accepted| <= |q.produced|
  {
    AcceptsExactly(q, phase);
  }

  /** The ids of the commands, in order. */
  function Ids(cs: seq<NvmeCommand>): (r: seq<nat>)
    ensures |r| == |cs|
  {
    seq(|cs|, i requires 0 <= i < |cs| => cs[i].cid)
  }

  /** Slot `n % 256` still holds command `n`. */
  ghost predicate Holds(slots: seq<NvmeCommand>, submitted: seq<NvmeCommand>, n: nat)
    requires |slots| == SLOTS && n < |submitted|
  {
    slots[Slot(n)] == submitted[n]
  }

  lemma IdsWrap(n: nat)
    ensures Slot(n % IDS) == Slot(n)
    ensures (if n % IDS + 1 == IDS then 0 else n % IDS + 1) == (n + 1) % IDS
    ensures Slot((n + 1) % IDS) == Slot(n + 1)
  {
    hide Slot;
    TwoLaps(n);
    TwoLaps(n + 1);
    NextId(n);
  }

  lemma TwoLaps(n: nat)
    ensures Slot(n % IDS) == Slot(n)
  {
    hide Slot;
    DoubleLaps(n / IDS, n % IDS);
  }

  lemma NextId(n: nat)
    ensures (if n % IDS + 1 == IDS then 0 else n % IDS + 1) == (n + 1) % IDS
  {
  }

  /** The last 256 commands are all still in the ring. */
  ghost predicate Recent(slots: seq<NvmeCommand>, submitted: seq<NvmeCommand>)
    requires |slots| == SLOTS
  {
    forall n: nat :: n < |submitted| <= n + SLOTS ==> Holds(slots, submitted, n)
  }

  /** Head and tail of a ring coincide exactly if the lead is a multiple of the ring's size. */
  lemma Behind(head: nat, tail: nat)
    requires head <= tail
    ensures Slot(head) == Slot(tail) <==> (tail - head) % SLOTS == 0
  {
    hide Slot;
    var q, r := (tail - head) / SLOTS, (tail - head) % SLOTS;
    SameSlot(q, head + r);
    if r != 0 { SlotsDiffer(head, head + r); }
  }

  lemma StillThere(slots: seq<NvmeCommand>, submitted: seq<NvmeCommand>, n: nat)
    requires |slots| == SLOTS && Recent(slots, submitted) && n < |submitted| <= n + SLOTS
    ensures slots[Slot(n)] == submitted[n]
  {
    assert Holds(slots, submitted, n);
  }

  lemma SlotsKeep(slots: seq<NvmeCommand>, submitted: seq<NvmeCommand>, c: NvmeCommand)
    requires |slots| == SLOTS && Recent(slots, submitted)
    ensures Recent(slots[Slot(|submitted|) := c], submitted + [c])
  {
    hide Slot;
    var slots', submitted' := slots[Slot(|submitted|) := c], submitted + [c];
    forall n: nat | n < |submitted'| <= n + SLOTS ensures Holds(slots', submitted', n) {
      if n < |submitted| {
        SlotsDiffer(n, |submitted|);
        assert Holds(slots, submitted, n);
      }
    }
  }
}
