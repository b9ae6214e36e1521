/** The block cache (kernel/include/blockcache.h): a linear map from disks to linear maps from block
    numbers to pages. A block is read from its disk the first time it is asked for. */
module BlockCache {
  import opened FlatMap

  /** Where each block of each disk was put. The page numbers handed out are not 0 and never repeat. */
  class Memory {
    var next: nat
    ghost var holds: map<nat, (Disk, nat)>      // which block of which disk a page holds

    ghost predicate Valid()
      reads this
    {
      next >= 1 && forall p :: p in holds ==> 0 < p < next
    }

    constructor ()
      ensures Valid() && holds == map[]
    {
      next, holds := 1, map[];
    }
  }

  /** A disk driver, seen from the cache: a read fills a fresh page (see NvmeDisk.ReadBlocks). */
  class Disk {
    var fetched: seq<nat>                       // the blocks read, in order

    method Read(memory: Memory, block: nat) returns (page: nat)
      requires memory.Valid()
      modifies memory, this
      ensures memory.Valid() && page != 0 && page !in old(memory.holds)
      ensures memory.holds == old(memory.holds)[page := (this, block)]
      ensures fetched == old(fetched) + [block]
    {
      page := memory.next;
      memory.next := page + 1;
      memory.holds := memory.holds[page := (this, block)];
      fetched := fetched + [block];
    }
  }

  type DiskCache = FlatMap<nat, nat>            // block number to page; 0 for none

  /** The cache of one disk: every page holds its block, the blocks fetched are those cached, and none was
      fetched twice. */
  ghost predicate Agrees(disk: Disk, fetched: seq<nat>, cache: seq<Pair<nat, nat>>, holds: map<nat, (Disk, nat)>) {
    && UniqueKeys(cache)
    && (forall b :: b in Contents(cache) ==> IsPageOf(Contents(cache)[b], disk, b, holds))
    && (forall b :: b in fetched <==> b in Contents(cache))
    && (forall i, j :: 0 <= i < j < |fetched| ==> fetched[i] != fetched[j])
  }

  ghost predicate IsPageOf(page: nat, disk: Disk, block: nat, holds: map<nat, (Disk, nat)>) {
    page != 0 && page in holds && holds[page] == (disk, block)
  }

  /** Pages keep what they hold. */
  ghost predicate Grows(holds: map<nat, (Disk, nat)>, holds': map<nat, (Disk, nat)>) {
    forall p :: p in holds ==> p in holds' && holds'[p] == holds[p]
  }

  lemma StillAgrees(disk: Disk, fetched: seq<nat>, cache: seq<Pair<nat, nat>>, holds: map<nat, (Disk, nat)>,
      holds': map<nat, (Disk, nat)>)
    requires Agrees(disk, fetched, cache, holds) && Grows(holds, holds')
    ensures Agrees(disk, fetched, cache, holds')
  {
  }

  lemma UniqueOf(disk: Disk, fetched: seq<nat>, cache: seq<Pair<nat, nat>>, holds: map<nat, (Disk, nat)>)
    requires Agrees(disk, fetched, cache, holds)
    ensures UniqueKeys(cache)
  {
  }

  lemma IsPage(page: nat, disk: Disk, block: nat, holds: map<nat, (Disk, nat)>)
    requires page != 0 && page in holds && holds[page] == (disk, block)
    ensures IsPageOf(page, disk, block, holds)
  {
  }

  /** A block in the cache. */
  lemma Hit(disk: Disk, fetched: seq<nat>, cache: seq<Pair<nat, nat>>, holds: map<nat, (Disk, nat)>, block: nat)
    requires Agrees(disk, fetched, cache, holds)
    ensures block in Contents(cache) <==> block in fetched
    ensures block in Contents(cache) ==>
              Contents(cache)[block] != 0 && IsPageOf(Contents(cache)[block], disk, block, holds)
  {
  }

  /** A block fetched for the first time. */
  lemma FetchedAgrees(disk: Disk, fetched: seq<nat>, cache: seq<Pair<nat, nat>>, holds: map<nat, (Disk, nat)>,
      holds': map<nat, (Disk, nat)>, block: nat, page: nat, cache': seq<Pair<nat, nat>>)
    requires Agrees(disk, fetched, cache, holds) && Grows(holds, holds') && IsPageOf(page, disk, block, holds')
    requires block !in Contents(cache) && UniqueKeys(cache') && Contents(cache') == Contents(cache)[block := page]
    ensures Agrees(disk, fetched + [block], cache', holds')
  {
  }

  lemma EmptyAgrees(disk: Disk, holds: map<nat, (Disk, nat)>)
    ensures Agrees(disk, [], [], holds)
  {
  }

  ghost function DisksOf(es: seq<Pair<Disk, DiskCache>>): set<Disk> {
    set i | 0 <= i < |es| :: es[i].first
  }

  lemma Opened(es: seq<Pair<Disk, DiskCache>>, disk: Disk, none: DiskCache)
    ensures Touch(es, disk, none) == if disk in DisksOf(es) then es else es + [Pair(disk, none)]
    ensures DisksOf(Touch(es, disk, none)) == DisksOf(es) + {disk}
  {
    var es' := es + [Pair(disk, none)];
    assert es'[|es|].first == disk;
    forall d | d in DisksOf(es) ensures d in DisksOf(es') {
      var i :| 0 <= i < |es| && es[i].first == d;
      assert es'[i].first == d;
    }
  }

  ghost predicate SecondsApart(es: seq<Pair<Disk, DiskCache>>) {
    forall i, j :: 0 <= i < j < |es| ==> es[i].second != es[j].second
  }

  lemma OpenedApart(es: seq<Pair<Disk, DiskCache>>, disk: Disk, none: DiskCache)
    requires SecondsApart(es) && forall i :: 0 <= i < |es| ==> es[i].second != none
    ensures SecondsApart(Touch(es, disk, none))
  {
    hide DisksOf;
    Opened(es, disk, none);
  }

  class Blockcache {
    const memory: Memory
    const entries: FlatMap<Disk, DiskCache>

    ghost function Caches(): set<DiskCache>
      reads entries
    {
      set i | 0 <= i < |entries.entries| :: entries.entries[i].second
    }

    ghost function Disks(): set<Disk>
      reads entries
    {
      DisksOf(entries.entries)
    }

    ghost predicate AgreesAt(i: nat)
      requires i < |entries.entries|
      reads memory, entries, Caches(), Disks()
    {
      var e := entries.entries[i];
      Agrees(e.first, e.first.fetched, e.second.entries, memory.holds)
    }

    ghost predicate CachesApart()
      reads entries
    {
      SecondsApart(entries.entries) && UniqueKeys(entries.entries)
    }

    ghost predicate Valid()
      reads this, memory, entries, Caches(), Disks()
    {
      memory.Valid() && CachesApart() && forall i: nat :: i < |entries.entries| ==> AgreesAt(i)
    }

    /** The fetches of a disk never repeat a block. */
    lemma FetchedOnce(disk: Disk, i: nat, j: nat)
      requires Valid() && disk in Disks() && i < j < |disk.fetched|
      ensures disk.fetched[i] != disk.fetched[j]
    {
      hide Contents;
      var k :| 0 <= k < |entries.entries| && entries.entries[k].first == disk;
      assert AgreesAt(k);
    }

    constructor ()
      ensures Valid() && entries.entries == [] && memory.holds == map[] && fresh(memory) && fresh(entries)
    {
      memory := new Memory();
      entries := new FlatMap();
    }

    /** `read`: the page for block `start + n` is the `n`th of the result; no block of a disk is fetched twice. */
    method Read(disk: Disk, start: nat, count: nat) returns (full: seq<nat>)
      requires Valid() && (disk in Disks() || disk.fetched == [])
      modifies memory, entries, disk, Caches()
      ensures Valid() && Disks() == old(Disks()) + {disk}
      ensures |full| == count && forall n :: 0 <= n < count ==> IsPageOf(full[n], disk, start + n, memory.holds)
      ensures Grows(old(memory.holds), memory.holds)
      ensures old(disk.fetched) <= disk.fetched
      ensures forall b :: b in disk.fetched <==> b in old(disk.fetched) || start <= b < start + count
    {
      hide Agrees, Contents;
      var d := OpenDisk(disk);
      var diskcache := entries.entries[d].second;
      full := [];
      for n := 0 to count
        invariant Valid() && Disks() == old(Disks()) + {disk}
        invariant (d < |entries.entries| && entries.entries[d] == Pair(disk, diskcache))
        invariant |full| == n && forall k :: 0 <= k < n ==> IsPageOf(full[k], disk, start + k, memory.holds)
        invariant Grows(old(memory.holds), memory.holds)
        invariant old(disk.fetched) <= disk.fetched
        invariant forall b :: b in disk.fetched <==> b in old(disk.fetched) || start <= b < start + n
      {
        var page := Block(disk, diskcache, start + n, d);
        full := full + [page];
      }
    }

    /** `entries[disk]` */
    method OpenDisk(disk: Disk) returns (d: nat)
      requires Valid() && (disk in Disks() || disk.fetched == [])
      modifies entries
      ensures Valid() && Disks() == old(Disks()) + {disk} && d < |entries.entries| && entries.entries[d].first == disk
      ensures fresh(Caches() - old(Caches()))
    {
      hide Contents, Agrees, Touch, DisksOf, UniqueKeys;
      var none := new FlatMap<nat, nat>();
      ghost var es := entries.entries;
      d := entries.At(disk, none);
      Opened(es, disk, none);
      if disk !in old(Disks()) { EmptyAgrees(disk, memory.holds); }
      assert CachesApart() by { OpenedApart(es, disk, none); }
      forall i: nat | i < |entries.entries| ensures AgreesAt(i) {
        if i < |es| { assert old(AgreesAt(i)); }
      }
    }

    /** One turn of the loop in `read`. */
    method Block(disk: Disk, diskcache: DiskCache, block: nat, ghost d: nat) returns (page: nat)
      requires Valid() && d < |entries.entries| && entries.entries[d] == Pair(disk, diskcache)
      modifies memory, disk, diskcache
      ensures Valid() && IsPageOf(page, disk, block, memory.holds) && Grows(old(memory.holds), memory.holds)
      ensures disk.fetched == if block in old(disk.fetched) then old(disk.fetched) else old(disk.fetched) + [block]
    {
      hide Agrees, IsPageOf, Grows;
      assert AgreesAt(d);
      page := Fetch(disk, diskcache, block);
      forall i: nat | i < |entries.entries| ensures AgreesAt(i) {
        assert old(AgreesAt(i));
        if i != d {
          StillAgrees(entries.entries[i].first, entries.entries[i].first.fetched, entries.entries[i].second.entries,
              old(memory.holds), memory.holds);
        }
      }
    }

    method Fetch(disk: Disk, diskcache: DiskCache, block: nat) returns (page: nat)
      requires memory.Valid() && Agrees(disk, disk.fetched, diskcache.entries, memory.holds)
      modifies memory, disk, diskcache
      ensures memory.Valid() && Agrees(disk, disk.fetched, diskcache.entries, memory.holds)
      ensures IsPageOf(page, disk, block, memory.holds) && Grows(old(memory.holds), memory.holds)
      ensures disk.fetched == if block in old(disk.fetched) then old(disk.fetched) else old(disk.fetched) + [block]
    {
      hide Contents, Agrees, IsPageOf;
      ghost var cache := diskcache.entries;
      UniqueOf(disk, disk.fetched, cache, memory.holds);
      var i := diskcache.At(block, 0);
      page := diskcache.entries[i].second;
      Hit(disk, disk.fetched, cache, memory.holds, block);
      if page == 0 {
        page := disk.Read(memory, block);
        SetValue(diskcache.entries, i, page);
        diskcache.entries := diskcache.entries[i := Pair(block, page)];
        IsPage(page, disk, block, memory.holds);
        FetchedAgrees(disk, old(disk.fetched), cache, old(memory.holds), memory.holds, block, page, diskcache.entries);
      }
    }
  }
}
