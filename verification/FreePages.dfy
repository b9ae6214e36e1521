/** The physical page allocator (kernel/src/freepage.cpp): a linked list of runs of free pages, each
    handed out from its end. */
module FreePages {

  import opened Words

  /** The pages `address`, `address + 4096`, ... of one list node. */
  datatype Run = Run(address: nat, count: nat) {
    function End(): nat { address + PAGE * count }
  }

  function NthPage(r: Run, k: nat): nat { r.address + PAGE * k }

  ghost function PagesOf(r: Run): set<nat> {
    set k | 0 <= k < r.count :: NthPage(r, k)
  }

  ghost function Free(rs: seq<Run>): set<nat> {
    set i, p | 0 <= i < |rs| && p in PagesOf(rs[i]) :: p
  }

  ghost predicate RunsApart(r: Run, s: Run) { r.End() <= s.address || s.End() <= r.address }

  ghost predicate ValidRuns(rs: seq<Run>) {
    && (forall i :: 0 <= i < |rs| ==> rs[i].count >= 1 && rs[i].address % PAGE == 0)
    && forall i, j :: 0 <= i < j < |rs| ==> RunsApart(rs[i], rs[j])
  }

  /** The last `n` pages of a run. */
  function Tail(r: Run, n: nat): Run
    requires n <= r.count
  {
    Run(r.address + PAGE * (r.count - n), n)
  }

  /** Run `i` without its last `n` pages; a run that becomes empty goes. */
  function Shortened(rs: seq<Run>, i: nat, n: nat): seq<Run>
    requires i < |rs| && n <= rs[i].count
  {
    if n == rs[i].count then rs[..i] + rs[i + 1..] else rs[i := Run(rs[i].address, rs[i].count - n)]
  }

  lemma FirstShortened(rs: seq<Run>)
    requires rs != [] && rs[0].count >= 1
    ensures Shortened(rs, 0, 1) == if rs[0].count == 1 then rs[1..] else rs[0 := Run(rs[0].address, rs[0].count - 1)]
  {
  }

  /** The first run that keeps at least one page. */
  ghost predicate ServedBy(rs: seq<Run>, i: nat, n: nat) {
    i < |rs| && rs[i].count > n && forall k :: 0 <= k < i ==> rs[k].count <= n
  }

  lemma PagesSplit(r: Run, n: nat)
    requires n <= r.count
    ensures PagesOf(r) == PagesOf(Run(r.address, r.count - n)) + PagesOf(Tail(r, n))
    ensures PagesOf(Run(r.address, r.count - n)) !! PagesOf(Tail(r, n))
  {
    forall p | p in PagesOf(r) ensures p in PagesOf(Run(r.address, r.count - n)) + PagesOf(Tail(r, n)) {
      var k :| 0 <= k < r.count && p == NthPage(r, k);
      if k >= r.count - n {
        assert p == NthPage(Tail(r, n), k - (r.count - n));
      } else {
        assert p == NthPage(Run(r.address, r.count - n), k);
      }
    }
    forall p | p in PagesOf(Run(r.address, r.count - n)) ensures p in PagesOf(r) {
      var k :| 0 <= k < r.count - n && p == NthPage(Run(r.address, r.count - n), k);
      assert p == NthPage(r, k);
    }
    forall p | p in PagesOf(Tail(r, n)) ensures p in PagesOf(r) {
      var k :| 0 <= k < n && p == NthPage(Tail(r, n), k);
      assert p == NthPage(r, r.count - n + k);
    }
  }

  lemma PagesInside(r: Run)
    ensures forall p :: p in PagesOf(r) ==> r.address <= p && p + PAGE <= r.End() && p % PAGE == r.address % PAGE
  {
  }

  /** Taking the last `n` pages of run `i` takes exactly these out of the free ones. */
  lemma TakeTail(rs: seq<Run>, i: nat, n: nat)
    requires ValidRuns(rs) && i < |rs| && n <= rs[i].count
    ensures PagesOf(Tail(rs[i], n)) <= Free(rs)
    ensures Free(rs[i := Run(rs[i].address, rs[i].count - n)]) == Free(rs) - PagesOf(Tail(rs[i], n))
  {
    hide PagesOf;
    var r' := Run(rs[i].address, rs[i].count - n);
    var rs' := rs[i := r'];
    PagesSplit(rs[i], n);
    forall p | p in Free(rs') ensures p in Free(rs) && p !in PagesOf(Tail(rs[i], n)) {
      var j :| 0 <= j < |rs| && p in PagesOf(rs'[j]);
      if j != i { OtherRun(rs, i, j, p); }
    }
    forall p | p in Free(rs) && p !in PagesOf(Tail(rs[i], n)) ensures p in Free(rs') {
      var j :| 0 <= j < |rs| && p in PagesOf(rs[j]);
      assert p in PagesOf(rs'[j]);
    }
  }

  lemma OtherRun(rs: seq<Run>, i: nat, j: nat, p: nat)
    requires ValidRuns(rs) && i < |rs| && j < |rs| && i != j && p in PagesOf(rs[j])
    ensures p !in PagesOf(rs[i])
  {
  }

  /** An exhausted run at the head may be dropped. */
  lemma DropEmpty(rs: seq<Run>)
    requires rs != [] && rs[0].count == 0
    ensures Free(rs[1..]) == Free(rs)
  {
  }

  lemma Prepend(r: Run, rs: seq<Run>)
    ensures Free([r] + rs) == PagesOf(r) + Free(rs)
  {
    hide PagesOf;
    var rs' := [r] + rs;
    forall p | p in PagesOf(r) + Free(rs) ensures p in Free(rs') {
      if p in PagesOf(r) {
        assert p in PagesOf(rs'[0]);
      } else {
        var i :| 0 <= i < |rs| && p in PagesOf(rs[i]);
        assert p in PagesOf(rs'[i + 1]);
      }
    }
  }

  /** The runs are in order, and free and issued pages partition the registered ones. */
  ghost predicate Accounts(rs: seq<Run>, issued: set<nat>, registered: set<nat>) {
    ValidRuns(rs) && Free(rs) !! issued && Free(rs) + issued == registered
  }

  lemma TakeSome(rs: seq<Run>, i: nat, n: nat, issued: set<nat>, registered: set<nat>)
    requires Accounts(rs, issued, registered) && i < |rs| && n < rs[i].count
    ensures Accounts(rs[i := Run(rs[i].address, rs[i].count - n)], issued + PagesOf(Tail(rs[i], n)), registered)
    ensures PagesOf(Tail(rs[i], n)) <= Free(rs) && PagesOf(Tail(rs[i], n)) !! issued
  {
    hide Free, PagesOf;
    TakeTail(rs, i, n);
  }

  lemma TakeRest(rs: seq<Run>, issued: set<nat>, registered: set<nat>)
    requires Accounts(rs, issued, registered) && rs != [] && rs[0].count == 1
    ensures Accounts(rs[1..], issued + {rs[0].address}, registered) && rs[0].address in Free(rs)
    ensures rs[0].address !in issued
  {
    hide Free, PagesOf;
    TakeTail(rs, 0, 1);
    LastPage(rs[0]);
    var rs1 := rs[0 := Run(rs[0].address, 0)];
    DropEmpty(rs1);
    assert rs1[1..] == rs[1..];
  }

  /** What handing out the last page of the first run comes to. */
  lemma FirstRun(rs: seq<Run>, issued: set<nat>, registered: set<nat>)
    requires Accounts(rs, issued, registered) && rs != []
    ensures rs[0].count >= 1
    ensures var page := rs[0].End() - PAGE;
            && page in Free(rs) && page in registered && page !in issued && page % PAGE == 0
            && if rs[0].count == 1 then Accounts(rs[1..], issued + {page}, registered)
               else Accounts(rs[0 := Run(rs[0].address, rs[0].count - 1)], issued + {page}, registered)
  {
    hide Free, PagesOf;
    if rs[0].count == 1 {
      TakeRest(rs, issued, registered);
    } else {
      TakeSome(rs, 0, 1, issued, registered);
      LastPage(rs[0]);
    }
  }

  /** What `freepage_add_region` makes of its arguments, in 64-bit arithmetic: the length loses the
      bytes up to the next page boundary, or a whole page when the start is aligned. */
  function Usable(start: nat, length: nat): Run {
    Run((start + 4095) % WORD64 / PAGE * PAGE, (length - (PAGE - start % PAGE)) % WORD64 / PAGE)
  }

  /** The new list node stands for at least one page, all of them inside the region, if and only if the
      region holds a whole page behind the bytes given up. It counts the whole pages behind the first page
      boundary above the start, all of them, and begins at the first page boundary from the start on. */
  lemma UsableExactly(start: nat, length: nat)
    requires start + length <= WORD64 && length < WORD64
    ensures var r := Usable(start, length);
            (r.count >= 1 && start <= r.address && r.End() <= start + length) <==> length >= PAGE - start % PAGE + PAGE
    ensures length >= PAGE - start % PAGE + PAGE ==>
              var r, boundary := Usable(start, length), start + PAGE - start % PAGE;
              && r.address == (if start % PAGE == 0 then start else boundary)
              && boundary + PAGE * r.count <= start + length < boundary + PAGE * (r.count + 1)
  {
  }

  class Node {
    var address: nat
    var pagecount: nat
    var next: Node?

    constructor (address: nat, pagecount: nat, next: Node?)
      ensures this.address == address && this.pagecount == pagecount && this.next == next
    {
      this.address := address;
      this.pagecount := pagecount;
      this.next := next;
    }
  }

  class PageList {
    var head: Node?
    ghost var spine: seq<Node>        // the nodes from the head on
    ghost var runs: seq<Run>          // what they say
    ghost var registered: set<nat>    // every page of every region ever added
    ghost var issued: set<nat>        // every page ever handed out

    ghost function Repr(): set<object>
      reads this`spine
    {
      {this} + set n | n in spine :: n as object
    }

    ghost predicate Linked()
      reads this`head, this`spine, this`runs, spine
    {
      && head == (if spine == [] then null else spine[0])
      && (forall i, j :: 0 <= i < j < |spine| ==> spine[i] != spine[j])
      && (forall i, j :: 0 <= i < |spine| && j == i + 1 && j < |spine| ==> spine[i].next == spine[j])
      && (spine != [] ==> spine[|spine| - 1].next == null)
      && |runs| == |spine|
      && forall i :: 0 <= i < |spine| ==> spine[i].address == runs[i].address && spine[i].pagecount == runs[i].count
    }

    /** Free pages and issued pages partition the registered ones. */
    ghost predicate Valid()
      reads this, spine
    {
      Linked() && Accounts(runs, issued, registered)
    }

    constructor ()
      ensures Valid() && runs == [] && registered == {} && issued == {}
      ensures fresh(Repr())
    {
      head := null;
      spine, runs, registered, issued := [], [], {}, {};
    }

    /** While fewer pages were handed out than registered, the list is not empty. */
    lemma HasPages()
      requires Valid() && |issued| < |registered|
      ensures spine != []
    {
    }

    lemma Enough(n: nat)
      requires Valid() && TotalFree(runs) >= n
      ensures |issued| + n <= |registered|
    {
      hide Free;
      Conserved(runs, issued, registered);
    }

    /** `freepage_get`; the list must not be empty. */
    method Get() returns (page: nat)
      requires Valid() && spine != []
      modifies this, spine
      ensures Valid() && registered == old(registered) && forall i :: 0 <= i < |spine| ==> spine[i] in old(spine)
      ensures page in Free(old(runs)) && page in registered && page !in old(issued) && issued == old(issued) + {page}
      ensures page % PAGE == 0 && page == old(runs)[0].End() - PAGE
      ensures runs == Shortened(old(runs), 0, 1)
    {
      hide Free, PagesOf, Accounts, Shortened;
      var c := head;
      ghost var rs, sp := runs, spine;
      FirstRun(rs, issued, registered);
      FirstShortened(rs);
      c.pagecount := c.pagecount - 1;
      page := c.address + 4096 * c.pagecount;
      issued := issued + {page};
      if c.pagecount == 0 {
        head := c.next;
        spine, runs := spine[1..], rs[1..];
        assert forall k :: 0 <= k < |spine| ==> spine[k] == sp[k + 1];
      } else {
        runs := rs[0 := Run(rs[0].address, rs[0].count - 1)];
      }
    }

    /** `freepage_get_range`: the first node that keeps at least one page serves the request; 0 means that
        no node does, and is never the address of pages handed out. */
    method GetRange(pagecount: nat) returns (address: nat)
      requires Valid()
      modifies spine, this`runs, this`issued
      ensures Valid() && registered == old(registered) && Repr() == old(Repr())
      ensures address == 0 <==> forall r :: r in old(runs) ==> r.count <= pagecount
      ensures address == 0 ==> runs == old(runs) && issued == old(issued)
      ensures address != 0 ==>
                && address % PAGE == 0
                && PagesOf(Run(address, pagecount)) <= Free(old(runs))
                && PagesOf(Run(address, pagecount)) !! old(issued)
                && issued == old(issued) + PagesOf(Run(address, pagecount))
                && exists i: nat :: ServedBy(old(runs), i, pagecount)
                     && address == old(runs)[i].End() - PAGE * pagecount && runs == Shortened(old(runs), i, pagecount)
    {
      hide Free, PagesOf, Accounts;
      var c := head;
      ghost var i: nat, rs := 0, runs;
      while c != null && c.pagecount <= pagecount
        invariant i <= |spine| && c == if i < |spine| then spine[i] else null
        invariant forall k :: 0 <= k < i ==> rs[k].count <= pagecount
        decreases |spine| - i
      {
        c := c.next;
        i := i + 1;
      }
      if c == null { return 0; }
      assert rs[i] in rs;
      assert ServedBy(rs, i, pagecount);
      address := TakeFrom(c, pagecount, i);
    }

    /** The last `pagecount` pages of the node that keeps at least one. */
    method TakeFrom(c: Node, pagecount: nat, ghost i: nat) returns (address: nat)
      requires Valid() && i < |spine| && c == spine[i] && c.pagecount > pagecount
      modifies c, this`runs, this`issued
      ensures Valid()
      ensures address != 0 && address % PAGE == 0
      ensures PagesOf(Run(address, pagecount)) <= Free(old(runs)) && PagesOf(Run(address, pagecount)) !! old(issued)
      ensures issued == old(issued) + PagesOf(Run(address, pagecount))
      ensures address == old(runs)[i].End() - PAGE * pagecount && runs == Shortened(old(runs), i, pagecount)
    {
      hide Free, PagesOf, Accounts;
      ghost var rs := runs;
      TakeSome(rs, i, pagecount, issued, registered);
      AccountsAligned(rs, issued, registered, i);
      c.pagecount := c.pagecount - pagecount;
      address := c.address + 4096 * c.pagecount;
      assert Run(address, pagecount) == Tail(rs[i], pagecount);
      issued := issued + PagesOf(Tail(rs[i], pagecount));
      runs := rs[i := Run(rs[i].address, rs[i].count - pagecount)];
    }

    /** `freepage_add_region`, for a region that holds a usable page and none already registered. */
    method AddRegion(start: nat, length: nat)
      requires Valid()
      requires start + length <= WORD64 && length < WORD64 && length >= PAGE - start % PAGE + PAGE
      requires PagesOf(Usable(start, length)) !! registered
      requires forall r :: r in runs ==> RunsApart(Usable(start, length), r)
      modifies this
      ensures Valid() && issued == old(issued) && fresh(Repr() - old(Repr()))
      ensures runs == [Usable(start, length)] + old(runs)
      ensures registered == old(registered) + PagesOf(Usable(start, length))
      ensures forall p :: p in registered - old(registered) ==>
              start <= p && p + PAGE <= start + length && p % PAGE == 0
    {
      hide Free, PagesOf, Accounts, Usable;
      UsableExactly(start, length);
      UsableAligned(start, length);
      ghost var r, rs, sp := Usable(start, length), runs, spine;
      PagesInside(r);
      AddAccounts(r, rs, issued, registered);
      var cut := PAGE - start % PAGE;
      var c := new Node((start + 4095) % WORD64 / PAGE * PAGE, (length - cut) % WORD64 / PAGE, head);
      head := c;
      spine, runs := [c] + spine, [r] + runs;
      registered := registered + PagesOf(r);
      UsableIs(start, length);
      assert forall k :: 1 <= k < |spine| ==> spine[k] == sp[k - 1];
    }
  }

  lemma UsableIs(start: nat, length: nat)
    requires length >= PAGE - start % PAGE
    ensures Usable(start, length)
         == Run((start + 4095) % WORD64 / PAGE * PAGE, (length - (PAGE - start % PAGE)) % WORD64 / PAGE)
  {
  }

  lemma UsableAligned(start: nat, length: nat)
    ensures Usable(start, length).address % PAGE == 0
  {
  }

  lemma AccountsAligned(rs: seq<Run>, issued: set<nat>, registered: set<nat>, i: nat)
    requires Accounts(rs, issued, registered) && i < |rs|
    ensures rs[i].address % PAGE == 0
  {
  }

  lemma AddAccounts(r: Run, rs: seq<Run>, issued: set<nat>, registered: set<nat>)
    requires Accounts(rs, issued, registered)
    requires r.count >= 1 && r.address % PAGE == 0 && PagesOf(r) !! registered
    requires forall s :: s in rs ==> RunsApart(r, s)
    ensures Accounts([r] + rs, issued, registered + PagesOf(r))
  {
    hide Free, PagesOf;
    Prepend(r, rs);
  }

  // ---------------------------------------------------------------- counting

  function TotalFree(rs: seq<Run>): nat {
    if rs == [] then 0 else TotalFree(rs[..|rs| - 1]) + rs[|rs| - 1].count
  }

  lemma {:induction false} PagesCount(r: Run)
    ensures |PagesOf(r)| == r.count
    decreases r.count
  {
    if r.count == 0 {
      assert PagesOf(r) == {};
    } else {
      PagesSplit(r, 1);
      LastPage(r);
      PagesCount(Run(r.address, r.count - 1));
    }
  }

  lemma {:induction false} FreeCount(rs: seq<Run>)
    requires ValidRuns(rs)
    ensures |Free(rs)| == TotalFree(rs)
    decreases |rs|
  {
    hide Free, PagesOf, RunsApart;
    if rs == [] {
      NoneFree();
    } else {
      var n := |rs| - 1;
      assert ValidRuns(rs[..n]);
      FreeCount(rs[..n]);
      PagesCount(rs[n]);
      FreeLast(rs);
      LastApart(rs);
    }
  }

  lemma NoneFree()
    ensures Free([]) == {}
  {
  }

  lemma LastApart(rs: seq<Run>)
    requires ValidRuns(rs) && rs != []
    ensures Free(rs[..|rs| - 1]) !! PagesOf(rs[|rs| - 1])
  {
  }

  lemma FreeLast(rs: seq<Run>)
    requires rs != []
    ensures Free(rs) == Free(rs[..|rs| - 1]) + PagesOf(rs[|rs| - 1])
  {
  }

  /** Pages are conserved: those in the list and those handed out add up to those registered. */
  lemma Conserved(rs: seq<Run>, issued: set<nat>, registered: set<nat>)
    requires Accounts(rs, issued, registered)
    ensures TotalFree(rs) + |issued| == |registered|
  {
    hide Free;
    FreeCount(rs);
  }

  lemma LastPage(r: Run)
    requires r.count >= 1
    ensures PagesOf(Tail(r, 1)) == {r.End() - PAGE}
  {
    assert NthPage(Tail(r, 1), 0) == r.End() - PAGE;
    assert PagesOf(Tail(r, 1)) == {NthPage(Tail(r, 1), 0)};
  }
}
