/** Keys that are given out in turn and come round again: the command ids of an NVMe disk, which repeat after 512
    commands (kernel/src/pci/nvme.cpp), and the slot addresses of a USB endpoint's ring, which repeat after the
    255 requests of a lap (kernel/src/usb/xhci.cpp). A key is taken again whether or not the request that had
    it has been answered. */
module KeySeries {
  import opened Numbers
  import opened Pending

  type pos = n: nat | n > 0 witness 1

  /** The keys `base`, `base + stride`, ... of which there are `period`. */
  datatype Series = Series(base: nat, stride: pos, period: pos) {
    predicate Has(key: nat) { base <= key < base + stride * period }

    /** The key of request number `n`. */
    function Nth(n: nat): nat { base + stride * (n % period) }
  }

  lemma NthIsInTurn(r: Series, m: nat, n: nat)
    ensures r.Has(r.Nth(n))
    ensures r.Nth(m) == r.Nth(n) <==> m % r.period == n % r.period
  {
    var d, d' := m % r.period, n % r.period;
    assert r.stride * d' < r.stride * r.period;
    if d < d' { assert r.stride * d < r.stride * d'; }
    if d' < d { assert r.stride * d' < r.stride * d; }
  }

  /** A request whose key is of the series. */
  predicate Mine<V>(e: Event<nat, V>, r: Series) { e.Issued? && r.Has(e.key) }

  /** The keys of the series under which requests were issued, in order. */
  function Keys<V>(es: seq<Event<nat, V>>, r: Series): seq<nat> {
    if es == [] then []
    else
      var n := |es| - 1;
      Keys(es[..n], r) + if Mine(es[n], r) then [es[n].key] else []
  }

  /** How many of them were issued before event `n`. */
  function Before<V>(es: seq<Event<nat, V>>, r: Series, n: nat): nat
    requires n <= |es|
  {
    |Keys(es[..n], r)|
  }

  /** Every request of the series has the key that its number gives. */
  ghost predicate InTurn<V>(es: seq<Event<nat, V>>, r: Series) {
    forall i: nat :: i < |es| && Mine(es[i], r) ==> es[i].key == r.Nth(Before(es, r, i))
  }

  /** At event `n` the promise of event `j` still waits. */
  ghost predicate Waits<V>(es: seq<Event<nat, V>>, n: nat, j: nat)
    requires n <= |es|
  {
    exists w :: w in Play(es[..n]).waiting && w.promise == j
  }

  /** Event `i` issues the request of the series one period after that of event `j`. */
  predicate SameKey<V>(es: seq<Event<nat, V>>, r: Series, j: nat, i: nat) {
    j < i < |es| && Mine(es[j], r) && Mine(es[i], r) && Before(es, r, i) == Before(es, r, j) + r.period
  }

  /** No request was issued while the one a period before it was still waiting. */
  ghost predicate Freed<V>(es: seq<Event<nat, V>>, r: Series) {
    forall j: nat, i: nat :: SameKey(es, r, j, i) ==> !Waits(es, i, j)
  }

  /** No request is issued under a key of the series that is still waiting. */
  ghost predicate Unshared<V>(es: seq<Event<nat, V>>, r: Series) {
    forall i :: 0 <= i < |es| && Mine(es[i], r) ==> !WaitsUnder(Play(es[..i]).waiting, es[i].key)
  }

  lemma NoneBefore<V>(es: seq<Event<nat, V>>, r: Series)
    ensures Before(es, r, 0) == 0
  {
  }

  lemma BeforeSteps<V>(es: seq<Event<nat, V>>, r: Series, n: nat)
    requires n < |es|
    ensures Before(es, r, n + 1) == Before(es, r, n) + if Mine(es[n], r) then 1 else 0
  {
    assert es[..n + 1][..n] == es[..n];
  }

  lemma {:induction false} BeforeGrows<V>(es: seq<Event<nat, V>>, r: Series, i: nat, j: nat)
    requires i <= j <= |es|
    ensures Before(es, r, i) <= Before(es, r, j)
    ensures i < j && Mine(es[i], r) ==> Before(es, r, i) < Before(es, r, j)
    decreases j
  {
    hide Before, Mine;
    if i < j {
      BeforeGrows(es, r, i, j - 1);
      BeforeSteps(es, r, j - 1);
    }
  }

  /** The request with a given number. */
  lemma {:induction false} Numbered<V>(es: seq<Event<nat, V>>, r: Series, n: nat, c: nat) returns (i: nat)
    requires n <= |es| && c < Before(es, r, n)
    ensures i < n && Mine(es[i], r) && Before(es, r, i) == c
    decreases n
  {
    NoneBefore(es, r);
    hide Before, Mine;
    i := n;
    if n > 0 {
      BeforeSteps(es, r, n - 1);
      if c < Before(es, r, n - 1) { i := Numbered(es, r, n - 1, c); } else { i := n - 1; }
    }
  }

  /** A promise waits under the key it was issued under. */
  lemma {:induction false} WaitsUnderOwnKey<V>(es: seq<Event<nat, V>>)
    ensures forall w :: w in Play(es).waiting ==> w.promise < |es| && es[w.promise] == Issued(w.key)
    decreases |es|
  {
    if es != [] {
      var n := |es| - 1;
      WaitsUnderOwnKey(es[..n]);
      RemovesOnly(Play(es[..n]), n, es[n]);
    }
  }

  /** An event leaves no promise waiting but those that waited and its own. */
  lemma RemovesOnly<V>(b: Board<nat, V>, n: nat, e: Event<nat, V>)
    ensures forall w :: w in Apply(b, n, e).waiting ==> w in b.waiting || (e == Issued(w.key) && w.promise == n)
  {
  }

  /** What waits late has waited all the time since it was issued. */
  lemma {:induction false} WaitedBefore<V>(es: seq<Event<nat, V>>, m: nat, n: nat, j: nat)
    requires j < m <= n <= |es| && Waits(es, n, j)
    ensures Waits(es, m, j)
    decreases n
  {
    if m < n {
      assert es[..n][..n - 1] == es[..n - 1];
      RemovesOnly(Play(es[..n - 1]), n - 1, es[n - 1]);
      hide Play;
      var w :| w in Play(es[..n]).waiting && w.promise == j;
      assert w in Play(es[..n - 1]).waiting by { LastEvent(es, n); }
      WaitedBefore(es, m, n - 1, j);
    }
  }

  lemma LastEvent<V>(es: seq<Event<nat, V>>, n: nat)
    requires 0 < n <= |es|
    ensures Play(es[..n]) == Apply(Play(es[..n - 1]), n - 1, es[n - 1])
  {
    assert es[..n][..n - 1] == es[..n - 1];
  }

  /** Two numbers with the same remainder are a whole divisor apart. */
  lemma SameRemainder(a: nat, b: nat, p: pos)
    requires a < b && a % p == b % p
    ensures a + p <= b
  {
    Split(a, p, a / p, a % p);
    Split(b, p, b / p, b % p);
    if b / p <= a / p { Times(b / p, a / p, p); } else { Times(a / p + 1, b / p, p); }
  }

  /** Keys of a series are unique among the waiting exactly if the request a period before is never still
      waiting. */
  lemma UniqueExactly<V>(es: seq<Event<nat, V>>, r: Series)
    requires InTurn(es, r)
    ensures Unshared(es, r) <==> Freed(es, r)
  {
    hide Play, Before, Series.Nth, Series.Has;
    if Unshared(es, r) {
      forall j: nat, i: nat | SameKey(es, r, j, i) ensures !Waits(es, i, j) {
        WaitsUnderOwnKey(es[..i]);
        NthIsInTurn(r, Before(es, r, i), Before(es, r, j));
        DivModAdd(Before(es, r, j), 1, r.period);
        assert es[j].key == es[i].key;
      }
    } else {
      var i :| 0 <= i < |es| && Mine(es[i], r) && WaitsUnder(Play(es[..i]).waiting, es[i].key);
      WaitsUnderOwnKey(es[..i]);
      var w :| w in Play(es[..i]).waiting && w.key == es[i].key;
      var j := w.promise;
      assert Waits(es, i, j);
      BeforeGrows(es, r, j, i);
      NthIsInTurn(r, Before(es, r, i), Before(es, r, j));
      SameRemainder(Before(es, r, j), Before(es, r, i), r.period);
      var i' := i;
      if Before(es, r, i) > Before(es, r, j) + r.period { i' := Numbered(es, r, i, Before(es, r, j) + r.period); }
      if i' <= j { BeforeGrows(es, r, i', j); }
      WaitedBefore(es, i', i, j);
      assert SameKey(es, r, j, i');
    }
  }

  /** Every request has a key of one of the series. */
  ghost predicate Covered<V>(es: seq<Event<nat, V>>, rs: set<Series>) {
    forall i :: 0 <= i < |es| && es[i].Issued? ==> exists r :: r in rs && Mine(es[i], r)
  }

  /** When all keys come from series, for instance from the rings of several endpoints, no key is ever shared
      exactly if every series keeps its own apart. */
  lemma AllUniqueExactly<V>(es: seq<Event<nat, V>>, rs: set<Series>)
    requires Covered(es, rs) && forall r :: r in rs ==> InTurn(es, r)
    ensures UnsharedKeys(es) <==> forall r :: r in rs ==> Freed(es, r)
  {
    hide InTurn, Freed, Play;
    forall r | r in rs ensures Unshared(es, r) <==> Freed(es, r) {
      UniqueExactly(es, r);
    }
  }

  /** The condition, request by request: it is kept by issuing one exactly if the one a period before has been
      answered. */
  lemma FreedOn<V>(es: seq<Event<nat, V>>, r: Series, key: nat)
    requires r.Has(key)
    ensures Freed(es + [Issued(key)], r) <==>
            && Freed(es, r)
            && forall j: nat :: j < |es| && Mine(es[j], r) && Before(es, r, |es|) == Before(es, r, j) + r.period ==>
                 !Waits(es, |es|, j)
  {
    hide Play, Series.Has;
    var es' := es + [Issued(key)];
    assert forall n: nat :: n <= |es| ==> es'[..n] == es[..n];
    assert forall j: nat, i: nat :: i < |es| ==> SameKey(es', r, j, i) == SameKey(es, r, j, i);
    assert forall j: nat :: j < |es| ==> es'[j] == es[j];
    if Freed(es', r) {
      forall j: nat |
        j < |es| && Mine(es[j], r) && Before(es, r, |es|) == Before(es, r, j) + r.period
        ensures !Waits(es, |es|, j)
      {
        assert SameKey(es', r, j, |es|);
        assert !Waits(es', |es|, j);
      }
      forall j: nat, i: nat | SameKey(es, r, j, i) ensures !Waits(es, i, j) {
        assert SameKey(es', r, j, i) && !Waits(es', i, j);
      }
    }
  }

  /** Requests that are all issued before any is answered, like the commands of a single long read, have
      different keys exactly up to one period of them. */
  lemma UnansweredExactly<V>(es: seq<Event<nat, V>>, r: Series)
    requires InTurn(es, r) && forall i :: 0 <= i < |es| ==> Mine(es[i], r)
    ensures Unshared(es, r) <==> |es| <= r.period
  {
    hide Play, Mine;
    forall n: nat | n <= |es| ensures Before(es, r, n) == n {
      AllCounted(es, r, n);
    }
    UniqueExactly(es, r);
    if |es| > r.period {
      AllWait(es, r, r.period, 0);
      assert SameKey(es, r, 0, r.period);
    }
  }

  lemma {:induction false} AllCounted<V>(es: seq<Event<nat, V>>, r: Series, n: nat)
    requires n <= |es| && forall i :: 0 <= i < |es| ==> Mine(es[i], r)
    ensures Before(es, r, n) == n
    decreases n
  {
    NoneBefore(es, r);
    if n > 0 {
      hide Before, Mine;
      AllCounted(es, r, n - 1);
      BeforeSteps(es, r, n - 1);
    }
  }

  lemma {:induction false} AllWait<V>(es: seq<Event<nat, V>>, r: Series, n: nat, j: nat)
    requires j < n <= |es| && forall i :: 0 <= i < |es| ==> Mine(es[i], r)
    ensures Waits(es, n, j)
    decreases n
  {
    hide Series.Has;
    assert Mine(es[n - 1], r);
    LastEvent(es, n);
    var ws := Play(es[..n - 1]).waiting + [Waiting(es[n - 1].key, n - 1)];
    hide Play;
    assert ws == Play(es[..n]).waiting;
    if j == n - 1 {
      assert ws[|ws| - 1] in ws;
    } else {
      AllWait(es, r, n - 1, j);
      var w :| w in Play(es[..n - 1]).waiting && w.promise == j;
      assert w in ws;
    }
  }

  /** The series goes on with the key of the next number, and with any other event. */
  lemma KeysOn<V>(es: seq<Event<nat, V>>, r: Series, e: Event<nat, V>)
    requires InTurn(es, r) && (Mine(e, r) ==> e.key == r.Nth(|Keys(es, r)|))
    ensures InTurn(es + [e], r)
    ensures Keys(es + [e], r) == Keys(es, r) + if Mine(e, r) then [e.key] else []
  {
    hide Series.Has, Series.Nth;
    var es' := es + [e];
    assert forall n: nat :: n <= |es| ==> es'[..n] == es[..n];
    assert es[..|es|] == es;
  }

  lemma CoveredOn<V>(es: seq<Event<nat, V>>, rs: set<Series>, e: Event<nat, V>)
    requires Covered(es, rs) && (e.Issued? ==> exists r :: r in rs && Mine(e, r))
    ensures Covered(es + [e], rs)
  {
  }
}
