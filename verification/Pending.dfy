/** Waiting for a device: every issued request leaves a promise in a list under a key, the address of
    its ring slot (xhci) or its command id (nvme); a completion carrying the key sets the promise and
    removes it by moving the last element into its place. A promise that has been set is modelled by
    its value in a map. */
module Pending {
  import opened Vectors

  datatype Waiting<K> = Waiting(key: K, promise: nat)

  /** The handlers' search: the first element with the key, or the length. */
  function Find<K(==)>(ws: seq<Waiting<K>>, key: K, n: nat): (r: nat)
    requires n <= |ws|
    ensures n <= r <= |ws|
    ensures r < |ws| ==> ws[r].key == key
    ensures forall k :: n <= k < r ==> ws[k].key != key
    decreases |ws| - n
  {
    if n == |ws| || ws[n].key == key then n else Find(ws, key, n + 1)
  }

  /** The list of waiting promises and the values of those that have been set. */
  datatype Board<K, V> = Board(waiting: seq<Waiting<K>>, done: map<nat, V>)

  class Dispatcher<K(==), V> {
    var waiting: seq<Waiting<K>>
    var done: map<nat, V>

    constructor ()
      ensures State() == Board([], map[])
    {
      waiting := [];
      done := map[];
    }

    ghost function State(): Board<K, V>
      reads this
    {
      Board(waiting, done)
    }

    /** `RegisterStatus`, and the end of `RunCommand` */
    method Register(key: K, promise: nat)
      modifies this
      ensures State() == Issue(old(State()), key, promise)
    {
      waiting := waiting + [Waiting(key, promise)];
    }

    /** The loop of both interrupt handlers. */
    method Complete(key: K, value: V)
      modifies this
      ensures State() == Settle(old(State()), key, value)
    {
      var n := 0;
      while n < |waiting|
        invariant n <= |waiting| && State() == old(State())
        invariant Find(waiting, key, 0) == Find(waiting, key, n)
      {
        if waiting[n].key == key {
          done := done[waiting[n].promise := value];
          waiting := waiting[n := waiting[|waiting| - 1]];
          waiting := waiting[..|waiting| - 1];
          return;
        }
        n := n + 1;
      }
    }
  }

  function Issue<K, V>(b: Board<K, V>, key: K, promise: nat): Board<K, V> {
    b.(waiting := b.waiting + [Waiting(key, promise)])
  }

  function Settle<K(==), V>(b: Board<K, V>, key: K, value: V): Board<K, V> {
    var n := Find(b.waiting, key, 0);
    if n == |b.waiting| then b
    else Board(Remove(b.waiting, n), b.done[b.waiting[n].promise := value])
  }

  /** Element `k` is the first one that waits under the key. */
  ghost predicate FirstWaiting<K>(ws: seq<Waiting<K>>, key: K, k: nat) {
    k < |ws| && ws[k].key == key && forall j :: 0 <= j < k ==> ws[j].key != key
  }

  /** The first one waiting under the key gets the value and leaves; nobody else does. */
  lemma SettlesFirst<K, V>(b: Board<K, V>, key: K, value: V)
    ensures forall k: nat :: FirstWaiting(b.waiting, key, k) ==>
              && Settle(b, key, value).done == b.done[b.waiting[k].promise := value]
              && multiset(Settle(b, key, value).waiting) == multiset(b.waiting) - multiset{b.waiting[k]}
    ensures !WaitsUnder(b.waiting, key) ==> Settle(b, key, value) == b
  {
    hide Remove, Find;
    var f := Find(b.waiting, key, 0);
    if f < |b.waiting| {
      RemoveLosesOne(b.waiting, f);
      assert b.waiting[f] in b.waiting;
    }
    forall k: nat | FirstWaiting(b.waiting, key, k) ensures k == f {
    }
  }

  // ---------------------------------------------------------------- histories

  function AnswerOf<K, V>(e: Event<K, V>): seq<(K, V)> {
    match e
    case Issued(_) => []
    case Completed(key, value) => [(key, value)]
  }

  /** The completions of a history, in order. */
  function Answers<K, V>(es: seq<Event<K, V>>): seq<(K, V)> {
    if es == [] then []
    else
      var n := |es| - 1;
      Answers(es[..n]) + AnswerOf(es[n])
  }

  /** What happens to a board. Promise `i` is the one issued by event number `i`. */
  datatype Event<K, V> = Issued(key: K) | Completed(key: K, value: V)

  /** The effect of event number `n`. */
  function Apply<K(==), V>(b: Board<K, V>, n: nat, e: Event<K, V>): Board<K, V> {
    match e
    case Issued(key) => Issue(b, key, n)
    case Completed(key, value) => Settle(b, key, value)
  }

  function Play<K(==), V>(es: seq<Event<K, V>>): Board<K, V> {
    if es == [] then Board([], map[])
    else
      var n := |es| - 1;
      Apply(Play(es[..n]), n, es[n])
  }

  lemma PlayOn<K, V>(es: seq<Event<K, V>>, e: Event<K, V>)
    ensures Play(es + [e]) == Apply(Play(es), |es|, e)
    ensures Answers(es + [e]) == Answers(es) + AnswerOf(e)
  {
  }

  predicate WaitsUnder<K(==)>(ws: seq<Waiting<K>>, key: K) { exists w :: w in ws && w.key == key }

  /** No request is issued under a key that is still waiting. Completions come in any order, and also
      for keys nobody waits for. */
  ghost predicate UnsharedKeys<K, V>(es: seq<Event<K, V>>) {
    forall i :: 0 <= i < |es| && es[i].Issued? ==> !WaitsUnder(Play(es[..i]).waiting, es[i].key)
  }

  /** Event `c` is the first completion after event `i` that carries the key of request `i`. */
  ghost predicate FirstAnswer<K, V>(es: seq<Event<K, V>>, i: nat, c: nat) {
    && i < c < |es| && es[i].Issued? && es[c].Completed? && es[c].key == es[i].key
    && forall d :: i < d < c && es[d].Completed? ==> es[d].key != es[i].key
  }

  ghost predicate Answered<K, V>(es: seq<Event<K, V>>, i: nat) { exists c: nat :: FirstAnswer(es, i, c) }

  /** The board tells the truth about request `i`: it waits, under its own key, or it was set to the
      value of the first completion carrying that key. */
  ghost predicate Truthful<K, V>(es: seq<Event<K, V>>, b: Board<K, V>, i: nat)
    requires i < |es| && es[i].Issued?
  {
    if Answered(es, i) then
      && i in b.done && (forall c: nat :: FirstAnswer(es, i, c) ==> b.done[i] == es[c].value)
      && forall w :: w in b.waiting ==> w.promise != i
    else
      && i !in b.done && Waiting(es[i].key, i) in b.waiting
  }

  ghost predicate DistinctWaiting<K>(ws: seq<Waiting<K>>) {
    forall m, n :: 0 <= m < n < |ws| ==> ws[m].key != ws[n].key && ws[m].promise != ws[n].promise
  }

  ghost predicate Sound<K, V>(es: seq<Event<K, V>>, b: Board<K, V>) {
    && DistinctWaiting(b.waiting)
    && (forall w :: w in b.waiting ==> w.promise < |es| && es[w.promise] == Issued(w.key))
    && (forall i :: i in b.done ==> i < |es| && es[i].Issued?)
    && forall i :: 0 <= i < |es| && es[i].Issued? ==> Truthful(es, b, i)
  }

  /** Whether a request has been answered changes only by a completion carrying its key. */
  lemma AnswersGrow<K, V>(es: seq<Event<K, V>>, e: Event<K, V>, i: nat)
    requires i < |es| && es[i].Issued?
    ensures Answered(es + [e], i) <==> Answered(es, i) || (e.Completed? && e.key == es[i].key)
    ensures Answered(es, i) ==> forall c: nat :: FirstAnswer(es + [e], i, c) <==> FirstAnswer(es, i, c)
    ensures !Answered(es, i) ==> forall c: nat :: FirstAnswer(es + [e], i, c) ==> c == |es|
  {
    var es' := es + [e];
    assert forall d :: 0 <= d < |es| ==> es'[d] == es[d];
    forall c: nat | FirstAnswer(es, i, c) ensures FirstAnswer(es', i, c) {}
    forall c: nat | FirstAnswer(es', i, c) && c < |es| ensures FirstAnswer(es, i, c) {}
    if c: nat :| FirstAnswer(es, i, c) {
      assert es'[c].Completed? && es'[c].key == es'[i].key;
      forall c': nat | FirstAnswer(es', i, c') ensures FirstAnswer(es, i, c') {}
    } else if e.Completed? && e.key == es[i].key {
      NoneEarlier(es, i);
      assert FirstAnswer(es', i, |es|);
    }
  }

  /** An unanswered request has seen no completion with its key. */
  lemma NoneEarlier<K, V>(es: seq<Event<K, V>>, i: nat)
    requires i < |es| && es[i].Issued? && !Answered(es, i)
    ensures forall d :: i < d < |es| && es[d].Completed? ==> es[d].key != es[i].key
  {
    if d: nat :| i < d < |es| && es[d].Completed? && es[d].key == es[i].key {
      var c := EarliestAnswer(es, i, d);
    }
  }

  lemma EarliestAnswer<K, V>(es: seq<Event<K, V>>, i: nat, d: nat) returns (c: nat)
    requires i < d < |es| && es[i].Issued? && es[d].Completed? && es[d].key == es[i].key
    ensures FirstAnswer(es, i, c)
    decreases d
  {
    if e: nat :| i < e < d && es[e].Completed? && es[e].key == es[i].key {
      c := EarliestAnswer(es, i, e);
    } else {
      c := d;
    }
  }

  lemma IssueSound<K, V>(es: seq<Event<K, V>>, b: Board<K, V>, key: K)
    requires Sound(es, b) && !WaitsUnder(b.waiting, key)
    ensures Sound(es + [Issued(key)], Issue(b, key, |es|))
  {
    var es', b' := es + [Issued(key)], Issue(b, key, |es|);
    forall i: nat | i < |es'| && es'[i].Issued? ensures Truthful(es', b', i) {
      if i < |es| {
        AnswersGrow(es, Issued(key), i);
        assert Truthful(es, b, i);
      }
    }
  }

  lemma SettleSound<K, V>(es: seq<Event<K, V>>, b: Board<K, V>, key: K, value: V)
    requires Sound(es, b)
    ensures Sound(es + [Completed(key, value)], Settle(b, key, value))
  {
    var e := Completed(key, value);
    var es', b' := es + [e], Settle(b, key, value);
    var n := Find(b.waiting, key, 0);
    if n < |b.waiting| { RemoveMembers(b.waiting, n); }
    forall i: nat | i < |es'| && es'[i].Issued? ensures Truthful(es', b', i) {
      AnswersGrow(es, e, i);
      assert Truthful(es, b, i);
    }
  }

  lemma RemoveMembers<K>(ws: seq<Waiting<K>>, n: nat)
    requires n < |ws| && DistinctWaiting(ws)
    ensures DistinctWaiting(Remove(ws, n))
    ensures forall w :: w in Remove(ws, n) <==> w in ws && w != ws[n]
  {
    var r := Remove(ws, n);
    forall w | w in ws && w != ws[n] ensures w in r {
      var k :| 0 <= k < |ws| && ws[k] == w;
      assert w == if k == |ws| - 1 then r[n] else r[k];
    }
    forall w | w in r ensures w in ws && w != ws[n] {
      var k :| 0 <= k < |r| && r[k] == w;
      assert w == if k == n then ws[|ws| - 1] else ws[k];
    }
  }

  lemma UniquePrefix<K, V>(es: seq<Event<K, V>>, n: nat)
    requires UnsharedKeys(es) && n <= |es|
    ensures UnsharedKeys(es[..n])
  {
    assert forall i :: 0 <= i < n ==> es[..n][..i] == es[..i];
  }

  lemma LastPlayed<K, V>(es: seq<Event<K, V>>, n: nat)
    requires |es| == n + 1
    ensures es == es[..n] + [es[n]] && Play(es) == Apply(Play(es[..n]), n, es[n])
  {
  }

  lemma LastIsUnshared<K, V>(es: seq<Event<K, V>>, n: nat)
    requires UnsharedKeys(es) && |es| == n + 1 && es[n].Issued?
    ensures !WaitsUnder(Play(es[..n]).waiting, es[n].key)
  {
  }

  /** Whatever the order of completions: every request is set exactly once, to the value of the first
      completion that carries its key, and until then it waits. */
  lemma {:induction false} ExactlyOnce<K, V>(es: seq<Event<K, V>>)
    requires UnsharedKeys(es)
    ensures Sound(es, Play(es))
    decreases |es|
  {
    if es != [] {
      hide Sound, Play, UnsharedKeys, Issue, Settle;
      var n := |es| - 1;
      UniquePrefix(es, n);
      ExactlyOnce(es[..n]);
      LastPlayed(es, n);
      match es[n] {
        case Issued(key) =>
          LastIsUnshared(es, n);
          IssueSound(es[..n], Play(es[..n]), key);
        case Completed(key, value) =>
          SettleSound(es[..n], Play(es[..n]), key, value);
      }
    }
  }

  /** A completion never sets a promise that has a value already. */
  lemma NeverSetTwice<K, V>(es: seq<Event<K, V>>, key: K)
    requires UnsharedKeys(es) && Find(Play(es).waiting, key, 0) < |Play(es).waiting|
    ensures Play(es).waiting[Find(Play(es).waiting, key, 0)].promise !in Play(es).done
  {
    ExactlyOnce(es);
    var b := Play(es);
    var w := b.waiting[Find(b.waiting, key, 0)];
    assert w in b.waiting;
    assert Truthful(es, b, w.promise);
  }

  /** The board tells the truth about every request. */
  ghost predicate AllTruthful<K, V>(es: seq<Event<K, V>>) {
    forall i: nat :: i < |es| && es[i].Issued? ==> Truthful(es, Play(es), i)
  }

  /** At every moment, an answer to any request issued by then leaves all requests truthfully set or waiting. */
  ghost predicate Routes<K, V>(es: seq<Event<K, V>>, answer: V) {
    forall n: nat, i: nat :: i < n <= |es| && es[i].Issued? ==> AllTruthful(AnsweredAt(es, n, i, answer))
  }

  /** The history up to event `n`, then a completion that carries the key of request `i`. */
  function AnsweredAt<K, V>(es: seq<Event<K, V>>, n: nat, i: nat, answer: V): seq<Event<K, V>>
    requires i < n <= |es| && es[i].Issued?
  {
    es[..n] + [Completed(es[i].key, answer)]
  }

  lemma UniqueThenAnswer<K, V>(es: seq<Event<K, V>>, key: K, answer: V)
    requires UnsharedKeys(es)
    ensures UnsharedKeys(es + [Completed(key, answer)])
  {
    var es' := es + [Completed(key, answer)];
    assert forall i :: 0 <= i <= |es| ==> es'[..i] == es[..i];
  }

  /** The first request issued under a key that still waits, if there is one. */
  lemma {:induction false} FirstClash<K, V>(es: seq<Event<K, V>>) returns (i: nat)
    requires !UnsharedKeys(es)
    ensures i < |es| && es[i].Issued? && WaitsUnder(Play(es[..i]).waiting, es[i].key) && UnsharedKeys(es[..i])
    decreases |es|
  {
    var n := |es| - 1;
    assert forall j :: 0 <= j < n ==> es[..n][..j] == es[..j] && es[..n][j] == es[j];
    if UnsharedKeys(es[..n]) {
      i := n;
    } else {
      i := FirstClash(es[..n]);
    }
  }

  /** After a clash, an answer under the shared key settles the older request; the newer one keeps waiting,
      although the answer carried its key. */
  lemma ClashMisleads<K, V>(es: seq<Event<K, V>>, key: K, answer: V)
    requires UnsharedKeys(es) && WaitsUnder(Play(es).waiting, key)
    ensures !AllTruthful(es + [Issued(key)] + [Completed(key, answer)])
  {
    hide Play, Settle, Issue;
    ExactlyOnce(es);
    var b, n := Play(es), |es|;
    var es1 := es + [Issued(key)];
    var es2 := es1 + [Completed(key, answer)];
    PlayOn(es, Issued(key));
    PlayOn(es1, Completed(key, answer));
    OlderIsSet(b, key, n, answer);
    assert es2[n] == Issued(key) && es2[n + 1] == Completed(key, answer);
    assert FirstAnswer(es2, n, n + 1);
    assert !Truthful(es2, Play(es2), n);
  }

  /** Of two requests that wait under one key, the answer sets the older. */
  lemma OlderIsSet<K, V>(b: Board<K, V>, key: K, n: nat, answer: V)
    requires WaitsUnder(b.waiting, key) && n !in b.done && forall w :: w in b.waiting ==> w.promise != n
    ensures n !in Settle(Issue(b, key, n), key, answer).done
  {
    var w :| w in b.waiting && w.key == key;
    assert Find(b.waiting, key, 0) < |b.waiting|;
    FindOn(b.waiting, Waiting(key, n), key);
  }

  lemma FindOn<K>(ws: seq<Waiting<K>>, w: Waiting<K>, key: K)
    requires Find(ws, key, 0) < |ws|
    ensures Find(ws + [w], key, 0) == Find(ws, key, 0)
  {
    var ws' := ws + [w];
    assert forall j :: 0 <= j < |ws| ==> ws'[j] == ws[j];
  }

  /** Keys that are unique among the waiting are exactly what the routing needs: in every other history
      there is a moment at which some answer leaves a request without the value meant for it. */
  lemma UniquenessExact<K, V>(es: seq<Event<K, V>>, answer: V)
    ensures Routes(es, answer) <==> UnsharedKeys(es)
    ensures (forall n: nat :: n <= |es| ==> Sound(es[..n], Play(es[..n]))) <==> UnsharedKeys(es)
  {
    hide Sound, AllTruthful, UnsharedKeys, Play;
    if UnsharedKeys(es) {
      forall n: nat | n <= |es| ensures Sound(es[..n], Play(es[..n])) {
        UniquePrefix(es, n);
        ExactlyOnce(es[..n]);
      }
      forall n: nat, i: nat | i < n <= |es| && es[i].Issued? ensures AllTruthful(AnsweredAt(es, n, i, answer)) {
        UniquePrefix(es, n);
        UniqueThenAnswer(es[..n], es[i].key, answer);
        ExactlyOnce(AnsweredAt(es, n, i, answer));
        SoundTruthful(AnsweredAt(es, n, i, answer));
      }
    } else {
      var i := FirstClash(es);
      assert es[..i + 1] == es[..i] + [Issued(es[i].key)];
      ClashMisleads(es[..i], es[i].key, answer);
      assert !AllTruthful(AnsweredAt(es, i + 1, i, answer));
      ClashUnsound(es[..i], es[i].key);
      assert !Sound(es[..i + 1], Play(es[..i + 1]));
    }
  }

  lemma SoundTruthful<K, V>(es: seq<Event<K, V>>)
    requires Sound(es, Play(es))
    ensures AllTruthful(es)
  {
  }

  lemma ClashUnsound<K, V>(es: seq<Event<K, V>>, key: K)
    requires WaitsUnder(Play(es).waiting, key)
    ensures !Sound(es + [Issued(key)], Play(es + [Issued(key)]))
  {
    hide Play, Truthful;
    PlayOn(es, Issued(key));
    ClashNotDistinct(Play(es).waiting, Waiting(key, |es|));
  }

  lemma ClashNotDistinct<K>(ws: seq<Waiting<K>>, w: Waiting<K>)
    requires WaitsUnder(ws, w.key)
    ensures !DistinctWaiting(ws + [w])
  {
    var k :| 0 <= k < |ws| && ws[k].key == w.key;
    var ws' := ws + [w];
    assert ws'[k] == ws[k] && ws'[|ws|] == w;
  }
}
