/** The linear map (cpp/include/flatmap): a vector of pairs, searched from the front. */
module FlatMap {
  import opened Vectors

  datatype Pair<K, V> = Pair(first: K, second: V)

  /** The first entry with the key, or the number of entries. */
  function IndexOf<K(==), V>(es: seq<Pair<K, V>>, key: K, n: nat): (r: nat)
    requires n <= |es|
    ensures n <= r <= |es|
    ensures r < |es| ==> es[r].first == key
    ensures forall k :: n <= k < r ==> es[k].first != key
    decreases |es| - n
  {
    if n == |es| || es[n].first == key then n else IndexOf(es, key, n + 1)
  }

  ghost predicate UniqueKeys<K, V>(es: seq<Pair<K, V>>) {
    forall i, j :: 0 <= i < j < |es| ==> es[i].first != es[j].first
  }

  /** The map that the entries stand for. */
  ghost function Contents<K, V>(es: seq<Pair<K, V>>): (m: map<K, V>)
    requires UniqueKeys(es)
    ensures Describes(m, es)
  {
    map i | 0 <= i < |es| :: es[i].first := es[i].second
  }

  /** `m` has the keys of the entries, with their values, and no others. */
  ghost predicate Describes<K, V>(m: map<K, V>, es: seq<Pair<K, V>>) {
    && (forall i :: 0 <= i < |es| ==> es[i].first in m && m[es[i].first] == es[i].second)
    && (forall k :: k in m ==> HasKey(es, k))
  }

  ghost predicate HasKey<K, V>(es: seq<Pair<K, V>>, k: K) { exists i :: 0 <= i < |es| && es[i].first == k }

  lemma DescribedOnce<K, V>(es: seq<Pair<K, V>>, m: map<K, V>)
    requires UniqueKeys(es) && Describes(m, es)
    ensures Contents(es) == m
  {
  }

  /** What `operator[]` makes of the entries: a missing key is appended with a default value. */
  function Touch<K(==), V>(es: seq<Pair<K, V>>, key: K, zero: V): seq<Pair<K, V>> {
    if IndexOf(es, key, 0) == |es| then es + [Pair(key, zero)] else es
  }

  lemma Appended<K, V>(es: seq<Pair<K, V>>, key: K, v: V)
    requires UniqueKeys(es) && !HasKey(es, key)
    ensures UniqueKeys(es + [Pair(key, v)]) && key !in Contents(es)
    ensures Contents(es + [Pair(key, v)]) == Contents(es)[key := v]
  {
    hide Contents;
    var es', m := es + [Pair(key, v)], Contents(es)[key := v];
    assert forall k :: 0 <= k < |es| ==> es'[k] == es[k];
    assert es'[|es|].first == key;
    forall k | k in m ensures HasKey(es', k) {
      if k != key {
        var j :| 0 <= j < |es| && es[j].first == k;
        assert es'[j].first == k;
      }
    }
    DescribedOnce(es', m);
  }

  lemma TouchKeeps<K, V>(es: seq<Pair<K, V>>, key: K, zero: V)
    requires UniqueKeys(es)
    ensures UniqueKeys(Touch(es, key, zero))
    ensures Contents(Touch(es, key, zero)) == if key in Contents(es) then Contents(es) else Contents(es)[key := zero]
  {
    hide Contents, UniqueKeys;
    if IndexOf(es, key, 0) == |es| {
      Appended(es, key, zero);
    }
  }

  /** Assigning through the reference that `operator[]` returns updates the map at the key. */
  lemma SetValue<K, V>(es: seq<Pair<K, V>>, i: nat, v: V)
    requires UniqueKeys(es) && i < |es|
    ensures UniqueKeys(es[i := Pair(es[i].first, v)])
    ensures Contents(es[i := Pair(es[i].first, v)]) == Contents(es)[es[i].first := v]
  {
    hide Contents;
    var es', m := es[i := Pair(es[i].first, v)], Contents(es)[es[i].first := v];
    assert forall k :: 0 <= k < |es| ==> es'[k].first == es[k].first;
    forall k | k in m ensures HasKey(es', k) {
      var j :| 0 <= j < |es| && es[j].first == k;
      assert es'[j].first == k;
    }
    DescribedOnce(es', m);
  }

  /** Erasing takes exactly the key of the entry out of the map. */
  lemma EraseRemoves<K, V>(es: seq<Pair<K, V>>, i: nat)
    requires UniqueKeys(es) && i < |es|
    ensures UniqueKeys(Remove(es, i)) && Contents(Remove(es, i)) == Contents(es) - {es[i].first}
  {
    hide Contents;
    var es', n, m := Remove(es, i), |es| - 1, Contents(es) - {es[i].first};
    assert forall k :: 0 <= k < n ==> es'[k] == if k == i then es[n] else es[k];
    forall k | k in m ensures HasKey(es', k) {
      var j :| 0 <= j < |es| && es[j].first == k;
      assert es'[if j == n then i else j] == es[j];
    }
    DescribedOnce(es', m);
  }

  class FlatMap<K(==), V> {
    var entries: seq<Pair<K, V>>

    ghost predicate Valid()
      reads this
    {
      UniqueKeys(entries)
    }

    ghost function Map(): map<K, V>
      requires Valid()
      reads this
    {
      Contents(entries)
    }

    constructor ()
      ensures Valid() && entries == [] && Map() == map[]
    {
      entries := [];
    }

    /** `operator[]`: the place of the key, which is made if there is none. `zero` is what `V()` yields. */
    method At(key: K, zero: V) returns (i: nat)
      requires Valid()
      modifies this
      ensures Valid() && entries == Touch(old(entries), key, zero)
      ensures i < |entries| && entries[i].first == key
      ensures Map() == if key in old(Map()) then old(Map()) else old(Map())[key := zero]
    {
      hide Contents, UniqueKeys;
      TouchKeeps(entries, key, zero);
      i := 0;
      while i < |entries|
        invariant i <= |entries| && IndexOf(entries, key, 0) == IndexOf(entries, key, i)
      {
        if entries[i].first == key { return; }
        i := i + 1;
      }
      entries := entries + [Pair(key, zero)];
    }

    /** `m[key] = v` */
    method Put(key: K, zero: V, v: V)
      requires Valid()
      modifies this
      ensures Valid() && Map() == old(Map())[key := v]
    {
      hide Contents, UniqueKeys, Touch;
      var i := At(key, zero);
      SetValue(entries, i, v);
      entries := entries[i := Pair(key, v)];
    }

    /** `find`: an index that is the number of entries exactly if the key is missing. */
    method Find(key: K) returns (i: nat)
      requires Valid()
      ensures i <= |entries| && (i < |entries| <==> key in Map())
      ensures i < |entries| ==> entries[i].first == key && Map()[key] == entries[i].second
    {
      i := 0;
      while i < |entries|
        invariant i <= |entries| && forall k :: 0 <= k < i ==> entries[k].first != key
      {
        if entries[i].first == key { break; }
        i := i + 1;
      }
    }

    /** `erase` */
    method Erase(i: nat)
      requires Valid() && i < |entries|
      modifies this
      ensures Valid() && Map() == old(Map()) - {old(entries)[i].first}
      ensures multiset(entries) == multiset(old(entries)) - multiset{old(entries)[i]}
    {
      hide Contents, UniqueKeys;
      EraseRemoves(entries, i);
      RemoveLosesOne(entries, i);
      entries := entries[i := entries[|entries| - 1]];
      entries := entries[..|entries| - 1];
    }
  }
}
