/** Weighted sums over maps and over lists of entries, and additive upserts. */
module MapSums {

  /** The sum of `w` over the entries of a map. */
  ghost function Sum<K(!new), V>(m: map<K, V>, w: (K, V) -> int): int
    decreases |m|
  {
    if m == map[] then 0
    else var k :| k in m; w(k, m[k]) + Sum(m - {k}, w)
  }

  lemma {:induction false} SumRemove<K(!new), V>(m: map<K, V>, k: K, w: (K, V) -> int)
    requires k in m
    ensures Sum(m, w) == w(k, m[k]) + Sum(m - {k}, w)
    decreases |m|
  {
    var x :| x in m && Sum(m, w) == w(x, m[x]) + Sum(m - {x}, w);
    if x != k {
      SumRemove(m - {x}, k, w);
      SumRemove(m - {k}, x, w);
      assert m - {x} - {k} == m - {k} - {x};
    }
  }

  lemma SumUpdate<K(!new), V>(m: map<K, V>, k: K, v: V, w: (K, V) -> int)
    ensures Sum(m[k := v], w) == Sum(m, w) + w(k, v) - if k in m then w(k, m[k]) else 0
  {
    SumRemove(m[k := v], k, w);
    assert m[k := v] - {k} == m - {k};
    if k in m {
      SumRemove(m, k, w);
    } else {
      assert m - {k} == m;
    }
  }

  lemma {:induction false} SumZero<K(!new), V>(m: map<K, V>, w: (K, V) -> int)
    requires forall k :: k in m ==> w(k, m[k]) == 0
    ensures Sum(m, w) == 0
    decreases |m|
  {
    if m != map[] {
      var k :| k in m;
      SumRemove(m, k, w);
      SumZero(m - {k}, w);
    }
  }

  /** Two weights that agree on the entries of a map have the same sum. */
  lemma {:induction false} SumAgree<K(!new), V>(m: map<K, V>, w: (K, V) -> int, w': (K, V) -> int)
    requires forall k :: k in m ==> w(k, m[k]) == w'(k, m[k])
    ensures Sum(m, w) == Sum(m, w')
    decreases |m|
  {
    if m != map[] {
      var k :| k in m;
      SumRemove(m, k, w);
      SumRemove(m, k, w');
      SumAgree(m - {k}, w, w');
    }
  }

  lemma {:induction false} SumNonNegative<K(!new), V>(m: map<K, V>, w: (K, V) -> int)
    requires forall k :: k in m ==> w(k, m[k]) >= 0
    ensures Sum(m, w) >= 0
    decreases |m|
  {
    if m != map[] {
      var k :| k in m;
      SumRemove(m, k, w);
      SumNonNegative(m - {k}, w);
    }
  }

  /** The entries of a map at the given keys. */
  ghost function Only<K, V>(m: map<K, V>, keys: set<K>): map<K, V> { map k | k in m && k in keys :: m[k] }

  lemma SplitWithout<K, V>(m: map<K, V>, keys: set<K>, k: K)
    requires k in m
    ensures k in keys ==> m - keys == m - {k} - keys && Only(m, keys) - {k} == Only(m - {k}, keys)
    ensures k !in keys ==> m - keys - {k} == m - {k} - keys && Only(m, keys) == Only(m - {k}, keys)
  {
  }

  /** Splitting a map by key splits its sum. */
  lemma {:induction false} SumSplit<K(!new), V>(m: map<K, V>, keys: set<K>, w: (K, V) -> int)
    ensures Sum(m, w) == Sum(m - keys, w) + Sum(Only(m, keys), w)
    decreases |m|
  {
    if m == map[] {
      assert m - keys == m && Only(m, keys) == m;
    } else {
      var k :| k in m;
      SumSplit(m - {k}, keys, w);
      SumRemove(m, k, w);
      SplitWithout(m, keys, k);
      if k in keys {
        SumRemove(Only(m, keys), k, w);
      } else {
        SumRemove(m - keys, k, w);
      }
    }
  }

  /** A weight that is zero except at `key` picks out that entry. */
  lemma SumAtKey<K(!new), V>(m: map<K, V>, key: K, w: (K, V) -> int)
    requires forall k :: k in m && k != key ==> w(k, m[k]) == 0
    ensures Sum(m, w) == if key in m then w(key, m[key]) else 0
  {
    if key in m {
      SumRemove(m, key, w);
      SumZero(m - {key}, w);
    } else {
      SumZero(m, w);
    }
  }

  // ---- Entry lists ---------------------------------------------------------------

  function SumEntries<K, V>(entries: seq<(K, V)>, w: (K, V) -> int): int {
    if entries == [] then 0 else w(entries[0].0, entries[0].1) + SumEntries(entries[1..], w)
  }

  lemma {:induction false} SumEntriesZero<K, V>(entries: seq<(K, V)>, w: (K, V) -> int)
    requires forall i :: 0 <= i < |entries| ==> w(entries[i].0, entries[i].1) == 0
    ensures SumEntries(entries, w) == 0
  {
    if entries != [] {
      SumEntriesZero(entries[1..], w);
    }
  }

  /** Nothing weighs less than zero. */
  ghost predicate EntriesOk<K, V>(entries: seq<(K, V)>, w: (K, V) -> int) {
    forall i :: 0 <= i < |entries| ==> w(entries[i].0, entries[i].1) >= 0
  }

  ghost predicate MapOk<K, V>(m: map<K, V>, w: (K, V) -> int) { forall k :: k in m ==> w(k, m[k]) >= 0 }

  lemma {:induction false} EntriesNonNegative<K, V>(entries: seq<(K, V)>, w: (K, V) -> int)
    requires EntriesOk(entries, w)
    ensures SumEntries(entries, w) >= 0
  {
    if entries != [] {
      EntriesNonNegative(entries[1..], w);
    }
  }

  /** `entries` lists a map: every key once, in some order. */
  ghost predicate Lists<K, V>(entries: seq<(K, V)>, m: map<K, V>) {
    && (forall i, j :: 0 <= i < j < |entries| ==> entries[i].0 != entries[j].0)
    && (forall i :: 0 <= i < |entries| ==> entries[i].0 in m && m[entries[i].0] == entries[i].1)
    && (forall k :: k in m ==> exists i :: 0 <= i < |entries| && entries[i].0 == k)
  }

  lemma {:induction false} SumOfListing<K(!new), V>(entries: seq<(K, V)>, m: map<K, V>, w: (K, V) -> int)
    requires Lists(entries, m)
    ensures SumEntries(entries, w) == Sum(m, w)
  {
    if entries == [] {
      assert m == map[];
    } else {
      var k := entries[0].0;
      SumRemove(m, k, w);
      ListsTail(entries, m);
      SumOfListing(entries[1..], m - {k}, w);
    }
  }

  lemma ListsTail<K, V>(entries: seq<(K, V)>, m: map<K, V>)
    requires entries != [] && Lists(entries, m)
    ensures Lists(entries[1..], m - {entries[0].0})
  {
    forall k | k in m - {entries[0].0}
      ensures exists i :: 0 <= i < |entries[1..]| && entries[1..][i].0 == k
    {
      var i :| 0 <= i < |entries| && entries[i].0 == k;
      assert entries[1..][i - 1].0 == k;
    }
  }

  /** Collects a map into a list, in arbitrary order. */
  method Collect<K(==, !new), V>(m: map<K, V>) returns (entries: seq<(K, V)>)
    ensures Lists(entries, m)
  {
    entries := [];
    var rest := m.Keys;
    while rest != {}
      invariant rest <= m.Keys
      invariant forall i, j :: 0 <= i < j < |entries| ==> entries[i].0 != entries[j].0
      invariant forall i :: 0 <= i < |entries| ==> entries[i].0 in m && m[entries[i].0] == entries[i].1
      invariant forall i :: 0 <= i < |entries| ==> entries[i].0 !in rest
      invariant forall k :: k in m && k !in rest ==> exists i :: 0 <= i < |entries| && entries[i].0 == k
    {
      var k :| k in rest;
      ghost var before := entries;
      entries := entries + [(k, m[k])];
      rest := rest - {k};
      forall x | x in m && x !in rest
        ensures exists i :: 0 <= i < |entries| && entries[i].0 == x
      {
        if x == k {
          assert entries[|before|].0 == x;
        } else {
          var i :| 0 <= i < |before| && before[i].0 == x;
          assert entries[i].0 == x;
        }
      }
    }
  }

  // ---- Additive upserts --------------------------------------------------------------

  /** `INSERT ... ON CONFLICT DO UPDATE SET v = v + excluded.v`, or `entry().or_default() += v`. */
  function Upsert<K, V>(m: map<K, V>, k: K, v: V, plus: (V, V) -> V): map<K, V> {
    m[k := if k in m then plus(m[k], v) else v]
  }

  function UpsertAll<K, V>(m: map<K, V>, entries: seq<(K, V)>, plus: (V, V) -> V): map<K, V>
    decreases |entries|
  {
    if entries == [] then m
    else UpsertAll(Upsert(m, entries[0].0, entries[0].1, plus), entries[1..], plus)
  }

  /** `w` adds up over `plus`. */
  ghost predicate Additive<K(!new), V(!new)>(w: (K, V) -> int, plus: (V, V) -> V) {
    forall k, a, b :: w(k, plus(a, b)) == w(k, a) + w(k, b)
  }

  lemma UpsertSum<K(!new), V(!new)>(m: map<K, V>, k: K, v: V, plus: (V, V) -> V, w: (K, V) -> int)
    requires Additive(w, plus)
    ensures Sum(Upsert(m, k, v, plus), w) == Sum(m, w) + w(k, v)
  {
    SumUpdate(m, k, if k in m then plus(m[k], v) else v, w);
  }

  lemma {:induction false} UpsertAllSum<K(!new), V(!new)>(
    m: map<K, V>, entries: seq<(K, V)>, plus: (V, V) -> V, w: (K, V) -> int)
    requires Additive(w, plus)
    ensures Sum(UpsertAll(m, entries, plus), w) == Sum(m, w) + SumEntries(entries, w)
    decreases |entries|
  {
    if entries != [] {
      UpsertSum(m, entries[0].0, entries[0].1, plus, w);
      UpsertAllSum(Upsert(m, entries[0].0, entries[0].1, plus), entries[1..], plus, w);
    }
  }

  lemma UpsertOk<K(!new), V(!new)>(m: map<K, V>, k: K, v: V, plus: (V, V) -> V, w: (K, V) -> int)
    requires Additive(w, plus) && MapOk(m, w) && w(k, v) >= 0
    ensures MapOk(Upsert(m, k, v, plus), w)
  {
    if k in m {
      assert w(k, plus(m[k], v)) == w(k, m[k]) + w(k, v);
    }
  }

  lemma {:induction false} UpsertAllOk<K(!new), V(!new)>(
    m: map<K, V>, entries: seq<(K, V)>, plus: (V, V) -> V, w: (K, V) -> int)
    requires Additive(w, plus) && MapOk(m, w) && EntriesOk(entries, w)
    ensures MapOk(UpsertAll(m, entries, plus), w)
    decreases |entries|
  {
    if entries != [] {
      UpsertOk(m, entries[0].0, entries[0].1, plus, w);
      UpsertAllOk(Upsert(m, entries[0].0, entries[0].1, plus), entries[1..], plus, w);
    }
  }

  lemma {:induction false} UpsertAllSnoc<K, V>(m: map<K, V>, entries: seq<(K, V)>, e: (K, V), plus: (V, V) -> V)
    ensures UpsertAll(m, entries + [e], plus) == Upsert(UpsertAll(m, entries, plus), e.0, e.1, plus)
    decreases |entries|
  {
    if entries == [] {
      assert entries + [e] == [e];
    } else {
      assert (entries + [e])[1..] == entries[1..] + [e];
      UpsertAllSnoc(Upsert(m, entries[0].0, entries[0].1, plus), entries[1..], e, plus);
    }
  }

  /** Adding one map into another, with no order in sight. */
  function Merge<K, V>(m: map<K, V>, n: map<K, V>, plus: (V, V) -> V): map<K, V> {
    map k | k in m.Keys + n.Keys :: if k !in n then m[k] else if k !in m then n[k] else plus(m[k], n[k])
  }

  lemma MergeStep<K, V>(m: map<K, V>, k: K, n: map<K, V>, plus: (V, V) -> V)
    requires k in n
    ensures Merge(Upsert(m, k, n[k], plus), n - {k}, plus) == Merge(m, n, plus)
  {
    var (a, b) := (Merge(Upsert(m, k, n[k], plus), n - {k}, plus), Merge(m, n, plus));
    assert a.Keys == b.Keys;
    forall x | x in a
      ensures a[x] == b[x]
    {
    }
  }

  /** A drained map may be applied in any order: the result is the merge. */
  lemma {:induction false} UpsertListing<K, V>(m: map<K, V>, entries: seq<(K, V)>, n: map<K, V>, plus: (V, V) -> V)
    requires Lists(entries, n)
    ensures UpsertAll(m, entries, plus) == Merge(m, n, plus)
    decreases |entries|
  {
    if entries == [] {
      assert n == map[];
      assert Merge(m, n, plus) == m;
    } else {
      var (k, v) := entries[0];
      ListsTail(entries, n);
      UpsertListing(Upsert(m, k, v, plus), entries[1..], n - {k}, plus);
      MergeStep(m, k, n, plus);
    }
  }

  // ---- Sums over sequences ----------------------------------------------------------

  function SumSeq<T>(items: seq<T>, f: T -> int): int {
    if items == [] then 0 else f(items[0]) + SumSeq(items[1..], f)
  }

  lemma {:induction false} SumSeqAppend<T>(items: seq<T>, item: T, f: T -> int)
    ensures SumSeq(items + [item], f) == SumSeq(items, f) + f(item)
  {
    if items == [] {
      assert items + [item] == [item];
    } else {
      SumSeqAppend(items[1..], item, f);
      assert (items + [item])[1..] == items[1..] + [item];
    }
  }

  lemma {:induction false} SumSeqConcat<T>(a: seq<T>, b: seq<T>, f: T -> int)
    ensures SumSeq(a + b, f) == SumSeq(a, f) + SumSeq(b, f)
  {
    if a == [] {
      assert a + b == b;
    } else {
      SumSeqConcat(a[1..], b, f);
      assert (a + b)[1..] == a[1..] + b;
    }
  }

  function Without<T>(items: seq<T>, i: nat): seq<T>
    requires i < |items|
  {
    items[..i] + items[i + 1..]
  }

  lemma {:induction false} SumSeqWithout<T>(items: seq<T>, i: nat, f: T -> int)
    requires i < |items|
    ensures SumSeq(Without(items, i), f) == SumSeq(items, f) - f(items[i])
  {
    if i == 0 {
      assert Without(items, i) == items[1..];
    } else {
      SumSeqWithout(items[1..], i - 1, f);
      assert Without(items, i)[1..] == Without(items[1..], i - 1);
    }
  }

  lemma {:induction false} SumSeqZero<T>(items: seq<T>, f: T -> int)
    requires forall i :: 0 <= i < |items| ==> f(items[i]) == 0
    ensures SumSeq(items, f) == 0
  {
    if items != [] {
      SumSeqZero(items[1..], f);
    }
  }

  lemma {:induction false} SumSeqNonNegative<T>(items: seq<T>, f: T -> int)
    requires forall i :: 0 <= i < |items| ==> f(items[i]) >= 0
    ensures SumSeq(items, f) >= 0
  {
    if items != [] {
      SumSeqNonNegative(items[1..], f);
    }
  }
}
