/** Grouping a sequence of rows into lists keyed by one of their fields: the
    scripts' `d = defaultdict(list); d[k].append(v)` and
    `if k not in d: d[k] = []` then `d[k].append(v)` idioms. A Python dict
    keeps its keys in first-insertion order, so a group table is modelled as
    an association list whose keys are distinct and appear in the order in
    which they were first seen. */
module Grouping {
  import opened Wrappers

  type Groups<K, V> = seq<(K, seq<V>)>

  /** The values (projected by `val`) of the items whose key is `k`, in input
      order: the reference meaning of one group. */
  function Select<T, K(==), V>(items: seq<T>, key: T -> Option<K>, val: T -> V, k: K): seq<V>
    decreases |items|
  {
    if |items| == 0 then []
    else
      var before := Select(items[..|items| - 1], key, val, k);
      var last := items[|items| - 1];
      if key(last) == Some(k) then before + [val(last)] else before
  }

  /** Dictionary lookup `groups.get(k)`. */
  function Find<K(==), V>(groups: Groups<K, V>, k: K): Option<seq<V>>
  {
    if |groups| == 0 then None
    else if groups[0].0 == k then Some(groups[0].1)
    else Find(groups[1..], k)
  }

  ghost predicate DistinctKeys<K, V>(groups: Groups<K, V>) {
    forall i, j :: 0 <= i < j < |groups| ==> groups[i].0 != groups[j].0
  }

  ghost predicate NonEmptyGroups<K, V>(groups: Groups<K, V>) {
    forall i :: 0 <= i < |groups| ==> |groups[i].1| > 0
  }

  /** A key is found exactly when it labels an entry, and then with that
      entry's list. */
  lemma {:induction false} FindIndex<K, V>(groups: Groups<K, V>, k: K)
    requires DistinctKeys(groups)
    ensures Find(groups, k).Some? <==> exists i :: 0 <= i < |groups| && groups[i].0 == k
    ensures forall i :: 0 <= i < |groups| && groups[i].0 == k ==> Find(groups, k) == Some(groups[i].1)
  {
    if |groups| > 0 && groups[0].0 != k {
      FindIndex(groups[1..], k);
      assert forall i :: 1 <= i < |groups| ==> groups[i] == groups[1..][i - 1];
    }
  }

  /** `r` is `groups` after appending `v` under `k`: `k`'s list is extended,
      or a new one-element group is added at the end when `k` is new; every
      other key keeps its list and every existing group keeps its position;
      keys stay distinct and groups non-empty. */
  ghost predicate AppendedUnder<K(!new), V>(groups: Groups<K, V>, k: K, v: V, r: Groups<K, V>) {
    && DistinctKeys(r)
    && Find(r, k) == Some(if Find(groups, k).None? then [v] else Find(groups, k).value + [v])
    && (forall k' :: k' != k ==> Find(r, k') == Find(groups, k'))
    && (Find(groups, k).None? ==> r == groups + [(k, [v])])
    && (Find(groups, k).Some? ==> |r| == |groups| && forall i :: 0 <= i < |r| ==> r[i].0 == groups[i].0)
    && (NonEmptyGroups(groups) ==> NonEmptyGroups(r))
  }

  /** `d[k].append(v)` on a dict of lists whose missing keys start empty. */
  function AddTo<K(==, !new), V>(groups: Groups<K, V>, k: K, v: V): (r: Groups<K, V>)
    requires DistinctKeys(groups)
    ensures AppendedUnder(groups, k, v, r)
  {
    if |groups| == 0 then [(k, [v])]
    else if groups[0].0 == k then
      FindIndex(groups[1..], k);
      [(k, groups[0].1 + [v])] + groups[1..]
    else
      var rest := AddTo(groups[1..], k, v);
      AddToCons(groups, k, v, rest);
      [groups[0]] + rest
  }

  /** The step of `AddTo` past a first group whose key is not `k`. */
  lemma AddToCons<K(!new), V>(groups: Groups<K, V>, k: K, v: V, rest: Groups<K, V>)
    requires DistinctKeys(groups) && |groups| > 0 && groups[0].0 != k
    requires AppendedUnder(groups[1..], k, v, rest)
    ensures AppendedUnder(groups, k, v, [groups[0]] + rest)
  {
    var r := [groups[0]] + rest;
    assert r[1..] == rest;
    AddToConsDistinct(groups, k, v, rest);
    assert forall i :: 1 <= i < |r| ==> r[i] == rest[i - 1];
    if NonEmptyGroups(groups) {
      assert forall i :: 1 <= i < |groups| ==> groups[1..][i - 1] == groups[i];
    }
    if Find(groups, k).None? {
      assert groups == [groups[0]] + groups[1..];
    }
  }

  /** The first key of `groups` is none of the keys the step leaves in
      `rest`, so the keys stay distinct. */
  lemma AddToConsDistinct<K(!new), V>(groups: Groups<K, V>, k: K, v: V, rest: Groups<K, V>)
    requires DistinctKeys(groups) && |groups| > 0 && groups[0].0 != k
    requires AppendedUnder(groups[1..], k, v, rest)
    ensures DistinctKeys([groups[0]] + rest)
  {
    forall i | 0 <= i < |rest| ensures rest[i].0 != groups[0].0 {
      if rest[i].0 != k {
        FindIndex(rest, rest[i].0);
        FindIndex(groups[1..], rest[i].0);
        assert forall j :: 1 <= j < |groups| ==> groups[1..][j - 1] == groups[j];
      }
    }
    var r := [groups[0]] + rest;
    assert forall i :: 1 <= i < |r| ==> r[i] == rest[i - 1];
  }

  /** The groups of the items by key, dropping the items whose key is `None`;
      each group holds the projected values in input order. */
  function GroupBy<T, K(==, !new), V>(items: seq<T>, key: T -> Option<K>, val: T -> V): (r: Groups<K, V>)
    ensures DistinctKeys(r)
    ensures NonEmptyGroups(r)
    ensures forall k :: Find(r, k) == if |Select(items, key, val, k)| == 0 then None else Some(Select(items, key, val, k))
    decreases |items|
  {
    if |items| == 0 then []
    else
      var prev := GroupBy(items[..|items| - 1], key, val);
      var last := items[|items| - 1];
      match key(last)
      case None => prev
      case Some(k0) =>
        var r := AddTo(prev, k0, val(last));
        assert forall k :: Find(r, k) == if |Select(items, key, val, k)| == 0 then None else Some(Select(items, key, val, k)) by {
          forall k ensures Find(r, k) == if |Select(items, key, val, k)| == 0 then None else Some(Select(items, key, val, k)) {
            if k == k0 {
              var before := Select(items[..|items| - 1], key, val, k);
              assert Select(items, key, val, k) == before + [val(last)];
              if |before| == 0 {
                assert before + [val(last)] == [val(last)];
              }
            }
          }
        }
        r
  }

  /** The index of the last item whose key is `k`, or -1 when there is none:
      the item a later `d[k] = ...` leaves in place. */
  function LastIndex<T, K(==)>(items: seq<T>, key: T -> Option<K>, k: K): (r: int)
    ensures -1 <= r < |items|
    ensures r >= 0 ==> key(items[r]) == Some(k)
    ensures forall j :: r < j < |items| ==> key(items[j]) != Some(k)
    decreases |items|
  {
    if |items| == 0 then -1
    else if key(items[|items| - 1]) == Some(k) then |items| - 1
    else LastIndex(items[..|items| - 1], key, k)
  }
}
