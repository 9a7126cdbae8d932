/** Batch operations built from single-key calls (cache/m_cache.go): each
    item runs inline, in order, on the single-key cache; a panic in one item
    is recovered into an error result for that item's key alone; the results
    are gathered in a map keyed by the item's key. The single-key cache's
    state is threaded through the calls as a value. */
module Batch {
  import opened Common
  import opened Results

  /** How one item's call ends, after the deferred `recover`. */
  function Recover<R>(c: Completion<R>, onPanic: string -> R): (r: R)
    ensures c.Returned? ==> r == c.value
    ensures c.Panicked? ==> r == onPanic(c.reason)
  {
    match c
    case Returned(v) => v
    case Panicked(reason) => onPanic(reason)
  }

  function Id<K>(k: K): K {
    k
  }

  /** The sequential meaning of a fan-out: run the items in order from state
      `s`; each item's (recovered) result is stored under its key, a later
      item overwriting an earlier one with the same key. */
  function RunAll<S, I, K(==, !new), R>(call: (S, I) -> (S, Completion<R>), keyOf: I -> K, onPanic: string -> R,
                                  s: S, items: seq<I>): (r: (S, map<K, R>))
    ensures r.1.Keys == set i | i in items :: keyOf(i)
    decreases |items|
  {
    if items == [] then (s, map[])
    else
      var prev := RunAll(call, keyOf, onPanic, s, items[..|items| - 1]);
      var last := items[|items| - 1];
      var next := call(prev.0, last);
      var r := (next.0, prev.1[keyOf(last) := Recover(next.1, onPanic)]);
      assert items == items[..|items| - 1] + [last];
      r
  }

  /** The loop every batch method runs with `runFn` inline: one call per
      item, its recovered result stored under the item's key. */
  method FanOut<S, I, K(==, !new), R>(call: (S, I) -> (S, Completion<R>), keyOf: I -> K, onPanic: string -> R,
                                s0: S, items: seq<I>) returns (s: S, result: map<K, R>)
    ensures (s, result) == RunAll(call, keyOf, onPanic, s0, items)
  {
    s, result := s0, map[];
    for i := 0 to |items|
      invariant (s, result) == RunAll(call, keyOf, onPanic, s0, items[..i])
    {
      assert items[..i + 1][..i] == items[..i];
      var next := call(s, items[i]);
      s := next.0;
      result := result[keyOf(items[i]) := Recover(next.1, onPanic)];
    }
    assert items[..|items|] == items;
  }

  /** A key's entry is the recovered result of the call at its last
      occurrence, made on the state the earlier items left. */
  lemma {:induction false} LastOccurrence<S, I, K(!new), R>(call: (S, I) -> (S, Completion<R>), keyOf: I -> K,
                                                        onPanic: string -> R, s0: S, items: seq<I>, j: int)
    requires 0 <= j < |items|
    requires forall t :: j < t < |items| ==> keyOf(items[t]) != keyOf(items[j])
    ensures keyOf(items[j]) in RunAll(call, keyOf, onPanic, s0, items).1
    ensures RunAll(call, keyOf, onPanic, s0, items).1[keyOf(items[j])]
              == Recover(call(RunAll(call, keyOf, onPanic, s0, items[..j]).0, items[j]).1, onPanic)
    decreases |items|
  {
    var init := items[..|items| - 1];
    if j == |items| - 1 {
      assert init == items[..j];
    } else {
      LastOccurrence(call, keyOf, onPanic, s0, init, j);
      assert init[..j] == items[..j];
      assert init[j] == items[j];
    }
  }

  /** A panicking item yields `onPanic` of its reason under its own key. */
  lemma PanicStaysWithItsKey<S, I, K(!new), R>(call: (S, I) -> (S, Completion<R>), keyOf: I -> K,
                                             onPanic: string -> R, s0: S, items: seq<I>, j: int)
    requires 0 <= j < |items|
    requires forall t :: j < t < |items| ==> keyOf(items[t]) != keyOf(items[j])
    requires call(RunAll(call, keyOf, onPanic, s0, items[..j]).0, items[j]).1.Panicked?
    ensures RunAll(call, keyOf, onPanic, s0, items).1[keyOf(items[j])]
              == onPanic(call(RunAll(call, keyOf, onPanic, s0, items[..j]).0, items[j]).1.reason)
  {
    LastOccurrence(call, keyOf, onPanic, s0, items, j);
  }

  /** The results recorded for a recovered panic. */
  function PanicGet<V>(reason: string): (g: GetResult<V>)
    ensures Err(g) == Some(PanicError(reason)) && g.unmarshaler.None?
  {
    GetResult(Some(PanicError(reason)), [], None)
  }

  function PanicSet(reason: string): (r: SetResult)
    ensures r.err == Some(PanicError(reason))
  {
    SetResult(Some(PanicError(reason)))
  }

  function PanicDelete(reason: string): (r: DeleteResult)
    ensures r.err == Some(PanicError(reason)) && r.num == 0
  {
    DeleteResult(Some(PanicError(reason)), 0)
  }

  function PanicHas(reason: string): (r: HasResult)
    ensures HasErr(r) == Some(PanicError(reason)) && !r.has
  {
    HasResult(Some(PanicError(reason)), false)
  }

  /** `MGet(keys)`: one entry per distinct key. */
  method MGet<S, K(==, !new), V>(get: (S, K) -> (S, Completion<GetResult<V>>), s0: S, keys: seq<K>)
    returns (s: S, result: map<K, GetResult<V>>)
    ensures (s, result) == RunAll(get, Id, PanicGet, s0, keys)
    ensures forall k :: k in result <==> k in keys
  {
    s, result := FanOut(get, Id, PanicGet, s0, keys);
  }

  /** `MDelete(keys)`: one entry per distinct key. */
  method MDelete<S, K(==, !new)>(delete: (S, K) -> (S, Completion<DeleteResult>), s0: S, keys: seq<K>)
    returns (s: S, result: map<K, DeleteResult>)
    ensures (s, result) == RunAll(delete, Id, PanicDelete, s0, keys)
    ensures forall k :: k in result <==> k in keys
  {
    s, result := FanOut(delete, Id, PanicDelete, s0, keys);
  }

  /** `MHas(keys)`: one entry per distinct key. */
  method MHas<S, K(==, !new)>(has: (S, K) -> (S, Completion<HasResult>), s0: S, keys: seq<K>)
    returns (s: S, result: map<K, HasResult>)
    ensures (s, result) == RunAll(has, Id, PanicHas, s0, keys)
    ensures forall k :: k in result <==> k in keys
  {
    s, result := FanOut(has, Id, PanicHas, s0, keys);
  }

  /** The pairs of `kvs` in the order `range` visits them. */
  function Pairs<K(==, !new), V>(order: seq<K>, kvs: map<K, V>): (ps: seq<(K, V)>)
    requires forall i :: 0 <= i < |order| ==> order[i] in kvs
    ensures |ps| == |order|
    ensures forall i :: 0 <= i < |order| ==> ps[i] == (order[i], kvs[order[i]])
  {
    if order == [] then [] else [(order[0], kvs[order[0]])] + Pairs(order[1..], kvs)
  }

  function KeyOf<K, V>(p: (K, V)): K {
    p.0
  }

  /** One item of `MSet`: `Set(k, v, ttl)` with the shared ttl. */
  function SetCall<S, K, V, R>(put: (S, K, V, int) -> (S, Completion<R>), ttl: int): (S, (K, V)) -> (S, Completion<R>)
  {
    (s: S, p: (K, V)) => put(s, p.0, p.1, ttl)
  }

  /** Visiting the keys of `kvs` once each, the items carry exactly the keys
      of `kvs`. */
  lemma PairsKeys<K(!new), V>(order: seq<K>, kvs: map<K, V>)
    requires forall k :: k in order <==> k in kvs
    ensures (set p | p in Pairs(order, kvs) :: KeyOf(p)) == kvs.Keys
  {
    var items := Pairs(order, kvs);
    forall k | k in kvs
      ensures k in set p | p in items :: KeyOf(p)
    {
      var i :| 0 <= i < |order| && order[i] == k;
      assert KeyOf(items[i]) == k;
    }
  }

  /** The fan-out of `MSet` over `order`, the order in which `range` visits
      `kvs`: the result has exactly the keys of `kvs`, and each holds the
      (recovered) result of `Set(k, kvs[k], ttl)` on the state the earlier
      items left. */
  method SetAll<S, K(==, !new), V, R>(put: (S, K, V, int) -> (S, Completion<R>), onPanic: string -> R,
                                      s0: S, kvs: map<K, V>, ttl: int, order: seq<K>)
    returns (s: S, result: map<K, R>)
    requires Distinct(order) && forall k :: k in order <==> k in kvs
    ensures (s, result) == RunAll(SetCall(put, ttl), KeyOf, onPanic, s0, Pairs(order, kvs))
    ensures result.Keys == kvs.Keys
    ensures forall j :: 0 <= j < |order| ==>
      result[order[j]] ==
        Recover(put(RunAll(SetCall(put, ttl), KeyOf, onPanic, s0, Pairs(order, kvs)[..j]).0, order[j], kvs[order[j]], ttl).1,
                onPanic)
  {
    var items := Pairs(order, kvs);
    s, result := FanOut(SetCall(put, ttl), KeyOf, onPanic, s0, items);
    PairsKeys(order, kvs);
    forall j | 0 <= j < |order|
      ensures result[order[j]] ==
        Recover(put(RunAll(SetCall(put, ttl), KeyOf, onPanic, s0, items[..j]).0, order[j], kvs[order[j]], ttl).1,
                onPanic)
    {
      LastOccurrence(SetCall(put, ttl), KeyOf, onPanic, s0, items, j);
    }
  }

  /** `MSet(kvs, ttl)`, with `order` the order in which `range` visits `kvs`. */
  method MSet<S, K(==, !new), V>(put: (S, K, V, int) -> (S, Completion<SetResult>), s0: S, kvs: map<K, V>, ttl: int,
                                 order: seq<K>)
    returns (s: S, result: map<K, SetResult>)
    requires Distinct(order) && forall k :: k in order <==> k in kvs
    ensures result.Keys == kvs.Keys
    ensures forall j :: 0 <= j < |order| ==>
      result[order[j]] ==
        Recover(put(RunAll(SetCall(put, ttl), KeyOf, PanicSet, s0, Pairs(order, kvs)[..j]).0, order[j], kvs[order[j]], ttl).1,
                PanicSet)
  {
    s, result := SetAll(put, PanicSet, s0, kvs, ttl, order);
  }

  /** `HasError()`: some entry's error, as its `Err()` reports it, is set. */
  method HasError<K(==, !new), R>(mr: map<K, R>, err: R -> Option<Error>) returns (b: bool)
    ensures b <==> exists k :: k in mr && err(mr[k]).Some?
  {
    var rest := mr;
    while rest != map[]
      invariant forall k :: k in rest ==> k in mr && rest[k] == mr[k]
      invariant forall k :: k in mr && k !in rest ==> err(mr[k]).None?
      decreases |rest|
    {
      var k :| k in rest;
      if err(rest[k]).Some? {
        return true;
      }
      rest := rest - {k};
    }
    return false;
  }

  /** The sum of `num` over the entries, in no particular order. */
  ghost function Total<K(!new), R>(m: map<K, R>, num: R -> int): int
    decreases |m|
  {
    if m == map[] then 0
    else
      var k :| k in m;
      assert |(m - {k}).Keys| < |m.Keys| by {
        assert (m - {k}).Keys == m.Keys - {k};
      }
      num(m[k]) + Total(m - {k}, num)
  }

  /** The sum does not depend on which entry is taken first. */
  lemma {:induction false} TotalRemove<K(!new), R>(m: map<K, R>, num: R -> int, k: K)
    requires k in m
    ensures Total(m, num) == num(m[k]) + Total(m - {k}, num)
    decreases |m|
  {
    var k' :| k' in m && Total(m, num) == num(m[k']) + Total(m - {k'}, num);
    if k' != k {
      MapRemoveSize(m, k);
      MapRemoveSize(m, k');
      TotalRemove(m - {k'}, num, k);
      TotalRemove(m - {k}, num, k');
      assert m - {k'} - {k} == m - {k} - {k'};
    }
  }

  /** `Num()`: the sum of the entries' counts. */
  method Num<K(==, !new), R>(md: map<K, R>, num: R -> int) returns (n: int)
    ensures n == Total(md, num)
  {
    n := 0;
    var rest := md;
    while rest != map[]
      invariant n + Total(rest, num) == Total(md, num)
      decreases |rest|
    {
      var k :| k in rest;
      TotalRemove(rest, num, k);
      MapRemoveSize(rest, k);
      n := n + num(rest[k]);
      rest := rest - {k};
    }
  }

  /** When every entry counts one deletion, the sum is the number of entries. */
  lemma {:induction false} TotalOfOnes<K(!new), R>(m: map<K, R>, num: R -> int)
    requires forall k :: k in m ==> num(m[k]) == 1
    ensures Total(m, num) == |m|
    decreases |m|
  {
    if m != map[] {
      var k :| k in m;
      TotalRemove(m, num, k);
      MapRemoveSize(m, k);
      TotalOfOnes(m - {k}, num);
    }
  }

  /** `SetResult.Err()` and `DeleteResult.Num()`: the stored fields. */
  function SetErr(r: SetResult): Option<Error> {
    r.err
  }

  function DeleteNum(d: DeleteResult): int {
    d.num
  }

  /** `MSetResult.HasError()`. */
  method MSetHasError<K(==, !new)>(mr: map<K, SetResult>) returns (b: bool)
    ensures b <==> exists k :: k in mr && mr[k].err.Some?
  {
    b := HasError(mr, SetErr);
  }

  /** `MDeleteResult.Num()`. */
  method MDeleteNum<K(==, !new)>(md: map<K, DeleteResult>) returns (n: int)
    ensures n == Total(md, DeleteNum)
    ensures (forall k :: k in md ==> md[k].num == 1) ==> n == |md|
  {
    n := Num(md, DeleteNum);
    if forall k :: k in md ==> md[k].num == 1 {
      TotalOfOnes(md, DeleteNum);
    }
  }

  /** Deleting distinct stored keys, each call removing one record, reports
      as many deletions as keys. */
  lemma DeletedAll<K(!new)>(result: map<K, DeleteResult>, keys: seq<K>)
    requires Distinct(keys) && (forall k :: k in result <==> k in keys)
    requires forall k :: k in result ==> result[k].num == 1
    ensures Total(result, DeleteNum) == |keys|
  {
    TotalOfOnes(result, DeleteNum);
    DistinctCard(keys);
    assert result.Keys == set k | k in keys;
  }
}
