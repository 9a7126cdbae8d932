/** Batch operations of package `fscache` (m_cache.go): when the single-key
    cache has its own batch method the call is forwarded unchanged;
    otherwise the items fan out exactly as in `Batch`, with the result
    records of `FsResults`. A native batch method is modelled as an optional
    function from the cache's state and the batch to the new state and the
    result map. */
module FsBatch {
  import opened Common
  import opened FsResults
  import Batch

  /** The results recorded for a recovered panic. */
  function PanicGet<V>(reason: string): (g: GetResult<V>)
    ensures g.err == Some(PanicError(reason)) && Value(g) == Fetched(false, g.err, None)
  {
    GetResult(Some(PanicError(reason)), None, [])
  }

  function PanicSet(reason: string): (r: SetResult)
    ensures r.err == Some(PanicError(reason))
  {
    SetResult(Some(PanicError(reason)))
  }

  function PanicDelete(reason: string): (r: DeleteResult)
    ensures r.err == Some(PanicError(reason)) && r.deleted == 0
  {
    DeleteResult(Some(PanicError(reason)), 0)
  }

  function PanicHas(reason: string): (r: HasResult)
    ensures r.err == Some(PanicError(reason)) && !r.has
  {
    HasResult(Some(PanicError(reason)), false)
  }

  /** `MGet(keys)`. */
  method MGet<S, K(==, !new), V>(native: Option<(S, seq<K>) -> (S, map<K, GetResult<V>>)>,
                                 get: (S, K) -> (S, Completion<GetResult<V>>), s0: S, keys: seq<K>)
    returns (s: S, result: map<K, GetResult<V>>)
    ensures native.Some? ==> (s, result) == native.value(s0, keys)
    ensures native.None? ==> (s, result) == Batch.RunAll(get, Batch.Id, PanicGet, s0, keys)
    ensures native.None? ==> forall k :: k in result <==> k in keys
  {
    if native.Some? {
      var r := native.value(s0, keys);
      return r.0, r.1;
    }
    s, result := Batch.FanOut(get, Batch.Id, PanicGet, s0, keys);
  }

  /** `MSet(kvs, ttl)`, with `order` the order in which `range` visits `kvs`. */
  method MSet<S, K(==, !new), V>(native: Option<(S, map<K, V>, int) -> (S, map<K, SetResult>)>,
                                 put: (S, K, V, int) -> (S, Completion<SetResult>), s0: S, kvs: map<K, V>, ttl: int,
                                 order: seq<K>)
    returns (s: S, result: map<K, SetResult>)
    requires Distinct(order) && forall k :: k in order <==> k in kvs
    ensures native.Some? ==> (s, result) == native.value(s0, kvs, ttl)
    ensures native.None? ==> result.Keys == kvs.Keys
    ensures native.None? ==> forall j :: 0 <= j < |order| ==>
      result[order[j]] ==
        Batch.Recover(put(Batch.RunAll(Batch.SetCall(put, ttl), Batch.KeyOf, PanicSet, s0, Batch.Pairs(order, kvs)[..j]).0,
                          order[j], kvs[order[j]], ttl).1,
                      PanicSet)
  {
    if native.Some? {
      var r := native.value(s0, kvs, ttl);
      return r.0, r.1;
    }
    s, result := Batch.SetAll(put, PanicSet, s0, kvs, ttl, order);
  }

  /** `MDelete(keys)`. */
  method MDelete<S, K(==, !new)>(native: Option<(S, seq<K>) -> (S, map<K, DeleteResult>)>,
                                 delete: (S, K) -> (S, Completion<DeleteResult>), s0: S, keys: seq<K>)
    returns (s: S, result: map<K, DeleteResult>)
    ensures native.Some? ==> (s, result) == native.value(s0, keys)
    ensures native.None? ==> (s, result) == Batch.RunAll(delete, Batch.Id, PanicDelete, s0, keys)
    ensures native.None? ==> forall k :: k in result <==> k in keys
  {
    if native.Some? {
      var r := native.value(s0, keys);
      return r.0, r.1;
    }
    s, result := Batch.FanOut(delete, Batch.Id, PanicDelete, s0, keys);
  }

  /** `MHas(keys)`. */
  method MHas<S, K(==, !new)>(native: Option<(S, seq<K>) -> (S, map<K, HasResult>)>,
                              has: (S, K) -> (S, Completion<HasResult>), s0: S, keys: seq<K>)
    returns (s: S, result: map<K, HasResult>)
    ensures native.Some? ==> (s, result) == native.value(s0, keys)
    ensures native.None? ==> (s, result) == Batch.RunAll(has, Batch.Id, PanicHas, s0, keys)
    ensures native.None? ==> forall k :: k in result <==> k in keys
  {
    if native.Some? {
      var r := native.value(s0, keys);
      return r.0, r.1;
    }
    s, result := Batch.FanOut(has, Batch.Id, PanicHas, s0, keys);
  }

  /** The `Err` of a `SetResult`, and the `Deleted` count of a
      `DeleteResult`, as `HasError` and `Num` read them. */
  function SetErr(r: SetResult): Option<Error> {
    r.err
  }

  function Deleted(d: DeleteResult): int {
    d.deleted
  }

  /** `MSetResult.HasError()`. */
  method MSetHasError<K(==, !new)>(mr: map<K, SetResult>) returns (b: bool)
    ensures b <==> exists k :: k in mr && mr[k].err.Some?
  {
    b := Batch.HasError(mr, SetErr);
  }

  /** `MDeleteResult.Num()`. */
  method MDeleteNum<K(==, !new)>(md: map<K, DeleteResult>) returns (n: int)
    ensures n == Batch.Total(md, Deleted)
    ensures (forall k :: k in md ==> md[k].deleted == 1) ==> n == |md|
  {
    n := Batch.Num(md, Deleted);
    if forall k :: k in md ==> md[k].deleted == 1 {
      Batch.TotalOfOnes(md, Deleted);
    }
  }
}
