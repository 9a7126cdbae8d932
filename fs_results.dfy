/** The result records of package `fscache` (s_cache.go): plain structs whose
    `Err` field is never masked, and the canonical results the engines share. */
module FsResults {
  import opened Common

  /** An `UnmarshalFunc`: decodes the payload into the caller's target, or fails. */
  type UnmarshalFunc<V> = Bytes -> Result<V>

  /** `GetResult{Err, UnmarshalFunc, Payload}`; a nil decoder is `None`. */
  datatype GetResult<V> = GetResult(err: Option<Error>, unmarshalFunc: Option<UnmarshalFunc<V>>, payload: Bytes)

  datatype SetResult = SetResult(err: Option<Error>)

  datatype DeleteResult = DeleteResult(err: Option<Error>, deleted: int)

  datatype HasResult = HasResult(err: Option<Error>, has: bool)

  /** `setRetSuc`: a successful Set. */
  const SetRetSuc: SetResult := SetResult(None)

  /** `deleteRetSucHas0`: a successful Delete that removed nothing. */
  const DeleteRetSucHas0: DeleteResult := DeleteResult(None, 0)

  /** `hasRetNot`: the key is absent; the field keeps the sentinel. */
  const HasRetNot: HasResult := HasResult(Some(NotExists), false)

  /** `getRetNotExists`: the canonical miss. Its `Err` field holds the
      sentinel, yet `Value` reports neither a value nor an error. */
  function GetRetNotExists<V>(): (r: GetResult<V>)
    ensures r.err == Some(NotExists)
    ensures Value(r) == Fetched(false, None, None)
  {
    GetResult(Some(NotExists), None, [])
  }

  /** `GetResult.Value(obj)`. */
  function Value<V>(g: GetResult<V>): (r: Fetched<V>)
    ensures r.has <==> g.err.None? && g.unmarshalFunc.Some? && g.unmarshalFunc.value(g.payload).Ok?
    ensures r.has ==> r.err.None? && r.obj == Some(g.unmarshalFunc.value(g.payload).value)
    ensures !r.has ==> r.obj.None?
    ensures g.err == Some(NotExists) ==> r.err.None?
    ensures g.err.Some? && g.err != Some(NotExists) ==> r.err == g.err
    ensures g.err.None? && g.unmarshalFunc.None? ==> r.err == Some(Message("unmarshaler is nil"))
    ensures g.err.None? && g.unmarshalFunc.Some? && g.unmarshalFunc.value(g.payload).Fail? ==>
              r.err == Some(g.unmarshalFunc.value(g.payload).error)
  {
    if g.err == Some(NotExists) then Fetched(false, None, None)
    else if g.err.Some? then Fetched(false, g.err, None)
    else if g.unmarshalFunc.None? then Fetched(false, Some(Message("unmarshaler is nil")), None)
    else
      match g.unmarshalFunc.value(g.payload)
      case Ok(v) => Fetched(true, None, Some(v))
      case Fail(e) => Fetched(false, Some(e), None)
  }
}
