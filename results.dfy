/** The result records of package `cache` (cache/s_cache.go): what a single-key
    Get, Set, Has or Delete returns. Get and Has results mask the not-exists
    sentinel in `Err()`; Set and Delete results report their error as stored. */
module Results {
  import opened Common

  /** An `Unmarshaler`: decodes the payload into the caller's target, or fails. */
  type Unmarshaler<V> = Bytes -> Result<V>

  /** `getResult{err, val, unmarshaler}`; a nil unmarshaler is `None`. */
  datatype GetResult<V> = GetResult(err: Option<Error>, val: Bytes, unmarshaler: Option<Unmarshaler<V>>)

  /** `resultError{err}`, the result of Set. Its `Err()` is the stored error. */
  datatype SetResult = SetResult(err: Option<Error>)

  /** `deleteResult{err, num}`. `Err()` and `Num()` return the stored fields. */
  datatype DeleteResult = DeleteResult(err: Option<Error>, num: int)

  /** `hasResult{err, has}`. `Has()` returns the stored flag. */
  datatype HasResult = HasResult(err: Option<Error>, has: bool)

  /** The error a caller sees through `Err()`: the not-exists sentinel reads as nil. */
  function Masked(err: Option<Error>): Option<Error>
  {
    if err == Some(NotExists) then None else err
  }

  /** `getResult.Err()`. */
  function Err<V>(g: GetResult<V>): (r: Option<Error>)
    ensures r.None? <==> g.err.None? || g.err == Some(NotExists)
    ensures r.Some? ==> r == g.err && r != Some(NotExists)
  {
    Masked(g.err)
  }

  /** `hasResult.Err()`. */
  function HasErr(h: HasResult): (r: Option<Error>)
    ensures r.None? <==> h.err.None? || h.err == Some(NotExists)
    ensures r.Some? ==> r == h.err && r != Some(NotExists)
  {
    Masked(h.err)
  }

  /** `getResult.Value(obj)`: a miss is "no value, no error"; any other stored
      error is surfaced; otherwise the unmarshaler decides. */
  function Value<V>(g: GetResult<V>): (r: Fetched<V>)
    ensures r.has <==> g.err.None? && g.unmarshaler.Some? && g.unmarshaler.value(g.val).Ok?
    ensures r.has ==> r.err.None? && r.obj == Some(g.unmarshaler.value(g.val).value)
    ensures !r.has ==> r.obj.None?
    ensures g.err.Some? ==> r.err == Err(g)
    ensures g.err.None? && g.unmarshaler.None? ==> r.err == Some(Message("unmarshaler is nil"))
    ensures g.err.None? && g.unmarshaler.Some? && g.unmarshaler.value(g.val).Fail? ==>
              r.err == Some(g.unmarshaler.value(g.val).error)
  {
    if g.err == Some(NotExists) then Fetched(false, None, None)
    else if g.err.Some? then Fetched(false, g.err, None)
    else if g.unmarshaler.None? then Fetched(false, Some(Message("unmarshaler is nil")), None)
    else
      match g.unmarshaler.value(g.val)
      case Ok(v) => Fetched(true, None, Some(v))
      case Fail(e) => Fetched(false, Some(e), None)
  }

  /** A miss never reaches the unmarshaler: its payload bytes (the diagnostic
      text an engine may put there) cannot change what `Value` reports. */
  lemma MissIgnoresPayload<V>(a: Bytes, b: Bytes, u: Option<Unmarshaler<V>>, w: Option<Unmarshaler<V>>)
    ensures Value(GetResult(Some(NotExists), a, u)) == Value(GetResult(Some(NotExists), b, w)) == Fetched(false, None, None)
  {
  }
}
