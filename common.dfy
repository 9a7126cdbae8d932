/** Shared vocabulary of the cache packages: optional values, outcomes that
    can fail, raw bytes, the errors the engines report and the way a call can
    end (returning or panicking). */
module Common {

  datatype Option<+T> = None | Some(value: T)

  /** The outcome of a call that returns `(value, error)`. */
  datatype Result<+T> = Ok(value: T) | Fail(error: Error)

  /** A byte of a file or of an encoded payload. */
  type Byte = b: int | 0 <= b < 256

  type Bytes = seq<Byte>

  /** `cache.ErrNotExists` is a sentinel compared by identity; every other
      error is carried by its message. */
  datatype Error = NotExists | Message(text: string)

  /** How a Go call ends: it returns normally, or it panics with a reason
      that a deferred `recover` can turn into an error. */
  datatype Completion<+R> = Returned(value: R) | Panicked(reason: string)

  /** What `GetResult.Value(obj)` reports: whether a value was found, the
      error, and the value written through `obj` (None: `obj` is untouched). */
  datatype Fetched<+V> = Fetched(has: bool, err: Option<Error>, obj: Option<V>)

  /** The error `fmt.Errorf("panic:%v", re)` built from a recovered panic. */
  function PanicError(reason: string): (e: Error)
    ensures e != NotExists
    ensures e.text == "panic:" + reason
  {
    Message("panic:" + reason)
  }

  /** The byte value of '\n'. */
  const NL: Byte := 10

  /** No element occurs twice. */
  predicate Distinct<K(==)>(s: seq<K>) {
    forall i, j :: 0 <= i < j < |s| ==> s[i] != s[j]
  }

  /** A sequence without repeats has as many distinct elements as entries. */
  lemma {:induction false} DistinctCard<K>(keys: seq<K>)
    requires Distinct(keys)
    ensures |set k | k in keys| == |keys|
  {
    if keys != [] {
      var tail := keys[1..];
      DistinctCard(tail);
      assert (set k | k in keys) == (set k | k in tail) + {keys[0]};
      assert keys[0] !in tail;
    }
  }

  /** Removing a present key shrinks a map by one. */
  lemma MapRemoveSize<K, R>(m: map<K, R>, k: K)
    requires k in m
    ensures |m - {k}| == |m| - 1
  {
    assert (m - {k}).Keys == m.Keys - {k};
  }
}
