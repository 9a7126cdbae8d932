/** The loader cache (mapcache/cache.go): a map from key to a loaded value
    with its expiry, filled on a miss by the caller's `New`. A loaded value is
    stored only if the key has no entry yet; a failure is stored only when
    `FailTTL` is positive; inserting past the capacity runs a bounded sweep.
    The clock is the parameter `now` (nanoseconds), read once per call, and
    the order in which `sync.Map.Range` visits the keys is the parameter
    `order`. */
module MapCache {
  import opened Common

  /** Capacity and ttl used when the configured ones are zero. */
  const DefaultCaption: int := 100000
  const Minute: int := 60 * 1000000000

  /** `value{payload, err, expired}`; the unused `index` field is dropped. */
  datatype Value<P> = Value(payload: P, err: Option<Error>, expired: int)

  /** `value.IsOK()`: the clock is strictly before the expiry instant. */
  predicate IsOK<P>(v: Value<P>, now: int) {
    now < v.expired
  }

  /** The keys `Range` visits other than `notKey`, in visiting order. */
  function Others<K(==, !new)>(order: seq<K>, notKey: K): (r: seq<K>)
    ensures |r| <= |order|
    ensures forall k :: k in r <==> k in order && k != notKey
  {
    if order == [] then []
    else (if order[0] == notKey then [] else [order[0]]) + Others(order[1..], notKey)
  }

  lemma {:induction false} OthersAppend<K(!new)>(a: seq<K>, b: seq<K>, notKey: K)
    ensures Others(a + b, notKey) == Others(a, notKey) + Others(b, notKey)
  {
    if a == [] {
      assert a + b == b;
    } else {
      assert (a + b)[0] == a[0] && (a + b)[1..] == a[1..] + b;
      OthersAppend(a[1..], b, notKey);
    }
  }

  /** One more visited key extends the visited list iff it is not `notKey`. */
  lemma OthersSnoc<K(!new)>(a: seq<K>, k: K, notKey: K)
    ensures Others(a + [k], notKey) == Others(a, notKey) + (if k == notKey then [] else [k])
  {
    OthersAppend(a, [k], notKey);
    assert Others([k], notKey) == (if k == notKey then [] else [k]) + Others([], notKey);
  }

  /** Without repeats in `order`, the visited keys have none either and
      only `notKey`, if present, is missing. */
  lemma {:induction false} OthersDistinct<K(!new)>(order: seq<K>, notKey: K)
    requires Distinct(order)
    ensures Distinct(Others(order, notKey))
    ensures |Others(order, notKey)| == |order| - (if notKey in order then 1 else 0)
  {
    if order != [] {
      var tail := order[1..];
      assert Distinct(tail) by {
        forall i, j | 0 <= i < j < |tail| ensures tail[i] != tail[j] {
          assert tail[i] == order[i + 1] && tail[j] == order[j + 1];
        }
      }
      assert order[0] !in tail by {
        forall j | 0 <= j < |tail| ensures tail[j] != order[0] {
          assert tail[j] == order[j + 1];
        }
      }
      assert notKey in order <==> notKey == order[0] || notKey in tail;
      OthersDistinct(tail, notKey);
    }
  }

  /** The index of the first expired entry among `keys`, or `|keys|`. */
  function FirstExpired<K(==, !new), P>(keys: seq<K>, values: map<K, Value<P>>, now: int): (h: nat)
    requires forall k :: k in keys ==> k in values
    ensures h <= |keys|
    ensures forall j :: 0 <= j < h ==> IsOK(values[keys[j]], now)
    ensures h < |keys| ==> !IsOK(values[keys[h]], now)
  {
    if keys == [] then 0
    else if !IsOK(values[keys[0]], now) then 0
    else 1 + FirstExpired(keys[1..], values, now)
  }

  /** What the sweep takes from the visited keys `others`: past an overflow
      of 10, the first five; otherwise the first expired key among the first
      four, or else the fifth key, or nothing when there are fewer than five. */
  function Chosen<K(==, !new), P>(others: seq<K>, values: map<K, Value<P>>, needDel: int, now: int): (r: seq<K>)
    requires forall k :: k in others ==> k in values
    ensures needDel > 10 ==> |r| == (if |others| < 5 then |others| else 5) && r == others[..|r|]
    ensures needDel <= 10 ==> |r| <= 1
    ensures needDel <= 10 ==>
      forall m :: m in r ==> m in others && (!IsOK(values[m], now) || (|others| >= 5 && m == others[4]))
  {
    if needDel > 10 then others[..if |others| < 5 then |others| else 5]
    else
      var first := others[..if |others| < 4 then |others| else 4];
      var h := FirstExpired(first, values, now);
      if h < |first| then [first[h]]
      else if |others| >= 5 then [others[4]]
      else []
  }

  /** The function `clear` hands to `Range`, visiting key `k` with entry `v`:
      the new `loop` count, the new list of keys to delete, and whether to go
      on. */
  function Visit<K(==), P>(notKey: K, needDel: int, now: int, k: K, v: Value<P>, loop: int, delKeys: seq<K>)
    : (int, seq<K>, bool)
  {
    if k == notKey then (loop, delKeys, true)
    else
      var loop := loop + 1;
      if needDel > 10 && loop < 5 then (loop, delKeys + [k], true)
      else if loop >= 5 then (loop, delKeys + [k], false)
      else if IsOK(v, now) then (loop, delKeys, true)
      else (loop, delKeys + [k], false)
  }

  /** The sweep takes distinct keys other than `notKey`: at most five, at most
      one for an overflow up to 10, and then exactly one once six keys exist. */
  lemma ChosenFacts<K(!new), P>(order: seq<K>, notKey: K, values: map<K, Value<P>>, needDel: int, now: int)
    requires Distinct(order) && forall k :: k in order ==> k in values
    ensures var r := Chosen(Others(order, notKey), values, needDel, now);
      && Distinct(r)
      && (forall m :: m in r ==> m in values && m != notKey)
      && |r| <= 5
      && (needDel <= 10 ==> |r| <= 1)
      && (needDel <= 10 && |order| >= 6 ==> |r| == 1)
  {
    var others := Others(order, notKey);
    OthersDistinct(order, notKey);
    var r := Chosen(others, values, needDel, now);
    if needDel > 10 {
      var n := if |others| < 5 then |others| else 5;
      assert r == others[..n];
      assert forall m :: m in r ==> m in others;
    }
  }

  /** Up to an overflow of 10 the sweep prefers an expired entry: an expired
      key among the first four visited means an expired key is taken, and it
      is the first such. */
  lemma ExpiredPreferred<K(!new), P>(others: seq<K>, values: map<K, Value<P>>, needDel: int, now: int, j: nat)
    requires needDel <= 10 && forall k :: k in others ==> k in values
    requires j < 4 && j < |others| && !IsOK(values[others[j]], now)
    ensures var r := Chosen(others, values, needDel, now);
      exists i :: 0 <= i <= j && r == [others[i]] && !IsOK(values[others[i]], now) &&
        forall i' :: 0 <= i' < i ==> IsOK(values[others[i']], now)
  {
  }

  /** Up to an overflow of 10, when the first four visited are all live the
      fifth is taken whatever its state. */
  lemma FifthWhenAllLive<K(!new), P>(others: seq<K>, values: map<K, Value<P>>, needDel: int, now: int)
    requires needDel <= 10 && forall k :: k in others ==> k in values
    requires |others| >= 5 && forall i :: 0 <= i < 4 ==> IsOK(values[others[i]], now)
    ensures Chosen(others, values, needDel, now) == [others[4]]
  {
  }

  class MapCache<K(==, !new), P> {
    const newFn: K -> (P, Option<Error>)
    const ttl: int
    const failTTL: int
    const caption: int
    var count: int
    var values: map<K, Value<P>>

    /** Calls are sequential here, so the counter is the number of entries. */
    ghost predicate Valid()
      reads this
    {
      count == |values|
    }

    /** A `MapCache{New, TTL, FailTTL, Caption}` literal. */
    constructor(newFn: K -> (P, Option<Error>), ttl: int, failTTL: int, caption: int)
      ensures Valid() && values == map[]
      ensures this.newFn == newFn && this.ttl == ttl && this.failTTL == failTTL && this.caption == caption
    {
      this.newFn := newFn;
      this.ttl := ttl;
      this.failTTL := failTTL;
      this.caption := caption;
      count := 0;
      values := map[];
    }

    /** `getCaption()`: the configured capacity, 100000 when it is zero. */
    function GetCaption(): (c: int)
      ensures caption == 0 ==> c == DefaultCaption
      ensures caption != 0 ==> c == caption
    {
      if caption == 0 then DefaultCaption else caption
    }

    /** `getTTL()`: the configured ttl, one minute when it is zero. */
    function GetTTL(): (t: int)
      ensures ttl == 0 ==> t == Minute
      ensures ttl != 0 ==> t == ttl
    {
      if ttl == 0 then Minute else ttl
    }

    /** `GetContext(key)`: a live entry is returned as stored without calling
        `New`; otherwise `New(key)` is called and its result returned
        unchanged, a success being stored with `getTTL()` and a failure with
        `FailTTL` when that is positive. An existing entry, even an expired
        one, is never replaced. */
    method GetContext(key: K, now: int, order: seq<K>) returns (payload: P, err: Option<Error>)
      requires Valid()
      requires Distinct(order) && forall k :: k in order <==> k in values || k == key
      modifies this
      ensures Valid()
      ensures key in old(values) && IsOK(old(values)[key], now) ==>
        payload == old(values)[key].payload && err == old(values)[key].err && values == old(values)
      ensures !(key in old(values) && IsOK(old(values)[key], now)) ==> (payload, err) == newFn(key)
      ensures key in old(values) ==> values == old(values)
      ensures key !in old(values) && (err.None? || failTTL > 0) ==>
        key in values && values[key] == Value(payload, err, now + (if err.None? then GetTTL() else failTTL))
      ensures key !in old(values) && err.Some? && failTTL <= 0 ==> values == old(values)
      ensures key !in old(values) && (err.None? || failTTL > 0) && |old(values)| + 1 <= GetCaption() ==>
        values == old(values)[key := Value(payload, err, now + (if err.None? then GetTTL() else failTTL))]
      ensures key !in old(values) && (err.None? || failTTL > 0) && |old(values)| + 1 > GetCaption() ==>
        var ins := old(values)[key := Value(payload, err, now + (if err.None? then GetTTL() else failTTL))];
        forall k :: k in values <==> k in ins && k !in Chosen(Others(order, key), ins, |ins| - GetCaption(), now)
      ensures forall k :: k in values ==> k == key || (k in old(values) && values[k] == old(values)[k])
      ensures GetCaption() >= 5 && |old(values)| <= GetCaption() ==> |values| <= GetCaption()
    {
      if key in values && IsOK(values[key], now) {
        return values[key].payload, values[key].err;
      }
      var r := newFn(key);
      payload, err := r.0, r.1;
      if err.None? || failTTL > 0 {
        Store(key, payload, err, if err.None? then GetTTL() else failTTL, now, order);
      }
    }

    /** `store(key, nv, err, ttl)`: insert only when the key has no entry;
        an insertion past the capacity clears `count - getCaption()` worth
        of entries, never the new one. */
    method Store(key: K, nv: P, err: Option<Error>, ttl: int, now: int, order: seq<K>)
      requires Valid()
      requires Distinct(order) && forall k :: k in order <==> k in values || k == key
      modifies this
      ensures Valid()
      ensures key in old(values) ==> values == old(values)
      ensures key !in old(values) ==> key in values && values[key] == Value(nv, err, now + ttl)
      ensures forall k :: k in values ==> k == key || (k in old(values) && values[k] == old(values)[k])
      ensures key !in old(values) && |old(values)| + 1 <= GetCaption() ==>
        values == old(values)[key := Value(nv, err, now + ttl)]
      ensures key !in old(values) && |old(values)| + 1 > GetCaption() ==>
        var ins := old(values)[key := Value(nv, err, now + ttl)];
        forall k :: k in values <==> k in ins && k !in Chosen(Others(order, key), ins, |ins| - GetCaption(), now)
      ensures key !in old(values) ==> |old(values)| + 1 - 5 <= |values| <= |old(values)| + 1
      ensures GetCaption() >= 5 && |old(values)| <= GetCaption() ==> |values| <= GetCaption()
    {
      if key in values {
        return;
      }
      values := values[key := Value(nv, err, now + ttl)];
      count := count + 1;
      var del := count - GetCaption();
      if del > 0 {
        var _ := Clear(key, del, now, order);
      }
    }

    /** The keys `clear(notKey, needDel)` collects: visit the entries in
        `order`, skipping `notKey`; past an overflow of 10 the first four
        visited are taken outright; the fifth visited, or the first expired
        one found before it, is taken and ends the sweep. */
    method Victims(notKey: K, needDel: int, now: int, order: seq<K>) returns (delKeys: seq<K>)
      requires Distinct(order) && forall k :: k in order ==> k in values
      ensures delKeys == Chosen(Others(order, notKey), values, needDel, now)
      ensures Distinct(delKeys)
      ensures forall m :: m in delKeys ==> m in values && m != notKey
      ensures |delKeys| <= 5
      ensures needDel <= 10 ==> |delKeys| <= 1
      ensures needDel <= 10 && |order| >= 6 ==> |delKeys| == 1
    {
      delKeys := [];
      var loop := 0;
      var stop := false;
      var i := 0;
      ghost var seen: seq<K> := [];
      assert order[..0] == [];
      while i < |order| && !stop
        invariant i <= |order| && Swept(notKey, needDel, now, order, i, seen, loop, delKeys, stop)
      {
        var k := order[i];
        var next := Visit(notKey, needDel, now, k, values[k], loop, delKeys);
        VisitKeeps(notKey, needDel, now, order, i, seen, loop, delKeys);
        seen := seen + (if k == notKey then [] else [k]);
        loop, delKeys, stop := next.0, next.1, !next.2;
        i := i + 1;
      }
      SweepEnd(notKey, needDel, now, order, i, seen, stop);
      ChosenFacts(order, notKey, values, needDel, now);
    }

    /** What the sweep knows after visiting `order[..i]`: `seen` are the keys
        visited other than `notKey`, `loop` counts them, and `delKeys` holds
        what was taken so far. */
    ghost predicate Swept(notKey: K, needDel: int, now: int, order: seq<K>, i: nat, seen: seq<K>,
                          loop: int, delKeys: seq<K>, stop: bool)
      reads this
    {
      && i <= |order|
      && seen == Others(order[..i], notKey) && loop == |seen|
      && (forall k :: k in seen ==> k in values)
      && (needDel > 10 ==> delKeys == seen && (if stop then loop == 5 else loop <= 4))
      && (needDel <= 10 && !stop ==> delKeys == [] && loop <= 4 && AllLive(seen, now))
      && (needDel <= 10 && stop ==>
            1 <= loop <= 5 && delKeys == [seen[loop - 1]] && AllLive(seen[..loop - 1], now) &&
            (loop == 5 || !IsOK(values[seen[loop - 1]], now)))
    }

    /** One visit keeps what the sweep knows. */
    lemma VisitKeeps(notKey: K, needDel: int, now: int, order: seq<K>, i: nat, seen: seq<K>,
                     loop: int, delKeys: seq<K>)
      requires i < |order| && order[i] in values
      requires Swept(notKey, needDel, now, order, i, seen, loop, delKeys, false)
      ensures var k := order[i]; var next := Visit(notKey, needDel, now, k, values[k], loop, delKeys);
        Swept(notKey, needDel, now, order, i + 1, seen + (if k == notKey then [] else [k]), next.0, next.1, !next.2)
    {
      var k := order[i];
      assert order[..i + 1] == order[..i] + [k];
      OthersSnoc(order[..i], k, notKey);
      if k != notKey {
        assert (seen + [k])[..loop] == seen;
      }
    }

    /** Every key listed has a live entry. */
    ghost predicate AllLive(keys: seq<K>, now: int)
      reads this
    {
      forall j :: 0 <= j < |keys| ==> keys[j] in values && IsOK(values[keys[j]], now)
    }

    /** Where the sweep stopped gives its choice among all the visited keys. */
    lemma SweepEnd(notKey: K, needDel: int, now: int, order: seq<K>, i: nat, seen: seq<K>, stop: bool)
      requires Distinct(order) && forall k :: k in order ==> k in values
      requires i <= |order| && (!stop ==> i == |order|)
      requires seen == Others(order[..i], notKey) && forall k :: k in seen ==> k in values
      requires needDel > 10 ==> if stop then |seen| == 5 else |seen| <= 4
      requires needDel <= 10 && !stop ==> |seen| <= 4 && AllLive(seen, now)
      requires needDel <= 10 && stop ==>
        1 <= |seen| <= 5 && AllLive(seen[..|seen| - 1], now) &&
        (|seen| == 5 || !IsOK(values[seen[|seen| - 1]], now))
      ensures var r := Chosen(Others(order, notKey), values, needDel, now);
        && (needDel > 10 ==> r == seen)
        && (needDel <= 10 ==> r == if stop then [seen[|seen| - 1]] else [])
    {
      var others := Others(order, notKey);
      assert order == order[..i] + order[i..];
      OthersAppend(order[..i], order[i..], notKey);
      assert others[..|seen|] == seen;
      if !stop {
        assert order[..i] == order;
      }
      if needDel <= 10 {
        ChosenAfterSweep(seen, others, needDel, now, stop);
      }
    }

    /** The sweep's stopping point determines its choice among all the keys. */
    lemma ChosenAfterSweep(seen: seq<K>, others: seq<K>, needDel: int, now: int, stop: bool)
      requires needDel <= 10 && forall k :: k in others ==> k in values
      requires |seen| <= |others| && others[..|seen|] == seen
      requires !stop ==> seen == others && |seen| <= 4 && AllLive(seen, now)
      requires stop ==>
        1 <= |seen| <= 5 && AllLive(seen[..|seen| - 1], now) &&
        (|seen| == 5 || !IsOK(values[seen[|seen| - 1]], now))
      ensures Chosen(others, values, needDel, now) == if stop then [seen[|seen| - 1]] else []
    {
      var first := others[..if |others| < 4 then |others| else 4];
      var h := FirstExpired(first, values, now);
      if stop && |seen| < 5 {
        assert first[..|seen|] == seen;
        assert h == |seen| - 1;
      } else {
        assert first[..|seen| - (if stop then 1 else 0)] == seen[..|seen| - (if stop then 1 else 0)];
        assert h == |first|;
      }
    }

    /** `clear(notKey, needDel)`: delete the collected keys. */
    method Clear(notKey: K, needDel: int, now: int, order: seq<K>) returns (delKeys: seq<K>)
      requires Valid() && notKey in values
      requires Distinct(order) && forall k :: k in order <==> k in values
      modifies this
      ensures Valid()
      ensures delKeys == Chosen(Others(order, notKey), old(values), needDel, now)
      ensures forall k :: k in values <==> k in old(values) && k !in delKeys
      ensures forall k :: k in values ==> values[k] == old(values)[k]
      ensures notKey in values
      ensures |old(values)| - 5 <= |values| <= |old(values)|
      ensures needDel <= 10 ==> |old(values)| - 1 <= |values|
      ensures needDel <= 10 && |old(values)| >= 6 ==> |values| == |old(values)| - 1
    {
      assert |order| == |values| by {
        assert (set k | k in order) == values.Keys;
        DistinctCard(order);
      }
      delKeys := Victims(notKey, needDel, now, order);
      DeleteAll(delKeys);
    }

    /** The deletion loop of `clear`: each listed key, all present and
        distinct, is deleted in turn. */
    method DeleteAll(keys: seq<K>)
      requires Valid() && Distinct(keys) && forall m :: m in keys ==> m in values
      modifies this
      ensures Valid()
      ensures forall m :: m in values <==> m in old(values) && m !in keys
      ensures forall m :: m in values ==> values[m] == old(values)[m]
      ensures |values| == |old(values)| - |keys|
    {
      ghost var v0 := values;
      for j := 0 to |keys|
        invariant Valid()
        invariant forall m :: m in values <==> m in v0 && m !in keys[..j]
        invariant forall m :: m in values ==> values[m] == v0[m]
        invariant |values| == |v0| - j
      {
        assert keys[..j + 1] == keys[..j] + [keys[j]];
        assert keys[j] !in keys[..j];
        var _ := Delete(keys[j]);
      }
      assert keys[..|keys|] == keys;
    }

    /** `Delete(key)`: 1, with the counter decremented, iff the key had an entry. */
    method Delete(key: K) returns (n: int)
      requires Valid()
      modifies this
      ensures Valid()
      ensures n == (if key in old(values) then 1 else 0)
      ensures values == old(values) - {key}
    {
      if key !in values {
        assert values - {key} == values;
        return 0;
      }
      MapRemoveSize(values, key);
      values := values - {key};
      count := count - 1;
      return 1;
    }
  }
}
