/** The LRU engine (lrucache/s_cache.go, lrucache/value.go): a map from key
    to its record and a recency list of keys, most recent first. Expiry is
    checked only when a key is accessed; when a new key pushes the list past
    the capacity, the least recent record is evicted. */
module LruCache {
  import opened Common
  import opened Results

  /** `value{Key, Data, ExpireAt}`: the record of one key. It carries its own
      key so that evicting the list's tail can find the map entry. */
  datatype Entry<K, V> = Entry(key: K, data: V, expireAt: int)

  /** `value.Expired()`: the clock is strictly after the expiry instant. */
  predicate Expired<K, V>(e: Entry<K, V>, now: int) {
    now > e.expireAt
  }

  /** An entry is live at its expiry instant and expired just after it;
      its key and data play no part. */
  lemma ExpiryBoundary<K, V>(e: Entry<K, V>, k: K, d: V, now: int)
    ensures !Expired(e, e.expireAt) && Expired(e, e.expireAt + 1)
    ensures Expired(e, now) == Expired(Entry(k, d, e.expireAt), now)
  {
  }

  /** The list with `k` taken out (`list.Remove` of k's element). */
  function Without<K(==, !new)>(s: seq<K>, k: K): (r: seq<K>)
    ensures forall x :: x in r <==> x in s && x != k
    ensures Distinct(s) ==> Distinct(r) && |r| == |s| - (if k in s then 1 else 0)
    ensures k !in s ==> r == s
  {
    if s == [] then []
    else if s[0] == k then Without(s[1..], k)
    else
      var r := [s[0]] + Without(s[1..], k);
      assert Distinct(s) ==> s[0] !in s[1..];
      r
  }

  /** The decoder `newUnmarshaler(val)` hands out: it ignores the bytes and
      yields the stored value. */
  function Assign<V>(v: V): (u: Unmarshaler<V>)
    ensures forall b :: u(b) == Ok(v)
  {
    (b: Bytes) => Ok(v)
  }

  function Max(a: int, b: int): int {
    if a >= b then a else b
  }

  class SCache<K(==, !new), V> {
    const capacity: int
    var data: map<K, Entry<K, V>>
    var list: seq<K>

    /** The map and the list hold the same keys, each once, and each record
        carries the key it is filed under. */
    ghost predicate Consistent()
      reads this
    {
      && Distinct(list)
      && (forall k :: k in data <==> k in list)
      && (forall k :: k in data ==> data[k].key == k)
    }

    /** ...and the list never exceeds the capacity (none is kept when the
        capacity is below 1). */
    ghost predicate Valid()
      reads this
    {
      Consistent() && |list| <= Max(capacity, 0)
    }

    /** `NewSCache(capacity)` followed by its `Reset()`. The capacity is not
        validated here. */
    constructor(capacity: int)
      ensures Valid() && this.capacity == capacity && data == map[] && list == []
    {
      this.capacity := capacity;
      data := map[];
      list := [];
    }

    /** `Get(key)`: a miss changes nothing; an expired record is dropped; a
        live one moves to the front and its value is handed out. */
    method Get(key: K, now: int) returns (r: GetResult<V>)
      requires Valid()
      modifies this
      ensures Valid()
      ensures key !in old(data) ==>
        r == GetResult(Some(NotExists), [], None) && data == old(data) && list == old(list)
      ensures key in old(data) && Expired(old(data)[key], now) ==>
        r == GetResult(Some(NotExists), [], None) && data == old(data) - {key} && list == Without(old(list), key)
      ensures key in old(data) && !Expired(old(data)[key], now) ==>
        Value(r) == Fetched(true, None, Some(old(data)[key].data)) &&
        data == old(data) && list == [key] + Without(old(list), key) && |list| == |old(list)|
    {
      if key !in data {
        return GetResult(Some(NotExists), [], None);
      }
      var e := data[key];
      if Expired(e, now) {
        list := Without(list, key);
        data := data - {key};
        return GetResult(Some(NotExists), [], None);
      }
      list := [key] + Without(list, key);
      r := GetResult(None, [], Some(Assign(e.data)));
    }

    /** `Set(key, val, ttl)`: an existing key gets the new record and moves to
        the front; a new key is pushed to the front and, past the capacity,
        the tail is evicted. */
    method Set(key: K, val: V, ttl: int, now: int) returns (r: SetResult)
      requires Valid()
      modifies this
      ensures Valid() && r == SetResult(None)
      ensures key in old(data) ==>
        data == old(data)[key := Entry(key, val, now + ttl)] && list == [key] + Without(old(list), key)
      ensures key !in old(data) && |old(list)| + 1 <= capacity ==>
        data == old(data)[key := Entry(key, val, now + ttl)] && list == [key] + old(list)
      ensures key !in old(data) && |old(list)| + 1 > capacity ==>
        var pushed := [key] + old(list);
        list == pushed[..|pushed| - 1] && data == old(data)[key := Entry(key, val, now + ttl)] - {pushed[|pushed| - 1]}
      ensures capacity >= 1 ==> key in data && data[key] == Entry(key, val, now + ttl) && list[0] == key
    {
      var e := Entry(key, val, now + ttl);
      if key in data {
        data := data[key := e];
        list := [key] + Without(list, key);
        return SetResult(None);
      }
      list := [key] + list;
      data := data[key := e];
      if |list| > capacity {
        WeedOut();
      }
      return SetResult(None);
    }

    /** `weedOut()`: drop the least recent record from the list and, through
        the key it carries, from the map. */
    method WeedOut()
      requires Consistent()
      modifies this
      ensures Consistent()
      ensures old(list) == [] ==> list == [] && data == old(data)
      ensures old(list) != [] ==>
        list == old(list)[..|old(list)| - 1] && data == old(data) - {old(list)[|old(list)| - 1]}
    {
      if list == [] {
        return;
      }
      var back := list[|list| - 1];
      data := data - {data[back].key};
      list := list[..|list| - 1];
    }

    /** `Has(key)`: true iff the key holds a live record; in every case the
        key's record is gone afterwards. */
    method Has(key: K, now: int) returns (r: HasResult)
      requires Valid()
      modifies this
      ensures Valid()
      ensures r.err.None?
      ensures r.has <==> key in old(data) && !Expired(old(data)[key], now)
      ensures data == old(data) - {key} && list == Without(old(list), key)
    {
      var has := key in data;
      if has {
        if Expired(data[key], now) {
          var _ := Delete(key);
          has := false;
        }
      }
      if has {
        data := data - {key};
        list := Without(list, key);
      }
      return HasResult(None, has);
    }

    /** `Delete(key)`: 1 when the key was present. */
    method Delete(key: K) returns (r: DeleteResult)
      requires Valid()
      modifies this
      ensures Valid()
      ensures r == DeleteResult(None, if key in old(data) then 1 else 0)
      ensures data == old(data) - {key} && list == Without(old(list), key)
    {
      if key !in data {
        return DeleteResult(None, 0);
      }
      data := data - {key};
      list := Without(list, key);
      return DeleteResult(None, 1);
    }

    /** `Reset()`: empty both the map and the list. */
    method Reset()
      modifies this
      ensures Valid() && data == map[] && list == []
    {
      data := map[];
      list := [];
    }
  }
}
