/** The chain of caches (chains/chains.go): an ordered list of tiers, each a
    single-key cache with its own ttl rule. Reads stop at the first tier
    that reports presence; writes, deletions and resets go to every tier
    and report what the last tier said. Each tier's state is a value the
    chain keeps in `tiers` and replaces as the tier's calls return; a `nil`
    value is `None`, and an empty chain's `nil` result is `None` too. */
module Chains {
  import opened Common
  import opened Results

  /** The index of the first element satisfying `p`, or `|xs|` when none does. */
  function FirstHit<T>(xs: seq<T>, p: T -> bool): (h: nat)
    ensures h <= |xs|
    ensures forall j :: 0 <= j < h ==> !p(xs[j])
    ensures h < |xs| ==> p(xs[h])
  {
    if xs == [] then 0
    else if p(xs[0]) then 0
    else 1 + FirstHit(xs[1..], p)
  }

  /** `HasResult.Has()`. */
  predicate Present(r: HasResult) {
    r.has
  }

  /** `sChains`: `getOp`, `setOp`, ... are the tier's own single-key calls,
      `reports` is whether a Get result reports presence, and `ttlFns[i]` is
      tier i's `setTTLFn`. */
  class SChains<S, K, V, G> {
    const getOp: (S, K) -> (S, G)
    const reports: G -> bool
    const setOp: (S, K, Option<V>, int) -> (S, SetResult)
    const hasOp: (S, K) -> (S, HasResult)
    const deleteOp: (S, K) -> (S, DeleteResult)
    const resetOp: S -> (S, Option<Error>)
    const ttlFns: seq<int -> int>
    var tiers: seq<S>

    ghost predicate Valid()
      reads this
    {
      |tiers| == |ttlFns|
    }

    constructor(getOp: (S, K) -> (S, G), reports: G -> bool, setOp: (S, K, Option<V>, int) -> (S, SetResult),
                hasOp: (S, K) -> (S, HasResult), deleteOp: (S, K) -> (S, DeleteResult),
                resetOp: S -> (S, Option<Error>), ttlFns: seq<int -> int>, tiers: seq<S>)
      requires |tiers| == |ttlFns|
      ensures Valid() && this.tiers == tiers && this.ttlFns == ttlFns
      ensures this.getOp == getOp && this.reports == reports && this.setOp == setOp
      ensures this.hasOp == hasOp && this.deleteOp == deleteOp && this.resetOp == resetOp
    {
      this.getOp := getOp;
      this.reports := reports;
      this.setOp := setOp;
      this.hasOp := hasOp;
      this.deleteOp := deleteOp;
      this.resetOp := resetOp;
      this.ttlFns := ttlFns;
      this.tiers := tiers;
    }

    /** What each tier's Get reports, every tier queried on the state `ts` gives. */
    function GetReports(ts: seq<S>, key: K): (rs: seq<G>)
      ensures |rs| == |ts| && forall j :: 0 <= j < |ts| ==> rs[j] == getOp(ts[j], key).1
    {
      seq(|ts|, j requires 0 <= j < |ts| => getOp(ts[j], key).1)
    }

    function HasReports(ts: seq<S>, key: K): (rs: seq<HasResult>)
      ensures |rs| == |ts| && forall j :: 0 <= j < |ts| ==> rs[j] == hasOp(ts[j], key).1
    {
      seq(|ts|, j requires 0 <= j < |ts| => hasOp(ts[j], key).1)
    }

    /** `Get(key)`: tiers are queried front to back up to the first hit `h`,
        whose result is returned. On a hit at h > 0 every tier before it
        then receives `Set(key, nil, 0)`; without a hit the last tier's
        result is returned and nothing is written. Tiers after the hit are
        not touched. */
    method Get(key: K) returns (result: Option<G>)
      modifies this
      ensures var n := |old(tiers)|; var h := FirstHit(GetReports(old(tiers), key), reports);
        && |tiers| == n
        && (n == 0 <==> result.None?)
        && (h < n ==> result == Some(getOp(old(tiers)[h], key).1))
        && (h == n && n > 0 ==> result == Some(getOp(old(tiers)[n - 1], key).1))
        && (forall j :: 0 <= j < n && j < h && h < n ==>
              tiers[j] == setOp(getOp(old(tiers)[j], key).0, key, None, 0).0)
        && (forall j :: 0 <= j < n && (j == h || h == n) ==> tiers[j] == getOp(old(tiers)[j], key).0)
        && (forall j :: h < j < n ==> tiers[j] == old(tiers)[j])
    {
      ghost var t0 := tiers;
      ghost var rs := GetReports(t0, key);
      var n := |tiers|;
      var index := 0;
      var hit := false;
      var i := 0;
      result := None;
      while i < n && !hit
        invariant 0 <= i <= n == |tiers| == |t0|
        invariant forall j :: 0 <= j < i && !(hit && j == i - 1) ==> !reports(rs[j])
        invariant hit ==> i > 0 && index == i - 1 && reports(rs[index])
        invariant !hit ==> index == 0
        invariant forall j :: 0 <= j < i ==> tiers[j] == getOp(t0[j], key).0
        invariant forall j :: i <= j < n ==> tiers[j] == t0[j]
        invariant i == 0 <==> result.None?
        invariant i > 0 ==> result == Some(rs[i - 1])
      {
        var next := getOp(tiers[i], key);
        tiers := tiers[i := next.0];
        result := Some(next.1);
        if reports(next.1) {
          index := i;
          hit := true;
        }
        i := i + 1;
      }
      assert hit ==> index == FirstHit(rs, reports);
      assert !hit ==> FirstHit(rs, reports) == n;
      ghost var t1 := tiers;
      for j := 0 to index
        invariant |tiers| == n
        invariant forall m :: 0 <= m < j ==> tiers[m] == setOp(t1[m], key, None, 0).0
        invariant forall m :: j <= m < n ==> tiers[m] == t1[m]
      {
        var next := setOp(tiers[j], key, None, 0);
        tiers := tiers[j := next.0];
      }
    }

    /** `Set(key, value, ttl)`: every tier is written in order with its own
        `setTTLFn(ttl)`; the last tier's result is returned, earlier failures
        are neither undone nor reported. */
    method Set(key: K, value: Option<V>, ttl: int) returns (result: Option<SetResult>)
      requires Valid()
      modifies this
      ensures Valid()
      ensures var n := |old(tiers)|;
        && |tiers| == n
        && (forall j :: 0 <= j < n ==> tiers[j] == setOp(old(tiers)[j], key, value, ttlFns[j](ttl)).0)
        && (n == 0 ==> result.None?)
        && (n > 0 ==> result == Some(setOp(old(tiers)[n - 1], key, value, ttlFns[n - 1](ttl)).1))
    {
      ghost var t0 := tiers;
      result := None;
      for i := 0 to |tiers|
        invariant |tiers| == |t0| == |ttlFns|
        invariant forall j :: 0 <= j < i ==> tiers[j] == setOp(t0[j], key, value, ttlFns[j](ttl)).0
        invariant forall j :: i <= j < |tiers| ==> tiers[j] == t0[j]
        invariant i == 0 ==> result.None?
        invariant i > 0 ==> result == Some(setOp(t0[i - 1], key, value, ttlFns[i - 1](ttl)).1)
      {
        var next := setOp(tiers[i], key, value, ttlFns[i](ttl));
        tiers := tiers[i := next.0];
        result := Some(next.1);
      }
    }

    /** `Has(key)`: tiers are asked front to back; the first that reports
        presence answers and the later ones are not asked; without one the
        last tier's answer is returned. */
    method Has(key: K) returns (result: Option<HasResult>)
      modifies this
      ensures var n := |old(tiers)|; var h := FirstHit(HasReports(old(tiers), key), Present);
        && |tiers| == n
        && (n == 0 <==> result.None?)
        && (h < n ==> result == Some(hasOp(old(tiers)[h], key).1) && result.value.has)
        && (h == n && n > 0 ==> result == Some(hasOp(old(tiers)[n - 1], key).1) && !result.value.has)
        && (forall j :: 0 <= j < n && j <= h ==> tiers[j] == hasOp(old(tiers)[j], key).0)
        && (forall j :: h < j < n ==> tiers[j] == old(tiers)[j])
    {
      ghost var t0 := tiers;
      ghost var rs := HasReports(t0, key);
      var n := |tiers|;
      var i := 0;
      result := None;
      while i < n
        invariant 0 <= i <= n == |tiers| == |t0|
        invariant forall j :: 0 <= j < i ==> !Present(rs[j])
        invariant forall j :: 0 <= j < i ==> tiers[j] == hasOp(t0[j], key).0
        invariant forall j :: i <= j < n ==> tiers[j] == t0[j]
        invariant i == 0 <==> result.None?
        invariant i > 0 ==> result == Some(rs[i - 1])
      {
        var next := hasOp(tiers[i], key);
        tiers := tiers[i := next.0];
        result := Some(next.1);
        if next.1.has {
          assert FirstHit(rs, Present) == i;
          return;
        }
        i := i + 1;
      }
      assert FirstHit(rs, Present) == n;
    }

    /** `Delete(key)`: every tier deletes; the last tier's result is returned. */
    method Delete(key: K) returns (result: Option<DeleteResult>)
      modifies this
      ensures var n := |old(tiers)|;
        && |tiers| == n
        && (forall j :: 0 <= j < n ==> tiers[j] == deleteOp(old(tiers)[j], key).0)
        && (n == 0 ==> result.None?)
        && (n > 0 ==> result == Some(deleteOp(old(tiers)[n - 1], key).1))
    {
      ghost var t0 := tiers;
      result := None;
      for i := 0 to |tiers|
        invariant |tiers| == |t0|
        invariant forall j :: 0 <= j < i ==> tiers[j] == deleteOp(t0[j], key).0
        invariant forall j :: i <= j < |tiers| ==> tiers[j] == t0[j]
        invariant i == 0 ==> result.None?
        invariant i > 0 ==> result == Some(deleteOp(t0[i - 1], key).1)
      {
        var next := deleteOp(tiers[i], key);
        tiers := tiers[i := next.0];
        result := Some(next.1);
      }
    }

    /** `Reset()`: every tier resets; only the last tier's error is returned. */
    method Reset() returns (err: Option<Error>)
      modifies this
      ensures var n := |old(tiers)|;
        && |tiers| == n
        && (forall j :: 0 <= j < n ==> tiers[j] == resetOp(old(tiers)[j]).0)
        && (n == 0 ==> err.None?)
        && (n > 0 ==> err == resetOp(old(tiers)[n - 1]).1)
    {
      ghost var t0 := tiers;
      err := None;
      for i := 0 to |tiers|
        invariant |tiers| == |t0|
        invariant forall j :: 0 <= j < i ==> tiers[j] == resetOp(t0[j]).0
        invariant forall j :: i <= j < |tiers| ==> tiers[j] == t0[j]
        invariant i == 0 ==> err.None?
        invariant i > 0 ==> err == resetOp(t0[i - 1]).1
      {
        var next := resetOp(tiers[i]);
        tiers := tiers[i := next.0];
        err := next.1;
      }
    }
  }
}
