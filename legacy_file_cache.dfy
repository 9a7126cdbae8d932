/** The older file engine (filecache/file.go): the same layout on disk and
    the same publish-by-rename write as the current engine, with the
    seconds-based record of `LegacyRecord`, no garbage collection and no
    reset. */
module LegacyFileCache {
  import opened Common
  import opened Strconv
  import opened LegacyRecord
  import opened FileOption
  import opened FileSystem
  import opened Results
  import FileCache

  class LegacySCache<K, V> {
    const opt: Options
    const sprint: K -> string
    const md5Hex: string -> Digest
    const marshal: V -> Result<Bytes>
    const unmarshal: Unmarshaler<V>
    const disk: Disk

    constructor(opt: Options, sprint: K -> string, md5Hex: string -> Digest,
                marshal: V -> Result<Bytes>, unmarshal: Unmarshaler<V>, disk: Disk)
      ensures this.opt == opt && this.sprint == sprint && this.md5Hex == md5Hex
      ensures this.marshal == marshal && this.unmarshal == unmarshal && this.disk == disk
    {
      this.opt := opt;
      this.sprint := sprint;
      this.md5Hex := md5Hex;
      this.marshal := marshal;
      this.unmarshal := unmarshal;
      this.disk := disk;
    }

    /** `opt.CachePath(key)`. */
    function PathOf(key: K): Path
    {
      CachePath(opt, md5Hex(sprint(key)))
    }

    /** `read(key, needData)` on the current disk. */
    function Read(key: K, needData: bool, f: Faults): LegacyRead
      reads disk
    {
      ReadLegacy(Lookup(disk.files, PathOf(key)), f.read(PathOf(key)), needData)
    }

    /** `Get(key)` at the clock `now` (nanoseconds): a record whose expiry
        second is before the current second is deleted and reported missing. */
    method Get(key: K, now: int, f: Faults) returns (r: GetResult<V>)
      modifies disk
      ensures var fp := PathOf(key); var rd := old(Read(key, true, f));
        && (rd.err.Some? ==> r == GetResult(rd.err, [], None) && disk.files == old(disk.files))
        && (rd.err.None? && GetExpired(rd.expireAt, now / Second) ==>
              r == GetResult(Some(NotExists), [], None) &&
              disk.files == if f.remove(fp).None? then old(disk.files) - {fp} else old(disk.files))
        && (rd.err.None? && !GetExpired(rd.expireAt, now / Second) ==>
              rd.data.Some? && r == GetResult(None, rd.data.value, Some(unmarshal)) && disk.files == old(disk.files))
    {
      var rd := Read(key, true, f);
      if rd.err.Some? {
        return GetResult(rd.err, [], None);
      }
      if rd.expireAt < now / Second {
        var _ := Delete(key, f);
        return GetResult(Some(NotExists), [], None);
      }
      return GetResult(None, rd.data.value, Some(unmarshal));
    }

    /** `Set(key, value, ttl)`: the expiry is the Unix second of `now + ttl`. */
    method Set(key: K, value: V, ttl: int, now: int, tmpSuffix: string, f: Faults) returns (r: SetResult)
      requires FileCache.TempSuffix(tmpSuffix) && PathOf(key) + tmpSuffix !in disk.files
      modifies disk
      ensures var fp := PathOf(key); var tmp := fp + tmpSuffix;
        && (marshal(value).Fail? ==> r == SetResult(Some(marshal(value).error)) && disk.files == old(disk.files))
        && (marshal(value).Ok? ==> r == SetResult(PublishError(f)))
        && (marshal(value).Ok? && r.err.None? ==>
              disk.files == old(disk.files)[fp := EncodeLegacy((now + ttl) / Second, marshal(value).value)])
        && (r.err.Some? ==> disk.files - {tmp} == old(disk.files) && Lookup(disk.files, fp) == Lookup(old(disk.files), fp))
        && (r.err.Some? && (f.create.Some? || f.remove(tmp).None?) ==> disk.files == old(disk.files))
    {
      var fp := PathOf(key);
      var tmp := fp + tmpSuffix;
      assert tmp != fp by {
        assert |tmp| > |fp|;
      }
      match marshal(value) {
        case Fail(e) =>
          r := SetResult(Some(e));
        case Ok(msg) =>
          var err := Publish(disk, fp, tmp, EncodeLegacy((now + ttl) / Second, msg), f);
          r := SetResult(err);
      }
    }

    /** `Has(key)`: present iff the current second is before the expiry second. */
    method Has(key: K, now: int, f: Faults) returns (r: HasResult)
      ensures var rd := Read(key, false, f);
        r == if rd.err.Some? then HasResult(rd.err, false) else HasResult(None, HasLive(rd.expireAt, now / Second))
    {
      var rd := Read(key, false, f);
      if rd.err.Some? {
        return HasResult(rd.err, false);
      }
      if now / Second < rd.expireAt {
        return HasResult(None, true);
      }
      return HasResult(None, false);
    }

    /** `Delete(key)`: 1 when the record existed and was removed. */
    method Delete(key: K, f: Faults) returns (r: DeleteResult)
      modifies disk
      ensures var fp := PathOf(key);
        && (fp !in old(disk.files) ==> r == DeleteResult(None, 0) && disk.files == old(disk.files))
        && (fp in old(disk.files) && f.remove(fp).None? ==> r == DeleteResult(None, 1) && disk.files == old(disk.files) - {fp})
        && (fp in old(disk.files) && f.remove(fp).Some? ==> r == DeleteResult(f.remove(fp), 0) && disk.files == old(disk.files))
    {
      var fp := PathOf(key);
      var num, err := Unlink(disk, fp, f.remove(fp));
      r := DeleteResult(err, num);
    }
  }

  /** `New(opt)`: refuse a configuration `Check` rejects. */
  method New<K, V>(opt: Options, embedded: Option<Error>, sprint: K -> string, md5Hex: string -> Digest,
                   marshal: V -> Result<Bytes>, unmarshal: Unmarshaler<V>, disk: Disk)
    returns (c: Option<LegacySCache<K, V>>, err: Option<Error>)
    ensures err == Check(opt, embedded)
    ensures c.Some? <==> err.None?
    ensures c.Some? ==> fresh(c.value) && c.value.opt == opt && c.value.disk == disk
  {
    err := Check(opt, embedded);
    if err.Some? {
      return None, err;
    }
    var s := new LegacySCache(opt, sprint, md5Hex, marshal, unmarshal, disk);
    return Some(s), None;
  }

  /** With every I/O call succeeding, a codec that round-trips and an encoded
      value that is one short line, a value written by `Set` is read back by
      `Get` until its expiry second has passed. */
  method SetThenGet<K, V>(c: LegacySCache<K, V>, key: K, v: V, ttl: int, now: int, later: int, tmpSuffix: string, f: Faults)
    returns (r: GetResult<V>)
    requires FileCache.TempSuffix(tmpSuffix) && c.PathOf(key) + tmpSuffix !in c.disk.files
    requires f.create.None? && f.flush.None? && f.close.None? && f.rename.None? && f.read(c.PathOf(key)).None?
    requires c.marshal(v).Ok? && c.unmarshal(c.marshal(v).value) == Ok(v)
    requires var msg := c.marshal(v).value; NL !in msg && 0 < |msg| < BufSize
    requires IsInt64(now + ttl) && later / Second <= (now + ttl) / Second
    modifies c.disk
    ensures Value(r) == Fetched(true, None, Some(v))
  {
    var s := c.Set(key, v, ttl, now, tmpSuffix, f);
    assert IsInt64((now + ttl) / Second);
    LegacyRoundTrip((now + ttl) / Second, c.marshal(v).value);
    r := c.Get(key, later, f);
  }

  /** At the expiry second itself, `Get` still serves a record that `Has`
      reports absent. */
  method ExpirySecond<K, V>(c: LegacySCache<K, V>, key: K, msg: Bytes, now: int, f: Faults)
    returns (g: GetResult<V>, h: HasResult)
    requires IsInt64(now / Second) && NL !in msg && 0 < |msg| < BufSize
    requires Lookup(c.disk.files, c.PathOf(key)) == Some(EncodeLegacy(now / Second, msg))
    requires f.read(c.PathOf(key)).None?
    modifies c.disk
    ensures g == GetResult(None, msg, Some(c.unmarshal)) && h == HasResult(None, false)
  {
    LegacyRoundTrip(now / Second, msg);
    g := c.Get(key, now, f);
    h := c.Has(key, now, f);
  }
}
