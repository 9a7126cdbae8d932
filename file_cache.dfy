/** The current file engine (filecache/s_cache.go): one record file per key
    under the cache directory, lazy expiry on access, a publish-by-rename
    write, a `.cache`-filtered reset, and an opportunistic collection of
    foreign and orphaned files. */
module FileCache {
  import opened Common
  import opened Strconv
  import opened Record
  import opened FileOption
  import opened FileSystem
  import opened Results

  /** The panic `filepath.Walk` provokes when the root cannot be read: the
      walk function is called with a nil `FileInfo` and calls `IsDir` on it. */
  const NilInfo: string := "runtime error: invalid memory address or nil pointer dereference"

  /** `p` lies below the directory `dir`. */
  predicate InDir(p: Path, dir: string) {
    |p| > |Root(dir)| && p[..|Root(dir)|] == Root(dir)
  }

  /** The decision `checkFile` takes for the file at `fp`: never a `.cache`
      file; any other file only if reading it says "expired" (which includes
      every file that cannot be read or parsed). */
  predicate Reclaimable(fp: Path, content: Option<Bytes>, readErr: Option<Error>, now: int) {
    !HasSuffix(fp, CacheFileExt) && ReadByPath(content, readErr, false, now).value.expire
  }

  /** `ioutil.TempFile` names the temp file after the record's path followed
      by a decimal random number, so a temp file never looks like a record. */
  predicate TempSuffix(s: string) {
    |s| > 0 && forall i :: 0 <= i < |s| ==> '0' <= s[i] <= '9'
  }

  lemma TempNameIsNotRecord(fp: Path, suffix: string)
    requires TempSuffix(suffix)
    ensures !HasSuffix(fp + suffix, CacheFileExt)
  {
    var p := fp + suffix;
    assert p[|p| - 1] == suffix[|suffix| - 1] != 'e';
    assert |p| >= |CacheFileExt| ==> p[|p| - |CacheFileExt|..][5] == p[|p| - 1];
  }

  /** A record path is never collected, whatever it holds. */
  lemma RecordPathNeverReclaimed(o: Options, s: Digest, content: Option<Bytes>, readErr: Option<Error>, now: int)
    ensures !Reclaimable(CachePath(o, s), content, readErr, now)
  {
  }

  /** A missing file is never collected. */
  lemma MissingNeverReclaimed(fp: Path, readErr: Option<Error>, now: int)
    ensures !Reclaimable(fp, None, readErr, now)
  {
  }

  /** A file that is not a record path holding a complete record is collected
      iff its expiry has passed. */
  lemma WellFormedReclaimedIffExpired(fp: Path, expireAt: int, ctime: int, msg: Bytes, now: int)
    requires IsInt64(expireAt) && !HasSuffix(fp, CacheFileExt)
    ensures Reclaimable(fp, Some(Encode(expireAt, ctime, msg)), None, now) <==> expireAt < now
  {
    ReadRoundTrip(expireAt, ctime, msg, false, now);
  }

  /** A foreign file without a line break is collected at once. */
  lemma CorruptForeignFileReclaimed(fp: Path, s: Bytes, now: int)
    requires NL !in s && !HasSuffix(fp, CacheFileExt)
    ensures Reclaimable(fp, Some(s), None, now)
  {
    SingleLineIsCorrupt(s, false, now);
  }

  /** The files `Reset` removes (when removal succeeds): the `.cache` files
      below the directory. */
  function ResetTargets(files: map<Path, Bytes>, dir: string): (t: set<Path>)
    ensures forall p :: p in t <==> p in files && InDir(p, dir) && HasSuffix(p, CacheFileExt)
  {
    set p | p in files && InDir(p, dir) && HasSuffix(p, CacheFileExt)
  }

  /** The files a sweep removes (when removal succeeds). */
  function GcTargets(files: map<Path, Bytes>, dir: string, read: Path -> Option<Error>, now: int): (t: set<Path>)
    ensures forall p :: p in t <==> p in files && InDir(p, dir) && Reclaimable(p, Some(files[p]), read(p), now)
  {
    set p | p in files && InDir(p, dir) && Reclaimable(p, Some(files[p]), read(p), now)
  }

  /** The targets whose removal succeeds. */
  function Removable(targets: set<Path>, f: Faults): (s: set<Path>)
    ensures forall p :: p in s <==> p in targets && f.remove(p).None?
  {
    set p | p in targets && f.remove(p).None?
  }

  /** The two filters point in opposite directions: no file is a target of
      both `Reset` and the sweep. */
  lemma SweepsDisjoint(files: map<Path, Bytes>, dir: string, read: Path -> Option<Error>, now: int)
    ensures ResetTargets(files, dir) * GcTargets(files, dir, read, now) == {}
  {
    forall p | p in ResetTargets(files, dir)
      ensures p !in GcTargets(files, dir, read, now)
    {
      assert HasSuffix(p, CacheFileExt);
    }
  }

  /** The engine's state: the garbage-collection timestamp and flag. The
      options, the key printer, the digest and the codec are fixed at
      construction; the disk is shared. */
  class SCache<K, V> {
    const opt: Options
    const sprint: K -> string
    const md5Hex: string -> Digest
    const marshal: V -> Result<Bytes>
    const unmarshal: Unmarshaler<V>
    const disk: Disk
    var gcTime: int
    var gcRunning: bool

    constructor(opt: Options, sprint: K -> string, md5Hex: string -> Digest,
                marshal: V -> Result<Bytes>, unmarshal: Unmarshaler<V>, disk: Disk)
      ensures this.opt == opt && this.sprint == sprint && this.md5Hex == md5Hex
      ensures this.marshal == marshal && this.unmarshal == unmarshal && this.disk == disk
      ensures gcTime == 0 && !gcRunning
    {
      this.opt := opt;
      this.sprint := sprint;
      this.md5Hex := md5Hex;
      this.marshal := marshal;
      this.unmarshal := unmarshal;
      this.disk := disk;
      gcTime := 0;
      gcRunning := false;
    }

    /** `opt.CachePath(key)`. */
    function PathOf(key: K): Path
    {
      CachePath(opt, md5Hex(sprint(key)))
    }

    /** `autoGC`'s claim: a sweep is due when at least the interval has passed
        since the last claim; claiming stamps the clock. The sweep itself runs
        on its own goroutine; here it is `Gc`, which the caller runs after a
        claim. */
    method AutoGc(now: int) returns (claimed: bool)
      modifies this`gcTime
      ensures claimed <==> now - old(gcTime) >= AutoGcTime(opt)
      ensures gcTime == if claimed then now else old(gcTime)
    {
      if now - gcTime < AutoGcTime(opt) {
        return false;
      }
      gcTime := now;
      return true;
    }

    /** `Get(key)`: an unreadable or malformed record is an error; an expired
        one is deleted and reported missing; a live one hands its payload to
        the unmarshaler. */
    method Get(key: K, now: int, f: Faults) returns (r: Completion<GetResult<V>>)
      modifies disk, this`gcTime
      ensures var fp := PathOf(key);
        var rd := ReadByPath(Lookup(old(disk.files), fp), f.read(fp), true, now);
        && (rd.Panicked? ==> r == Panicked(rd.reason) && disk.files == old(disk.files))
        && (rd.Returned? && rd.value.err.Some? ==>
              r == Returned(GetResult(rd.value.err, [], None)) && disk.files == old(disk.files))
        && (rd.Returned? && rd.value.err.None? && rd.value.expire ==>
              r == Returned(GetResult(Some(NotExists), [], None)) &&
              disk.files == if f.remove(fp).None? then old(disk.files) - {fp} else old(disk.files))
        && (rd.Returned? && rd.value.err.None? && !rd.value.expire ==>
              rd.value.data.Some? &&
              r == Returned(GetResult(None, rd.value.data.value, Some(unmarshal))) && disk.files == old(disk.files))
      ensures gcTime == if now - old(gcTime) >= AutoGcTime(opt) then now else old(gcTime)
    {
      var fp := PathOf(key);
      var rd := ReadByPath(Lookup(disk.files, fp), f.read(fp), true, now);
      if rd.Panicked? {
        r := Panicked(rd.reason);
      } else if rd.value.err.Some? {
        r := Returned(GetResult(rd.value.err, [], None));
      } else if rd.value.expire {
        var _ := Delete(key, f);
        r := Returned(GetResult(Some(NotExists), [], None));
      } else {
        r := Returned(GetResult(None, rd.value.data.value, Some(unmarshal)));
      }
      var _ := AutoGc(now);
    }

    /** `Set(key, value, ttl)`: encode the value and publish the record by
        renaming a temp file named `PathOf(key) + tmpSuffix` onto the key's
        path. A failed Set leaves the key's path as it was. */
    method Set(key: K, value: V, ttl: int, now: int, tmpSuffix: string, f: Faults) returns (r: SetResult)
      requires TempSuffix(tmpSuffix) && PathOf(key) + tmpSuffix !in disk.files
      modifies disk, this`gcTime
      ensures var fp := PathOf(key); var tmp := fp + tmpSuffix;
        && (marshal(value).Fail? ==> r == SetResult(Some(marshal(value).error)) && disk.files == old(disk.files))
        && (marshal(value).Ok? ==> r == SetResult(PublishError(f)))
        && (marshal(value).Ok? && r.err.None? ==>
              disk.files == old(disk.files)[fp := Encode(Wrap64(now + ttl), now / Second, marshal(value).value)])
        && (r.err.Some? ==> disk.files - {tmp} == old(disk.files) && Lookup(disk.files, fp) == Lookup(old(disk.files), fp))
        && (r.err.Some? && (f.create.Some? || f.remove(tmp).None?) ==> disk.files == old(disk.files))
      ensures gcTime == if now - old(gcTime) >= AutoGcTime(opt) then now else old(gcTime)
    {
      var fp := PathOf(key);
      var tmp := fp + tmpSuffix;
      assert tmp != fp by {
        assert |tmp| > |fp|;
      }
      match marshal(value) {
        case Fail(e) =>
          r := SetResult(Some(e));
        case Ok(msg) =>
          var record := Encode(Wrap64(now + ttl), now / Second, msg);
          var err := Publish(disk, fp, tmp, record, f);
          r := SetResult(err);
      }
      var _ := AutoGc(now);
    }

    /** `Has(key)`: reads the expiry only, so it never panics and never
        deletes; a read or parse error is reported with `false`. */
    method Has(key: K, now: int, f: Faults) returns (r: HasResult)
      modifies this`gcTime
      ensures var fp := PathOf(key);
        var rd := ReadByPath(Lookup(disk.files, fp), f.read(fp), false, now).value;
        r == if rd.err.Some? then HasResult(rd.err, false) else HasResult(None, !rd.expire)
      ensures PathOf(key) !in disk.files ==> r == HasResult(Some(NotExists), false)
      ensures gcTime == if now - old(gcTime) >= AutoGcTime(opt) then now else old(gcTime)
    {
      var fp := PathOf(key);
      var rd := ReadByPath(Lookup(disk.files, fp), f.read(fp), false, now).value;
      if rd.err.Some? {
        r := HasResult(rd.err, false);
      } else {
        r := HasResult(None, !rd.expire);
      }
      var _ := AutoGc(now);
    }

    /** `Delete(key)`: 1 when the record existed and was removed. */
    method Delete(key: K, f: Faults) returns (r: DeleteResult)
      modifies disk
      ensures var fp := PathOf(key);
        && (fp !in old(disk.files) ==> r == DeleteResult(None, 0) && disk.files == old(disk.files))
        && (fp in old(disk.files) && f.remove(fp).None? ==> r == DeleteResult(None, 1) && disk.files == old(disk.files) - {fp})
        && (fp in old(disk.files) && f.remove(fp).Some? ==> r == DeleteResult(f.remove(fp), 0) && disk.files == old(disk.files))
    {
      var fp := PathOf(key);
      var num, err := Unlink(disk, fp, f.remove(fp));
      r := DeleteResult(err, num);
    }

    /** `Reset()`: remove every `.cache` file below the directory; failures
        are logged and skipped. An unreadable root panics inside the walk. */
    method Reset(f: Faults, rootErr: Option<Error>) returns (r: Completion<Option<Error>>)
      modifies disk
      ensures rootErr.Some? ==> r == Panicked(NilInfo) && disk.files == old(disk.files)
      ensures rootErr.None? ==>
        r == Returned(None) && disk.files == old(disk.files) - Removable(ResetTargets(old(disk.files), opt.dir), f)
    {
      if rootErr.Some? {
        return Panicked(NilInfo);
      }
      ghost var files0 := disk.files;
      ghost var gone := Removable(ResetTargets(files0, opt.dir), f);
      var todo := ResetTargets(disk.files, opt.dir);
      while todo != {}
        invariant todo <= ResetTargets(files0, opt.dir)
        invariant disk.files == files0 - (gone - todo)
        decreases |todo|
      {
        var p :| p in todo;
        var _ := Remove(disk, p, f.remove(p));
        todo := todo - {p};
      }
      return Returned(None);
    }

    /** `checkFile(fp)`: remove the file if it is reclaimable. */
    method CheckFile(fp: Path, now: int, f: Faults) returns (err: Option<Error>)
      modifies disk
      ensures !Reclaimable(fp, Lookup(old(disk.files), fp), f.read(fp), now) ==>
        err.None? && disk.files == old(disk.files)
      ensures Reclaimable(fp, Lookup(old(disk.files), fp), f.read(fp), now) ==>
        err == f.remove(fp) && disk.files == if err.None? then old(disk.files) - {fp} else old(disk.files)
    {
      if HasSuffix(fp, CacheFileExt) {
        return None;
      }
      var rd := ReadByPath(Lookup(disk.files, fp), f.read(fp), false, now).value;
      if rd.expire {
        err := Remove(disk, fp, f.remove(fp));
      } else {
        err := None;
      }
    }

    /** `gc()`: unless a sweep is already running, walk the directory and
        check every file. A panic in the walk is recovered and logged; the
        running flag is cleared on the way out. */
    method Gc(now: int, f: Faults, rootErr: Option<Error>)
      modifies disk, this`gcRunning
      ensures gcRunning == old(gcRunning)
      ensures old(gcRunning) || rootErr.Some? ==> disk.files == old(disk.files)
      ensures !old(gcRunning) && rootErr.None? ==>
        disk.files == old(disk.files) - Removable(GcTargets(old(disk.files), opt.dir, f.read, now), f)
    {
      if gcRunning {
        return;
      }
      gcRunning := true;
      if rootErr.None? {
        Sweep(now, f);
      }
      gcRunning := false;
    }

    /** The walk of `gc()`: `checkFile` on every file below the directory. */
    method Sweep(now: int, f: Faults)
      modifies disk
      ensures disk.files == old(disk.files) - Removable(GcTargets(old(disk.files), opt.dir, f.read, now), f)
    {
      ghost var files0 := disk.files;
      ghost var gone := Removable(GcTargets(files0, opt.dir, f.read, now), f);
      var todo := set p | p in disk.files && InDir(p, opt.dir);
      while todo != {}
        invariant forall p :: p in todo ==> p in files0 && InDir(p, opt.dir)
        invariant disk.files == files0 - (gone - todo)
        decreases |todo|
      {
        var p :| p in todo;
        assert Lookup(disk.files, p) == Some(files0[p]);
        assert p in gone <==> Reclaimable(p, Some(files0[p]), f.read(p), now) && f.remove(p).None?;
        var _ := CheckFile(p, now, f);
        todo := todo - {p};
      }
    }
  }

  /** `NewSCache(opt)`: refuse a configuration `Check` rejects. `embedded` is
      the outcome of the codec options' own check. */
  method NewSCache<K, V>(opt: Options, embedded: Option<Error>, sprint: K -> string, md5Hex: string -> Digest,
                         marshal: V -> Result<Bytes>, unmarshal: Unmarshaler<V>, disk: Disk)
    returns (c: Option<SCache<K, V>>, err: Option<Error>)
    ensures err == Check(opt, embedded)
    ensures c.Some? <==> err.None?
    ensures c.Some? ==> fresh(c.value) && c.value.opt == opt && c.value.disk == disk && c.value.gcTime == 0
  {
    err := Check(opt, embedded);
    if err.Some? {
      return None, err;
    }
    var s := new SCache(opt, sprint, md5Hex, marshal, unmarshal, disk);
    return Some(s), None;
  }

  /** With every I/O call succeeding and a codec that round-trips, a value
      written by `Set` is read back by `Get` up to and including its expiry
      instant. */
  method SetThenGet<K, V>(c: SCache<K, V>, key: K, v: V, ttl: int, now: int, later: int, tmpSuffix: string, f: Faults)
    returns (r: Completion<GetResult<V>>)
    requires TempSuffix(tmpSuffix) && c.PathOf(key) + tmpSuffix !in c.disk.files
    requires f.create.None? && f.flush.None? && f.close.None? && f.rename.None? && f.read(c.PathOf(key)).None?
    requires c.marshal(v).Ok? && c.unmarshal(c.marshal(v).value) == Ok(v)
    requires IsInt64(now + ttl) && later <= now + ttl
    modifies c.disk, c
    ensures r.Returned? && Value(r.value) == Fetched(true, None, Some(v))
  {
    var s := c.Set(key, v, ttl, now, tmpSuffix, f);
    ReadRoundTrip(now + ttl, now / Second, c.marshal(v).value, true, later);
    r := c.Get(key, later, f);
  }
}
