/** The options of the file engines (filecache/option.go): where a key's
    record lives, how often garbage collection may run, and when a
    configuration is refused. */
module FileOption {
  import opened Common

  const CacheFileExt: string := ".cache"

  /** One second of `time.Duration`, in nanoseconds. */
  const Second: int := 1_000_000_000

  /** The 32-character hex md5 digest of a key's printed form. */
  type Digest = s: string | |s| == 32 witness "00000000000000000000000000000000"

  /** `Option{Dir, AutoGc}`; the embedded codec options are the engine's
      marshal and unmarshal functions. `autoGc` is a duration in nanoseconds. */
  datatype Options = Options(dir: string, autoGc: int)

  predicate HasSuffix(s: string, suffix: string) {
    |s| >= |suffix| && s[|s| - |suffix|..] == suffix
  }

  /** `AutoGcTime()`: the minimum interval between two collections. */
  function AutoGcTime(o: Options): (d: int)
    ensures o.autoGc == 0 ==> d == 300 * Second
    ensures o.autoGc != 0 ==> d == o.autoGc
  {
    if o.autoGc == 0 then 300 * Second else o.autoGc
  }

  /** The directory part `filepath.Join` puts before the segments: nothing
      for an empty directory (Join drops empty elements). */
  function Root(dir: string): string
  {
    if dir == "" then "" else dir + "/"
  }

  /** `CachePath(key)` for the key's digest `s`: the directory, five
      3-character segments from s[0..15], the segment s[16..32], then ".cache". */
  function CachePath(o: Options, s: Digest): (p: string)
    ensures HasSuffix(p, CacheFileExt)
    ensures |p| == |Root(o.dir)| + 42
    ensures p[..|Root(o.dir)|] == Root(o.dir)
  {
    Root(o.dir) + s[0..3] + "/" + s[3..6] + "/" + s[6..9] + "/" + s[9..12] + "/" + s[12..15] + "/" + s[16..32]
      + CacheFileExt
  }

  /** Where each digest character lands in the path. */
  lemma CachePathLayout(o: Options, s: Digest)
    ensures var r := |Root(o.dir)|; var p := CachePath(o, s);
      p[r..r + 3] == s[0..3] && p[r + 4..r + 7] == s[3..6] && p[r + 8..r + 11] == s[6..9] &&
      p[r + 12..r + 15] == s[9..12] && p[r + 16..r + 19] == s[12..15] && p[r + 20..r + 36] == s[16..32]
  {
  }

  /** Two digests give the same path iff they agree everywhere but at
      position 15, which never reaches the path. */
  lemma CachePathSame(o: Options, s: Digest, t: Digest)
    ensures CachePath(o, s) == CachePath(o, t) <==> s[..15] == t[..15] && s[16..] == t[16..]
  {
    if CachePath(o, s) == CachePath(o, t) {
      SamePathSameDigest(o, s, t);
    }
    if s[..15] == t[..15] && s[16..] == t[16..] {
      SameDigestSamePath(o, s, t);
    }
  }

  lemma SamePathSameDigest(o: Options, s: Digest, t: Digest)
    requires CachePath(o, s) == CachePath(o, t)
    ensures s[..15] == t[..15] && s[16..] == t[16..]
  {
    CachePathLayout(o, s);
    CachePathLayout(o, t);
    assert s[..15] == s[0..3] + s[3..6] + s[6..9] + s[9..12] + s[12..15];
    assert t[..15] == t[0..3] + t[3..6] + t[6..9] + t[9..12] + t[12..15];
    assert s[16..] == s[16..32] && t[16..] == t[16..32];
  }

  lemma SameDigestSamePath(o: Options, s: Digest, t: Digest)
    requires s[..15] == t[..15] && s[16..] == t[16..]
    ensures CachePath(o, s) == CachePath(o, t)
  {
    assert s[0..3] == s[..15][0..3] && t[0..3] == t[..15][0..3];
    assert s[3..6] == s[..15][3..6] && t[3..6] == t[..15][3..6];
    assert s[6..9] == s[..15][6..9] && t[6..9] == t[..15][6..9];
    assert s[9..12] == s[..15][9..12] && t[9..12] == t[..15][9..12];
    assert s[12..15] == s[..15][12..15] && t[12..15] == t[..15][12..15];
    assert s[16..32] == s[16..] && t[16..32] == t[16..];
  }

  /** The path is a function of the printed key: keys that print alike
      (`123` and `"123"`) share one file. */
  lemma SamePrintSamePath<K>(o: Options, md5Hex: string -> Digest, sprint: K -> string, a: K, b: K)
    requires sprint(a) == sprint(b)
    ensures CachePath(o, md5Hex(sprint(a))) == CachePath(o, md5Hex(sprint(b)))
  {
  }

  const ErrDirEmpty: Error := Message("cache dir is empty")

  /** `Check()`, given the outcome of the embedded codec options' check. */
  function Check(o: Options, embedded: Option<Error>): (r: Option<Error>)
    ensures r.None? <==> embedded.None? && o.dir != ""
    ensures embedded.Some? ==> r == embedded
    ensures embedded.None? && o.dir == "" ==> r == Some(ErrDirEmpty)
  {
    if embedded.Some? then embedded
    else if o.dir == "" then Some(ErrDirEmpty)
    else None
  }
}
