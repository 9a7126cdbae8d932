/** The on-disk record of the current file engine (filecache/s_cache.go):
    `etime=<expiry ns>\n`, `ctime=<creation s>\n`, then the payload bytes,
    and the parse `readByPath` applies to a file's content. */
module Record {
  import opened Common
  import opened Strconv

  const EtimePrefix: Bytes := [101, 116, 105, 109, 101, 61]  // "etime="
  const CtimePrefix: Bytes := [99, 116, 105, 109, 101, 61]   // "ctime="

  /** The bytes `Set` writes through its buffered writer. */
  function Encode(expireAt: int, ctime: int, msg: Bytes): Bytes
  {
    EtimePrefix + FormatInt(expireAt) + [NL] + CtimePrefix + FormatInt(ctime) + [NL] + msg
  }

  /** The first position of `b` in `s`, or -1 (`bytes.Index` for one byte). */
  function IndexOf(s: Bytes, b: Byte): (i: int)
    ensures -1 <= i < |s|
    ensures i >= 0 ==> s[i] == b && b !in s[..i]
    ensures i < 0 ==> b !in s
  {
    if s == [] then -1
    else if s[0] == b then 0
    else
      var j := IndexOf(s[1..], b);
      assert j >= 0 ==> s[1..][..j] == s[1..j + 1];
      if j < 0 then -1 else j + 1
  }

  /** The parts rejoined with '\n' between them. */
  function JoinLines(lines: seq<Bytes>): Bytes
  {
    if lines == [] then []
    else if |lines| == 1 then lines[0]
    else lines[0] + [NL] + JoinLines(lines[1..])
  }

  /** `bytes.SplitN(s, []byte("\n"), 2)`: split at the first newline at most. */
  function SplitLines2(s: Bytes): (lines: seq<Bytes>)
    ensures 1 <= |lines| <= 2
    ensures JoinLines(lines) == s
    ensures |lines| == 2 ==> NL !in lines[0]
    ensures |lines| == 1 ==> NL !in s
  {
    var j := IndexOf(s, NL);
    if j < 0 then [s]
    else
      assert s == s[..j] + [NL] + s[j + 1..];
      [s[..j], s[j + 1..]]
  }

  /** `bytes.SplitN(s, []byte("\n"), 3)`: split at the first two newlines at
      most; the last part keeps every later newline. */
  function SplitLines3(s: Bytes): (lines: seq<Bytes>)
    ensures 1 <= |lines| <= 3
    ensures JoinLines(lines) == s
    ensures forall i :: 0 <= i < |lines| - 1 ==> NL !in lines[i]
    ensures |lines| < 3 ==> NL !in lines[|lines| - 1]
  {
    var i := IndexOf(s, NL);
    if i < 0 then [s]
    else
      var tail := SplitLines2(s[i + 1..]);
      assert s == s[..i] + [NL] + s[i + 1..];
      assert ([s[..i]] + tail)[1..] == tail;
      [s[..i]] + tail
  }

  /** A split of newline-free lines followed by any payload recovers the three. */
  lemma SplitRecord(a: Bytes, b: Bytes, c: Bytes)
    requires NL !in a && NL !in b
    ensures SplitLines3(a + [NL] + b + [NL] + c) == [a, b, c]
  {
    assert a + [NL] + b + [NL] + c == a + [NL] + (b + [NL] + c);
    SplitFirst(a, b + [NL] + c);
    SplitSecond(b, c);
  }

  lemma SplitFirst(a: Bytes, rest: Bytes)
    requires NL !in a
    ensures SplitLines3(a + [NL] + rest) == [a] + SplitLines2(rest)
  {
    var s := a + [NL] + rest;
    IndexAfterPrefix(a, [NL] + rest);
    assert s == a + ([NL] + rest);
    assert IndexOf(s, NL) == |a|;
    assert s[..|a|] == a;
    assert s[|a| + 1..] == rest;
  }

  lemma SplitSecond(b: Bytes, c: Bytes)
    requires NL !in b
    ensures SplitLines2(b + [NL] + c) == [b, c]
  {
    var s := b + [NL] + c;
    IndexAfterPrefix(b, [NL] + c);
    assert s == b + ([NL] + c);
    assert IndexOf(s, NL) == |b|;
    assert s[..|b|] == b;
    assert s[|b| + 1..] == c;
  }

  /** What `readByPath` returns when it returns: whether the record is
      expired, the payload when asked for, and the error. */
  datatype Read = Read(expire: bool, data: Option<Bytes>, err: Option<Error>)

  const ErrInvalidFile: Error := Message("invalid cache file")
  const ErrInvalidLine: Error := Message("not valid cache line, expect etime=\\d+")

  /** `readByPath(fp, needData)` given what the file system holds at `fp`
      (`None`: no such file), the error reading it would raise, and the clock
      in nanoseconds. With only two parts and `needData`, the code indexes
      `lines[2]` past the end of the slice, which panics. */
  function ReadByPath(file: Option<Bytes>, readErr: Option<Error>, needData: bool, now: int): (r: Completion<Read>)
    ensures !needData ==> r.Returned? && r.value.data.None?
    ensures file.None? ==> r == Returned(Read(false, None, Some(NotExists)))
    ensures file.Some? && readErr.Some? ==> r == Returned(Read(true, None, readErr))
    ensures file.Some? && r.Returned? && r.value.err.Some? ==> r.value.expire
    ensures r.Returned? && r.value.err.Some? ==> r.value.data.None?
  {
    if file.None? then Returned(Read(false, None, Some(NotExists)))
    else if readErr.Some? then Returned(Read(true, None, readErr))
    else
      var lines := SplitLines3(file.value);
      if |lines| < 2 then Returned(Read(true, None, Some(ErrInvalidFile)))
      else if |lines[0]| < |EtimePrefix| then Returned(Read(true, None, Some(ErrInvalidLine)))
      else
        match ParseInt(lines[0][|EtimePrefix|..])
        case Fail(e) => Returned(Read(true, None, Some(e)))
        case Ok(expireAt) =>
          var expire := expireAt < now;
          if !needData then Returned(Read(expire, None, None))
          else if |lines| < 3 then Panicked("runtime error: index out of range [2] with length 2")
          else Returned(Read(expire, Some(lines[2]), None))
  }

  /** Reading back a record written by `Set` gives its expiry, compared
      strictly with the clock, and exactly the payload, whatever bytes (newlines
      included) the payload holds. */
  lemma ReadRoundTrip(expireAt: int, ctime: int, msg: Bytes, needData: bool, now: int)
    requires IsInt64(expireAt)
    ensures ReadByPath(Some(Encode(expireAt, ctime, msg)), None, needData, now)
              == Returned(Read(expireAt < now, if needData then Some(msg) else None, None))
  {
    var first := EtimePrefix + FormatInt(expireAt);
    var second := CtimePrefix + FormatInt(ctime);
    assert NL !in first by {
      assert forall k :: 0 <= k < |first| ==> first[k] == if k < 6 then EtimePrefix[k] else FormatInt(expireAt)[k - 6];
    }
    assert NL !in second by {
      assert forall k :: 0 <= k < |second| ==> second[k] == if k < 6 then CtimePrefix[k] else FormatInt(ctime)[k - 6];
    }
    assert Encode(expireAt, ctime, msg) == first + [NL] + second + [NL] + msg;
    SplitRecord(first, second, msg);
    assert first[|EtimePrefix|..] == FormatInt(expireAt);
    FormatIntRoundTrip(expireAt);
  }

  /** The six bytes before the expiry are skipped, never compared with "etime=". */
  lemma PrefixNotCompared(p: Bytes, q: Bytes, rest: Bytes, readErr: Option<Error>, needData: bool, now: int)
    requires |p| == |q| == |EtimePrefix| && NL !in p && NL !in q
    ensures ReadByPath(Some(p + rest), readErr, needData, now) == ReadByPath(Some(q + rest), readErr, needData, now)
  {
    var lines := SplitLines3(rest);
    SplitAfterPrefix(p, rest);
    SplitAfterPrefix(q, rest);
    assert (p + lines[0])[|EtimePrefix|..] == lines[0] == (q + lines[0])[|EtimePrefix|..];
  }

  /** A newline-free prefix joins the first part and leaves the others alone. */
  lemma SplitAfterPrefix(p: Bytes, rest: Bytes)
    requires NL !in p
    ensures SplitLines3(p + rest) == [p + SplitLines3(rest)[0]] + SplitLines3(rest)[1..]
  {
    var s := p + rest;
    var j := IndexOf(rest, NL);
    IndexAfterPrefix(p, rest);
    if j >= 0 {
      var i := |p| + j;
      assert IndexOf(s, NL) == i;
      var tail := SplitLines2(rest[j + 1..]);
      assert s[i + 1..] == rest[j + 1..];
      assert s[..i] == p + rest[..j];
      assert SplitLines3(s) == [p + rest[..j]] + tail;
      assert SplitLines3(rest) == [rest[..j]] + tail;
    } else {
      assert IndexOf(s, NL) < 0;
      assert SplitLines3(s) == [s];
      assert SplitLines3(rest) == [rest];
    }
  }

  /** A newline-free prefix only shifts where the first newline is. */
  lemma {:induction false} IndexAfterPrefix(p: Bytes, rest: Bytes)
    requires NL !in p
    ensures IndexOf(p + rest, NL) == if IndexOf(rest, NL) < 0 then -1 else |p| + IndexOf(rest, NL)
  {
    if p == [] {
      assert p + rest == rest;
    } else {
      assert p[0] in p;
      assert (p + rest)[1..] == p[1..] + rest;
      assert forall k :: 0 <= k < |p[1..]| ==> p[1..][k] == p[k + 1];
      IndexAfterPrefix(p[1..], rest);
    }
  }

  /** A record whose first line parses but which has no second newline makes
      `Get` panic when it asks for the payload, and reads normally otherwise. */
  lemma TwoPartRecordPanics(a: Bytes, b: Bytes, now: int)
    requires NL !in a && NL !in b && |a| >= |EtimePrefix| && ParseInt(a[|EtimePrefix|..]).Ok?
    ensures ReadByPath(Some(a + [NL] + b), None, true, now).Panicked?
    ensures ReadByPath(Some(a + [NL] + b), None, false, now)
              == Returned(Read(ParseInt(a[|EtimePrefix|..]).value < now, None, None))
  {
    SplitRecord2(a, b);
  }

  lemma SplitRecord2(a: Bytes, b: Bytes)
    requires NL !in a && NL !in b
    ensures SplitLines3(a + [NL] + b) == [a, b]
  {
    var s := a + [NL] + b;
    assert s == a + ([NL] + b);
    IndexAfterPrefix(a, [NL] + b);
    assert s[|a| + 1..] == b && s[..|a|] == a;
  }

  /** An empty or newline-free file is corrupt, not missing. */
  lemma SingleLineIsCorrupt(s: Bytes, needData: bool, now: int)
    requires NL !in s
    ensures ReadByPath(Some(s), None, needData, now) == Returned(Read(true, None, Some(ErrInvalidFile)))
  {
  }

  /** A first line shorter than "etime=" is corrupt. */
  lemma ShortFirstLineIsCorrupt(a: Bytes, rest: Bytes, needData: bool, now: int)
    requires NL !in a && |a| < |EtimePrefix|
    ensures ReadByPath(Some(a + [NL] + rest), None, needData, now) == Returned(Read(true, None, Some(ErrInvalidLine)))
  {
    var s := a + [NL] + rest;
    assert s == a + ([NL] + rest);
    IndexAfterPrefix(a, [NL] + rest);
    assert s[..|a|] == a;
  }

  /** A first line whose text after the six prefix bytes is not an integer
      gives the parse error, and the record counts as expired. */
  lemma NonIntegerIsError(a: Bytes, rest: Bytes, needData: bool, now: int)
    requires NL !in a && |a| >= |EtimePrefix| && ParseInt(a[|EtimePrefix|..]).Fail?
    ensures ReadByPath(Some(a + [NL] + rest), None, needData, now)
              == Returned(Read(true, None, Some(ParseInt(a[|EtimePrefix|..]).error)))
  {
    var s := a + [NL] + rest;
    assert s == a + ([NL] + rest);
    IndexAfterPrefix(a, [NL] + rest);
    assert s[..|a|] == a;
  }
}
