/** The on-disk record of the older file engine (filecache/file.go): the
    expiry in Unix seconds, '\n', then the payload, read back line by line
    through a `bufio.Reader` with its default 4096-byte buffer. */
module LegacyRecord {
  import opened Common
  import opened Strconv
  import opened Record

  /** The bytes the older `Set` writes: expiry seconds, newline, payload. */
  function EncodeLegacy(expireAt: int, msg: Bytes): Bytes
  {
    FormatInt(expireAt) + [NL] + msg
  }

  const BufSize: nat := 4096
  const CR: Byte := 13
  const ErrEOF: Error := Message("EOF")

  /** One `ReadLine` call: the line without its end-of-line bytes, what stays
      unread, and the error. */
  datatype Line = Line(line: Bytes, rest: Bytes, err: Option<Error>)

  /** `bufio.Reader.ReadLine` on the unread bytes `b`. A line is cut at the
      first '\n' within the buffer, dropping "\n" or "\r\n"; when the buffer
      fills with no '\n', the buffer is returned as a prefix (a trailing '\r'
      is held back for the next call); at the end of input it reports EOF. */
  function ReadLine(b: Bytes): (r: Line)
    ensures r.err.Some? <==> b == []
    ensures r.err.Some? ==> r == Line([], [], Some(ErrEOF))
    ensures |r.line| <= BufSize && |r.rest| < |b| + (if b == [] then 1 else 0)
    ensures NL !in r.line
    ensures r.err.None? ==> r.line <= b
  {
    if b == [] then Line([], [], Some(ErrEOF))
    else
      var window := if |b| < BufSize then b else b[..BufSize];
      var i := IndexOf(window, NL);
      assert i >= 0 ==> window[..i] == b[..i];
      if i >= 0 then
        var line := if i > 0 && b[i - 1] == CR then b[..i - 1] else b[..i];
        assert line <= b[..i];
        Line(line, b[i + 1..], None)
      else if |b| >= BufSize then
        if b[BufSize - 1] == CR then Line(b[..BufSize - 1], b[BufSize - 1..], None)
        else Line(b[..BufSize], b[BufSize..], None)
      else Line(b, [], None)
  }

  /** What the older `read` returns: the expiry seconds (0 on error), the
      payload line when asked for, and the error. */
  datatype LegacyRead = LegacyRead(expireAt: int, data: Option<Bytes>, err: Option<Error>)

  /** `read(key, needData)` given what the file system holds at the key's
      path (`None`: no such file) and the error opening it would raise. */
  function ReadLegacy(file: Option<Bytes>, openErr: Option<Error>, needData: bool): (r: LegacyRead)
    ensures file.None? ==> r == LegacyRead(0, None, Some(NotExists))
    ensures file.Some? && openErr.Some? ==> r == LegacyRead(0, None, openErr)
    ensures r.err.None? ==> IsInt64(r.expireAt) && (r.data.Some? <==> needData)
    ensures r.err.Some? ==> r.data.None?
    ensures r.data.Some? ==> |r.data.value| <= BufSize && NL !in r.data.value
  {
    if file.None? then LegacyRead(0, None, Some(NotExists))
    else if openErr.Some? then LegacyRead(0, None, openErr)
    else
      var first := ReadLine(file.value);
      if first.err.Some? then LegacyRead(0, None, first.err)
      else
        match ParseInt(first.line)
        case Fail(e) => LegacyRead(0, None, Some(e))
        case Ok(expireAt) =>
          if !needData then LegacyRead(expireAt, None, None)
          else
            var second := ReadLine(first.rest);
            if second.err.Some? then LegacyRead(expireAt, None, second.err)
            else LegacyRead(expireAt, Some(second.line), None)
  }

  /** A newline-free line shorter than the buffer, not ending in '\r', is read
      whole. */
  lemma ReadLineWhole(a: Bytes, rest: Bytes)
    requires NL !in a && (|a| == 0 || a[|a| - 1] != CR) && |a| < BufSize
    ensures ReadLine(a + [NL] + rest) == Line(a, rest, None)
  {
    var b := a + [NL] + rest;
    var window := if |b| < BufSize then b else b[..BufSize];
    assert window == a + ([NL] + window[|a| + 1..]);
    IndexAfterPrefix(a, [NL] + window[|a| + 1..]);
    assert IndexOf(window, NL) == |a|;
    assert |a| > 0 ==> b[|a| - 1] == a[|a| - 1];
    assert b[..|a|] == a && b[|a| + 1..] == rest;
  }

  /** A line ended by "\r\n" is read without both bytes. */
  lemma ReadLineCRLF(a: Bytes, rest: Bytes)
    requires NL !in a && |a| + 1 < BufSize
    ensures ReadLine(a + [CR, NL] + rest) == Line(a, rest, None)
  {
    var b := a + [CR, NL] + rest;
    var window := if |b| < BufSize then b else b[..BufSize];
    assert window == (a + [CR]) + ([NL] + window[|a| + 2..]);
    assert NL !in a + [CR];
    IndexAfterPrefix(a + [CR], [NL] + window[|a| + 2..]);
    assert IndexOf(window, NL) == |a| + 1;
    assert b[|a|] == CR;
    assert b[..|a|] == a && b[|a| + 2..] == rest;
  }

  /** A first line that is not an integer gives the parse error, with expiry 0
      and no payload. */
  lemma NonIntegerHeaderIsError(a: Bytes, rest: Bytes, needData: bool)
    requires NL !in a && (|a| == 0 || a[|a| - 1] != CR) && |a| < BufSize && ParseInt(a).Fail?
    ensures ReadLegacy(Some(a + [NL] + rest), None, needData) == LegacyRead(0, None, Some(ParseInt(a).error))
  {
    ReadLineWhole(a, rest);
  }

  /** A non-empty final line without a newline that fits the buffer reads
      back whole, '\r' bytes included. */
  lemma ReadLineLast(a: Bytes)
    requires NL !in a && 0 < |a| < BufSize
    ensures ReadLine(a) == Line(a, [], None)
  {
  }

  /** Round trip of the older format: the expiry seconds come back, and so
      does the payload provided it is a single non-empty line shorter than the
      read buffer. */
  lemma LegacyRoundTrip(expireAt: int, msg: Bytes)
    requires IsInt64(expireAt)
    requires NL !in msg && 0 < |msg| < BufSize
    ensures ReadLegacy(Some(EncodeLegacy(expireAt, msg)), None, true) == LegacyRead(expireAt, Some(msg), None)
    ensures ReadLegacy(Some(EncodeLegacy(expireAt, msg)), None, false) == LegacyRead(expireAt, None, None)
  {
    HeaderLine(expireAt, msg);
    ReadLineLast(msg);
  }

  /** The header line of a record is the formatted expiry. */
  lemma HeaderLine(expireAt: int, msg: Bytes)
    requires IsInt64(expireAt)
    ensures ReadLine(EncodeLegacy(expireAt, msg)) == Line(FormatInt(expireAt), msg, None)
    ensures ParseInt(FormatInt(expireAt)) == Ok(expireAt)
  {
    var digits := FormatInt(expireAt);
    assert CR !in digits by {
      assert forall k :: 0 <= k < |digits| ==> digits[k] == Minus || IsDigit(digits[k]) by {
        if expireAt < 0 {
          assert forall k :: 1 <= k < |digits| ==> digits[k] == Digits(-expireAt)[k - 1];
        }
      }
    }
    FormatIntLength(expireAt);
    ReadLineWhole(digits, msg);
    FormatIntRoundTrip(expireAt);
  }

  /** An int64 prints in at most 20 bytes. */
  lemma FormatIntLength(x: int)
    requires IsInt64(x)
    ensures |FormatInt(x)| <= 20
  {
    var n: nat := if x < 0 then -x else x;
    assert Pow10(4) == 10_000;
    assert Pow10(8) == 100_000_000;
    assert Pow10(12) == 1_000_000_000_000;
    assert Pow10(16) == 10_000_000_000_000_000;
    assert Pow10(19) == 10_000_000_000_000_000_000;
    DigitsLength(n, 19);
  }

  lemma {:induction false} DigitsLength(n: nat, k: nat)
    requires k >= 1 && n < Pow10(k)
    ensures |Digits(n)| <= k
  {
    if n >= 10 {
      assert Pow10(k) == 10 * Pow10(k - 1);
      assert Pow10(0) == 1;
      assert k - 1 >= 1;
      DigitsLength(n / 10, k - 1);
    }
  }

  /** The older format truncates: a payload with a newline reads back only up
      to it. */
  lemma NewlineTruncatesPayload(expireAt: int, a: Bytes, tail: Bytes)
    requires IsInt64(expireAt)
    requires NL !in a && (|a| == 0 || a[|a| - 1] != CR) && |a| < BufSize
    ensures ReadLegacy(Some(EncodeLegacy(expireAt, a + [NL] + tail)), None, true) == LegacyRead(expireAt, Some(a), None)
  {
    HeaderLine(expireAt, a + [NL] + tail);
    ReadLineWhole(a, tail);
  }

  /** An empty payload cannot be read back: the second line hits EOF. */
  lemma EmptyPayloadIsEOF(expireAt: int)
    requires IsInt64(expireAt)
    ensures ReadLegacy(Some(EncodeLegacy(expireAt, [])), None, true) == LegacyRead(expireAt, None, Some(ErrEOF))
  {
    HeaderLine(expireAt, []);
  }

  /** `Get` of the older engine treats a record as expired iff its expiry
      second is before the current second. */
  predicate GetExpired(expireAt: int, nowSec: int) {
    expireAt < nowSec
  }

  /** `Has` of the older engine reports presence iff the current second is
      before the expiry second. */
  predicate HasLive(expireAt: int, nowSec: int) {
    nowSec < expireAt
  }

  /** The two tests disagree exactly at the expiry second: there `Get` still
      serves the record while `Has` denies it; at every other second they agree. */
  lemma BoundaryDisagreement(expireAt: int, nowSec: int)
    ensures !GetExpired(expireAt, nowSec) && !HasLive(expireAt, nowSec) <==> nowSec == expireAt
    ensures nowSec != expireAt ==> (GetExpired(expireAt, nowSec) <==> !HasLive(expireAt, nowSec))
  {
  }
}
