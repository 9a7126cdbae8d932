/** The two decimal conversions the file engines rely on, as Go's `strconv`
    performs them on 64-bit integers: `FormatInt(x, 10)` when a record is
    written and `ParseInt(s, 10, 64)` when it is read back. */
module Strconv {
  import opened Common

  const MaxUint64: int := 0xFFFF_FFFF_FFFF_FFFF
  const Int64Min: int := -0x8000_0000_0000_0000
  const Int64Max: int := 0x7FFF_FFFF_FFFF_FFFF

  predicate IsInt64(x: int) {
    Int64Min <= x <= Int64Max
  }

  /** Two's-complement wrap-around to int64, as Go's int64 arithmetic does. */
  function Wrap64(x: int): (r: int)
    ensures IsInt64(r)
    ensures IsInt64(x) ==> r == x
    ensures (r - x) % 0x1_0000_0000_0000_0000 == 0
  {
    (x - Int64Min) % 0x1_0000_0000_0000_0000 + Int64Min
  }

  const Minus: Byte := 45  // '-'
  const Plus: Byte := 43   // '+'

  predicate IsDigit(b: Byte) {
    48 <= b <= 57
  }

  predicate AllDigits(s: Bytes) {
    forall i :: 0 <= i < |s| ==> IsDigit(s[i])
  }

  /** The decimal digits of `n`, most significant first, without leading zeros. */
  function Digits(n: nat): (r: Bytes)
    ensures |r| > 0 && AllDigits(r)
    ensures n < 10 <==> |r| == 1
  {
    if n < 10 then [48 + n] else Digits(n / 10) + [48 + n % 10]
  }

  /** `strconv.FormatInt(x, 10)`. */
  function FormatInt(x: int): (r: Bytes)
    ensures NL !in r
    ensures |r| > 0
  {
    if x < 0 then [Minus] + Digits(-x) else Digits(x)
  }

  const ErrSyntax: Error := Message("invalid syntax")
  const ErrRange: Error := Message("value out of range")

  /** The digit loop of `strconv.ParseUint(s, 10, 64)`, scanning left to right
      from the accumulated value `acc`: a non-digit is a syntax error, a value
      past the uint64 range is a range error, whichever comes first. */
  function ScanUint(s: Bytes, acc: nat): Result<nat>
    decreases |s|
  {
    if s == [] then Ok(acc)
    else if !IsDigit(s[0]) then Fail(ErrSyntax)
    else if acc * 10 + (s[0] - 48) > MaxUint64 then Fail(ErrRange)
    else ScanUint(s[1..], acc * 10 + (s[0] - 48))
  }

  /** `strconv.ParseUint(s, 10, 64)`. */
  function ParseUint(s: Bytes): Result<nat>
  {
    if s == [] then Fail(ErrSyntax) else ScanUint(s, 0)
  }

  /** `strconv.ParseInt(s, 10, 64)`: an optional sign, then the unsigned parse,
      then the int64 range check. */
  function ParseInt(s: Bytes): (r: Result<int>)
    ensures r.Ok? ==> IsInt64(r.value)
    ensures s == [] ==> r == Fail(ErrSyntax)
    ensures |Unsigned(s)| == 0 ==> r == Fail(ErrSyntax)
    ensures !AllDigits(Unsigned(s)) ==> r.Fail?
  {
    if s == [] then Fail(ErrSyntax)
    else
      var neg := s[0] == Minus;
      var body := Unsigned(s);
      NonDigitFails(body, 0);
      match ParseUint(body)
      case Fail(e) => Fail(e)
      case Ok(un) =>
        if !neg && un > Int64Max then Fail(ErrRange)
        else if neg && un > -Int64Min then Fail(ErrRange)
        else
          var u: int := un;
          var v: int := if neg then -u else u;
          Ok(v)
  }

  /** The text after an optional leading sign. */
  function Unsigned(s: Bytes): (u: Bytes)
    ensures |s| > 0 && (s[0] == Minus || s[0] == Plus) ==> u == s[1..]
    ensures !(|s| > 0 && (s[0] == Minus || s[0] == Plus)) ==> u == s
  {
    if |s| > 0 && (s[0] == Minus || s[0] == Plus) then s[1..] else s
  }

  /** A non-digit anywhere ahead makes the digit loop fail, whether with the
      syntax error or with an earlier range error. */
  lemma {:induction false} NonDigitFails(s: Bytes, acc: nat)
    ensures !AllDigits(s) ==> ScanUint(s, acc).Fail?
  {
    if !AllDigits(s) && IsDigit(s[0]) && acc * 10 + (s[0] - 48) <= MaxUint64 {
      assert !AllDigits(s[1..]) by {
        var i :| 0 <= i < |s| && !IsDigit(s[i]);
        assert s[1..][i - 1] == s[i];
      }
      NonDigitFails(s[1..], acc * 10 + (s[0] - 48));
    }
  }

  function Pow10(n: nat): (r: nat)
    ensures r >= 1
  {
    if n == 0 then 1 else 10 * Pow10(n - 1)
  }

  /** The number a digit string denotes, read from its last digit. */
  function DecValue(s: Bytes): nat
    requires AllDigits(s)
  {
    if s == [] then 0 else DecValue(s[..|s| - 1]) * 10 + (s[|s| - 1] - 48)
  }

  /** The same number, read from its first digit. */
  lemma {:induction false} DecValueFront(s: Bytes)
    requires AllDigits(s) && |s| > 0
    ensures DecValue(s) == (s[0] - 48) * Pow10(|s| - 1) + DecValue(s[1..])
  {
    if |s| > 1 {
      var init := s[..|s| - 1];
      var d, last := s[0] - 48, s[|s| - 1] - 48;
      var p := Pow10(|s| - 2);
      DecValueFront(init);
      assert init[1..] == s[1..][..|s[1..]| - 1];
      assert init[0] == s[0];
      var r := DecValue(init[1..]);
      assert DecValue(init) == d * p + r;
      assert DecValue(s[1..]) == r * 10 + last;
      assert DecValue(s) == DecValue(init) * 10 + last;
      assert Pow10(|s| - 1) == 10 * p;
      Regroup(d, p, r, last);
    }
  }

  lemma Regroup(d: int, p: int, r: int, last: int)
    ensures (d * p + r) * 10 + last == d * (10 * p) + (r * 10 + last)
  {
  }

  /** Scanning a digit string never errs while the value fits in 64 bits, and
      yields that value; past the range it is a range error. */
  lemma {:induction false} ScanUintValue(s: Bytes, acc: nat)
    requires AllDigits(s) && acc <= MaxUint64
    ensures ScanUint(s, acc) ==
              if acc * Pow10(|s|) + DecValue(s) <= MaxUint64
              then Ok(acc * Pow10(|s|) + DecValue(s)) else Fail(ErrRange)
  {
    if s != [] {
      var next := acc * 10 + (s[0] - 48);
      var total := acc * Pow10(|s|) + DecValue(s);
      var p := Pow10(|s| - 1);
      var rest := DecValue(s[1..]);
      assert total == next * p + rest by {
        DecValueFront(s);
        ShiftDigit(acc, s[0] - 48, p);
      }
      if next > MaxUint64 {
        assert ScanUint(s, acc) == Fail(ErrRange);
        AtLeastOnce(next, p);
        assert total > MaxUint64;
      } else {
        assert ScanUint(s, acc) == ScanUint(s[1..], next);
        ScanUintValue(s[1..], next);
        assert |s[1..]| == |s| - 1;
        assert next * Pow10(|s[1..]|) + DecValue(s[1..]) == total;
      }
    } else {
      assert Pow10(|s|) == 1 && DecValue(s) == 0;
      assert acc * Pow10(|s|) + DecValue(s) == acc;
    }
  }

  lemma ShiftDigit(acc: nat, d: nat, p: nat)
    ensures acc * (10 * p) + d * p == (acc * 10 + d) * p
  {
  }

  lemma AtLeastOnce(n: nat, p: nat)
    requires p >= 1
    ensures n * p >= n
  {
  }

  lemma {:induction false} DigitsValue(n: nat)
    ensures DecValue(Digits(n)) == n
  {
    if n >= 10 {
      var ds := Digits(n / 10) + [48 + n % 10];
      assert ds[..|ds| - 1] == Digits(n / 10);
      DigitsValue(n / 10);
    }
  }

  /** Reading back what FormatInt wrote gives the same int64. */
  lemma FormatIntRoundTrip(x: int)
    requires IsInt64(x)
    ensures ParseInt(FormatInt(x)) == Ok(x)
  {
    var n: nat := if x < 0 then -x else x;
    var ds := Digits(n);
    DigitsValue(n);
    ScanUintValue(ds, 0);
    if x < 0 {
      assert FormatInt(x)[1..] == ds;
    }
  }
}
