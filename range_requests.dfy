/**
 * The `Range: bytes=<offset>-` header each attempt sends, and the open mode that goes with
 * its offset.
 */
module RangeRequests {
  import opened Files

  /** `'ab'` (keep the bytes on disk and write after them) or `'wb'` (start an empty file). */
  datatype Mode = Append | Truncate

  /** Append exactly when the resume offset is positive. */
  function ModeFor(resumePos: nat): Mode
  {
    if resumePos > 0 then Append else Truncate
  }

  predicate IsDigits(s: string)
  {
    forall i :: 0 <= i < |s| ==> '0' <= s[i] <= '9'
  }

  function Digit(d: nat): (c: char)
    requires d < 10
    ensures '0' <= c <= '9' && c as int - '0' as int == d
  {
    ('0' as int + d) as char
  }

  /** Python's `str` of a non-negative integer: decimal digits, no leading zero. */
  function Decimal(n: nat): (s: string)
    ensures |s| > 0 && IsDigits(s)
    ensures s[0] == '0' ==> s == "0"
    decreases n
  {
    if n < 10 then [Digit(n)] else Decimal(n / 10) + [Digit(n % 10)]
  }

  /** The number a string of decimal digits denotes. */
  function DigitsValue(s: string): nat
    requires IsDigits(s)
  {
    if s == [] then 0 else DigitsValue(s[..|s| - 1]) * 10 + (s[|s| - 1] as int - '0' as int)
  }

  lemma {:induction false} DecimalRoundTrip(n: nat)
    ensures DigitsValue(Decimal(n)) == n
  {
    if n >= 10 {
      DecimalRoundTrip(n / 10);
      var s := Decimal(n);
      assert s[..|s| - 1] == Decimal(n / 10);
    }
  }

  const RangePrefix := "bytes="

  /** The value of the Range header for a request that resumes at `resumePos`. */
  function RangeHeader(resumePos: nat): string
  {
    RangePrefix + Decimal(resumePos) + "-"
  }

  /** The offset named by an open-ended `bytes=<n>-` range, as a server reads it. */
  function ParseRange(header: string): Option<nat>
  {
    var n := |RangePrefix|;
    if |header| >= n + 2 && header[..n] == RangePrefix && header[|header| - 1] == '-'
       && IsDigits(header[n..|header| - 1])
    then Some(DigitsValue(header[n..|header| - 1]))
    else None
  }

  /** The header names exactly the resume offset: reading it back gives that offset. */
  lemma RangeHeaderRoundTrip(resumePos: nat)
    ensures ParseRange(RangeHeader(resumePos)) == Some(resumePos)
  {
    var h := RangeHeader(resumePos);
    var n := |RangePrefix|;
    assert h[..n] == RangePrefix;
    assert h[n..|h| - 1] == Decimal(resumePos);
    DecimalRoundTrip(resumePos);
  }

  /** Distinct offsets give distinct headers. */
  lemma RangeHeaderInjective(a: nat, b: nat)
    ensures RangeHeader(a) == RangeHeader(b) ==> a == b
  {
    RangeHeaderRoundTrip(a);
    RangeHeaderRoundTrip(b);
  }
}
