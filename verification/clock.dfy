/** The date half of the taskbar clock: the month number (the month index plus one), a slash and
    the day of the month, each in decimal with no padding. */
module Clock {
  import opened Dom

  predicate IsDigit(c: char) {
    '0' <= c <= '9'
  }

  predicate IsDigits(s: string) {
    forall i :: 0 <= i < |s| ==> IsDigit(s[i])
  }

  function DigitChar(d: nat): (c: char)
    requires d < 10
    ensures IsDigit(c) && c as int - '0' as int == d
  {
    ('0' as int + d) as char
  }

  /** The number a string of decimal digits denotes. */
  function DecimalValue(s: string): nat
    requires IsDigits(s)
  {
    if s == [] then 0 else DecimalValue(s[..|s| - 1]) * 10 + (s[|s| - 1] as int - '0' as int)
  }

  /** The decimal numeral JavaScript writes for `n` in a template literal: at least one digit,
      a leading zero only for zero itself, and denoting `n`. */
  function Decimal(n: nat): (r: string)
    ensures |r| >= 1 && IsDigits(r)
    ensures DecimalValue(r) == n
    ensures r[0] == '0' ==> n == 0 && r == "0"
  {
    if n < 10 then [DigitChar(n)]
    else
      var r := Decimal(n / 10) + [DigitChar(n % 10)];
      assert r[..|r| - 1] == Decimal(n / 10);
      r
  }

  /** The position of the first `c` in `s`. */
  function IndexOf(s: string, c: char): (r: Option<nat>)
    ensures r.Some? ==> r.value < |s| && s[r.value] == c && c !in s[..r.value]
    ensures r.None? ==> c !in s
  {
    if s == [] then None
    else if s[0] == c then Some(0)
    else
      match IndexOf(s[1..], c)
      case None => None
      case Some(k) =>
        assert s[..k + 1] == [s[0]] + s[1..][..k];
        Some(k + 1)
  }

  /** The date text for month index `month` (January is 0, as `getMonth` returns it) and day
      of the month `day`. */
  function DateString(month: nat, day: nat): (r: string)
    ensures |r| >= 3 && r[0] != '0'
    ensures '/' in r
  {
    var m := Decimal(month + 1);
    m + "/" + Decimal(day)
  }

  /** A numeral without padding: digits only, and a leading zero only in `0` itself. */
  predicate Unpadded(s: string) {
    s != [] && IsDigits(s) && (s[0] == '0' ==> s == "0")
  }

  /** Reads a `m/d` text back into its month number (from 1) and day; a padded number on
      either side, or month 0, is rejected. */
  function ParseDate(s: string): Option<(nat, nat)> {
    match IndexOf(s, '/')
    case None => None
    case Some(k) =>
      var m := s[..k];
      var d := s[k + 1..];
      if Unpadded(m) && Unpadded(d) && DecimalValue(m) >= 1 then Some((DecimalValue(m), DecimalValue(d)))
      else None
  }

  /** A numeral of only zeros denotes zero, and conversely. */
  lemma {:induction false} ZeroValue(s: string)
    requires IsDigits(s) && s != []
    ensures DecimalValue(s) == 0 ==> s[0] == '0'
  {
    var p := s[..|s| - 1];
    if |s| > 1 {
      assert IsDigits(p);
      ZeroValue(p);
      assert p[0] == s[0];
    }
  }

  /** An unpadded numeral is the one `Decimal` writes for its value. */
  lemma {:induction false} UnpaddedIsDecimal(s: string)
    requires Unpadded(s)
    ensures Decimal(DecimalValue(s)) == s
  {
    var n := DecimalValue(s);
    if |s| > 1 {
      var p := s[..|s| - 1];
      var c := s[|s| - 1];
      assert IsDigits(p) && p[0] == s[0];
      ZeroValue(p);
      UnpaddedIsDecimal(p);
      assert n == DecimalValue(p) * 10 + (c as int - '0' as int);
      assert n / 10 == DecimalValue(p) && n % 10 == c as int - '0' as int;
      assert s == p + [c];
    }
  }

  /** The slash that separates a digit string from the rest is the first one. */
  lemma {:induction false} FirstSlashAfterDigits(a: string, b: string)
    requires IsDigits(a)
    ensures IndexOf(a + "/" + b, '/') == Some(|a|)
  {
    if a != [] {
      assert (a + "/" + b)[1..] == a[1..] + "/" + b;
      FirstSlashAfterDigits(a[1..], b);
    }
  }

  /** The date text records the month number and the day exactly. */
  lemma DateRoundTrip(month: nat, day: nat)
    ensures ParseDate(DateString(month, day)) == Some((month + 1, day))
  {
    var m := Decimal(month + 1);
    var d := Decimal(day);
    var s := DateString(month, day);
    FirstSlashAfterDigits(m, d);
    assert s[..|m|] == m;
    assert s[|m| + 1..] == d;
  }

  /** The only texts read back as a date are the ones the clock writes: whatever parses as
      month `m` and day `d` is exactly the text for month index `m - 1` and day `d`. */
  lemma ParseOnlyDateStrings(s: string)
    requires ParseDate(s).Some?
    ensures var (m, d) := ParseDate(s).value; m >= 1 && DateString(m - 1, d) == s
  {
    var k := IndexOf(s, '/').value;
    var m := s[..k];
    var d := s[k + 1..];
    var mv := DecimalValue(m);
    UnpaddedIsDecimal(m);
    UnpaddedIsDecimal(d);
    assert DateString(mv - 1, DecimalValue(d)) == m + "/" + d;
    assert s == m + "/" + d;
  }

  /** A zero-padded day is not a date the clock writes. */
  lemma PaddedDayRejected()
    ensures ParseDate("7/04") == None
  {
    FirstSlashAfterDigits("7", "04");
    assert "7/04"[2..] == "04";
  }

  /** July 4th (month index 6) reads `7/4`. */
  lemma FourthOfJuly()
    ensures DateString(6, 4) == "7/4"
  {
  }
}
