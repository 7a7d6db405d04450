/** Character classes of JavaScript regular expressions, decimal digit
    strings as `parseInt(s, 10)` reads them and `Number.prototype.toString`
    writes them, and the two-digit padding of the countdown display. */
module Chars {

  /** `\d`: an ASCII decimal digit. */
  predicate IsDigit(c: char) {
    '0' <= c <= '9'
  }

  predicate IsDigits(s: string) {
    forall i :: 0 <= i < |s| ==> IsDigit(s[i])
  }

  /** What `\d+` matches: a non-empty run of digits. */
  predicate IsNumeral(s: string) {
    |s| > 0 && IsDigits(s)
  }

  /** `\s`: the white-space and line-terminator characters of ECMAScript. */
  predicate IsSpace(c: char) {
    c == '\t' || c == '\n' || c == '\U{000B}' || c == '\U{000C}' || c == '\r' || c == ' '
    || c == '\U{00A0}' || c == '\U{1680}' || ('\U{2000}' <= c <= '\U{200A}')
    || c == '\U{2028}' || c == '\U{2029}' || c == '\U{202F}' || c == '\U{205F}'
    || c == '\U{3000}' || c == '\U{FEFF}'
  }

  /** The characters that `.` does not match (no `s` flag). */
  predicate IsLineTerminator(c: char) {
    c == '\n' || c == '\r' || c == '\U{2028}' || c == '\U{2029}'
  }

  /** The longest digit prefix of `s` and what follows it: the only way a
      greedy `\d+` (or `\d{n,}`) can be followed by a non-digit. */
  function SplitDigits(s: string): (r: (string, string))
    ensures r.0 + r.1 == s
    ensures IsDigits(r.0)
    ensures r.1 == [] || !IsDigit(r.1[0])
  {
    if s != [] && IsDigit(s[0]) then
      var (d, rest) := SplitDigits(s[1..]);
      ([s[0]] + d, rest)
    else
      ([], s)
  }

  /** The split is determined by the string: any digits followed by a
      non-digit (or nothing) is the split. */
  lemma {:induction false} SplitDigitsOf(ds: string, rest: string)
    requires IsDigits(ds)
    requires rest == [] || !IsDigit(rest[0])
    ensures SplitDigits(ds + rest) == (ds, rest)
  {
    if ds == [] {
      assert ds + rest == rest;
    } else {
      assert (ds + rest)[1..] == ds[1..] + rest;
      SplitDigitsOf(ds[1..], rest);
      assert [ds[0]] + ds[1..] == ds;
    }
  }

  /** After a digit string, `SplitDigits` carries on into what follows. */
  lemma SplitDigitsAfter(ds: string, x: string)
    requires IsDigits(ds)
    ensures SplitDigits(ds + x) == (ds + SplitDigits(x).0, SplitDigits(x).1)
  {
    var d := SplitDigits(x);
    assert ds + x == (ds + d.0) + d.1;
    SplitDigitsOf(ds + d.0, d.1);
  }

  function DigitValue(c: char): nat
    requires IsDigit(c)
  {
    c as int - '0' as int
  }

  function DigitChar(d: nat): (c: char)
    requires d < 10
    ensures IsDigit(c) && DigitValue(c) == d
  {
    ('0' as int + d) as char
  }

  /** `parseInt(s, 10)` on a digit string: its base-10 value, leading zeros
      allowed. */
  function Decimal(s: string): nat
    requires IsDigits(s)
  {
    if s == [] then 0 else Decimal(s[..|s| - 1]) * 10 + DigitValue(s[|s| - 1])
  }

  /** Leading zeros do not change the value. */
  lemma {:induction false} DecimalLeadingZeros(zeros: string, s: string)
    requires forall i :: 0 <= i < |zeros| ==> zeros[i] == '0'
    requires IsDigits(s)
    ensures IsDigits(zeros + s)
    ensures Decimal(zeros + s) == Decimal(s)
  {
    if s == [] {
      assert zeros + s == zeros;
      DecimalOfZeros(zeros);
    } else {
      var init := s[..|s| - 1];
      assert (zeros + s)[..|zeros + s| - 1] == zeros + init;
      DecimalLeadingZeros(zeros, init);
    }
  }

  lemma {:induction false} DecimalOfZeros(zeros: string)
    requires forall i :: 0 <= i < |zeros| ==> zeros[i] == '0'
    ensures IsDigits(zeros) && Decimal(zeros) == 0
  {
    if zeros != [] {
      DecimalOfZeros(zeros[..|zeros| - 1]);
    }
  }

  /** `Number.prototype.toString()` of a non-negative integer: decimal, no
      leading zero. */
  function NatToString(n: nat): (r: string)
    ensures IsNumeral(r)
    ensures Decimal(r) == n
    ensures r[0] == '0' ==> r == "0"
    ensures n < 10 ==> |r| == 1
    ensures 10 <= n < 100 ==> |r| == 2
  {
    if n < 10 then
      [DigitChar(n)]
    else
      var r := NatToString(n / 10) + [DigitChar(n % 10)];
      assert r[..|r| - 1] == NatToString(n / 10);
      r
  }

  /** The decimal rendering is "0" exactly for zero. */
  lemma NatToStringZero(n: nat)
    ensures NatToString(n) == "0" <==> n == 0
  {
    if NatToString(n) == "0" {
      assert Decimal("0") == 0;
    }
  }

  /** `x < 10 ? '0' + x.toString() : x.toString()`. */
  function Pad2(n: nat): (r: string)
    ensures IsNumeral(r) && Decimal(r) == n
    ensures n < 100 ==> |r| == 2
  {
    if n < 10 then
      var r := "0" + NatToString(n);
      assert r[..|r| - 1] == "0";
      assert Decimal("0") == 0;
      r
    else
      NatToString(n)
  }
}
