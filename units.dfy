/** The unit conversions of the countdown object: digit strings to
    milliseconds (`sToMs` … `dToMs`) and milliseconds to the seconds,
    minutes, hours and days fields of the remaining time (`msToS` … `msToD`). */
module Units {
  import opened Chars

  // A second is 1000 ms, a minute 60000 ms, an hour 3600000 ms and a day
  // 86400000 ms.

  /** `sToMs`: a whole number of seconds, namely the decimal value of `s`. */
  function SToMs(s: string): (ms: nat)
    requires IsNumeral(s)
    ensures ms == Decimal(s) * 1000
  {
    Decimal(s) * 1000
  }

  /** `mToMs`: a whole number of minutes, namely the decimal value of `s`. */
  function MToMs(s: string): (ms: nat)
    requires IsNumeral(s)
    ensures ms == Decimal(s) * 60000
  {
    Decimal(s) * 60 * 1000
  }

  /** `hToMs`: a whole number of hours, namely the decimal value of `s`. */
  function HToMs(s: string): (ms: nat)
    requires IsNumeral(s)
    ensures ms == Decimal(s) * 3600000
  {
    Decimal(s) * 60 * 60 * 1000
  }

  /** `dToMs`: a whole number of days, namely the decimal value of `s`. */
  function DToMs(s: string): (ms: nat)
    requires IsNumeral(s)
    ensures ms == Decimal(s) * 86400000
  {
    Decimal(s) * 24 * 60 * 60 * 1000
  }

  /** Leading zeros in the digit string change none of the conversions. */
  lemma ConversionLeadingZeros(zeros: string, s: string)
    requires forall i :: 0 <= i < |zeros| ==> zeros[i] == '0'
    requires IsNumeral(s)
    ensures IsNumeral(zeros + s)
    ensures SToMs(zeros + s) == SToMs(s) && MToMs(zeros + s) == MToMs(s)
    ensures HToMs(zeros + s) == HToMs(s) && DToMs(zeros + s) == DToMs(s)
  {
    DecimalLeadingZeros(zeros, s);
  }

  /** The numeral `toString` writes for `n` converts to `n` whole seconds,
      minutes, hours or days. */
  lemma ToMsOfNumeral(n: nat)
    ensures SToMs(NatToString(n)) == n * 1000 && MToMs(NatToString(n)) == n * 60000
    ensures HToMs(NatToString(n)) == n * 3600000 && DToMs(NatToString(n)) == n * 86400000
  {
  }

  /** Splitting a converted count gives the number back as days, and as
      hours, minutes and seconds modulo their range. */
  lemma FieldsOfConversion(s: string)
    requires IsNumeral(s)
    ensures MsToD(DToMs(s)) == Decimal(s)
    ensures MsToH(HToMs(s)) == Decimal(s) % 24
    ensures MsToM(MToMs(s)) == Decimal(s) % 60
    ensures MsToS(SToMs(s)) == Decimal(s) % 60
  {
    var n := Decimal(s);
    DivOf(n * 86400000, 86400000, n, 0);
    DivOf(n * 3600000, 3600000, n, 0);
    DivOf(n * 60000, 60000, n, 0);
    DivOf(n * 1000, 1000, n, 0);
  }

  /** `parseInt(x, 10)` of a quotient `a / d` computed in floating point:
      truncation toward zero. */
  function TruncDiv(a: int, d: nat): int
    requires d > 0
  {
    if a >= 0 then a / d else -((-a) / d)
  }

  /** `parseInt((a / d) % m, 10)`: JavaScript's `%` keeps the sign of the
      dividend, and `parseInt` truncates toward zero. */
  function TruncDivMod(a: int, d: nat, m: nat): int
    requires d > 0 && m > 0
  {
    if a >= 0 then (a / d) % m else -(((-a) / d) % m)
  }

  /** `msToS`: the seconds field, in 0..59 for a non-negative count. */
  function MsToS(ms: int): (r: int)
    ensures ms >= 0 ==> 0 <= r < 60
    ensures ms <= 0 ==> -60 < r <= 0
  {
    TruncDivMod(ms, 1000, 60)
  }

  /** `msToM`: the minutes field, in 0..59 for a non-negative count. */
  function MsToM(ms: int): (r: int)
    ensures ms >= 0 ==> 0 <= r < 60
    ensures ms <= 0 ==> -60 < r <= 0
  {
    TruncDivMod(ms, 1000 * 60, 60)
  }

  /** `msToH`: the hours field, in 0..23 for a non-negative count. */
  function MsToH(ms: int): (r: int)
    ensures ms >= 0 ==> 0 <= r < 24
    ensures ms <= 0 ==> -24 < r <= 0
  {
    TruncDivMod(ms, 1000 * 60 * 60, 24)
  }

  /** `msToD`: the number of whole days, unbounded. */
  function MsToD(ms: int): (r: int)
    ensures ms >= 0 ==> r >= 0 && r * 86400000 <= ms < r * 86400000 + 86400000
    ensures ms <= 0 ==> r <= 0
  {
    TruncDiv(ms, 1000 * 60 * 60 * 24)
  }

  // `parseInt` of a number goes through `toString`, which writes numbers
  // below 10^-6 in exponent notation ("5.787037037037037e-7"): `parseInt`
  // then reads the leading digit, not 0.

  /** The first significant decimal digit of `p / q`, for `0 < p < q`. */
  function LeadingDigit(p: nat, q: nat): (d: nat)
    requires 0 < p < q
    ensures 1 <= d <= 9
    decreases q - p
  {
    var n := p * 10;
    if n >= q then
      DigitBounds(n, q, p);
      n / q
    else
      LeadingDigit(n, q)
  }

  /** A quotient of at least 1 and below 10 is a single digit. */
  lemma DigitBounds(n: nat, q: nat, p: nat)
    requires 0 < p < q && n == p * 10 && q <= n
    ensures 1 <= n / q <= 9
  {
    var d, r := n / q, n % q;
    assert n == d * q + r;
    if d >= 10 {
      MulMono(10, d, q);
    }
  }

  /** `msToD` as written, on the counts of fewer than 87 ms either side of
      0: the quotient by a day is then below 10^-6 and `parseInt` reads its
      leading digit. Elsewhere it is `MsToD`. */
  function MsToDAsWritten(ms: int): int {
    if 0 < ms < 87 then LeadingDigit(ms, 86400000)
    else if -87 < ms < 0 then -(LeadingDigit(-ms, 86400000) as int)
    else MsToD(ms)
  }

  /** `msToH` as written: `(ms / 3600000) % 24` is below 10^-6 when the
      count is 1 to 3 ms past a whole number of days (either side of 0),
      and `parseInt` reads its leading digit. Elsewhere it is `MsToH`. */
  function MsToHAsWritten(ms: int): int {
    var r := if ms >= 0 then ms % 86400000 else -((-ms) % 86400000);
    if 0 < r < 4 then LeadingDigit(r, 3600000)
    else if -4 < r < 0 then -(LeadingDigit(-r, 3600000) as int)
    else MsToH(ms)
  }

  /** On every count of 1 to 86 ms `msToD` as written reports at least a
      whole day, more time than there is: 50 ms read as 5 days. */
  lemma MsToDAsWrittenOvercounts(ms: int)
    requires 0 < ms < 87
    ensures MsToDAsWritten(ms) >= 1 && MsToDAsWritten(ms) * 86400000 > ms
    ensures MsToD(ms) == 0
  {
  }

  /** One to three ms past a whole number of days, `msToH` as written
      reports 2, 5 or 8 hours where there are none. */
  lemma MsToHAsWrittenOvercounts(ms: int)
    requires ms >= 0 && 0 < ms % 86400000 < 4
    ensures MsToHAsWritten(ms) >= 1 && MsToHAsWritten(ms) * 3600000 > ms % 86400000
    ensures MsToH(ms) == 0
  {
    RoundTripAt(ms, ms / 86400000, 0, 0, 0, ms % 86400000);
  }

  /** The concrete counts: 50 ms read as 5 days, and a day and 1 ms read
      as a day and 2 hours. */
  lemma AsWrittenExamples()
    ensures MsToDAsWritten(50) == 5 && MsToD(50) == 0
    ensures MsToD(86400001) == 1 && MsToHAsWritten(86400001) == 2 && MsToH(86400001) == 0
  {
    RoundTripAt(86400001, 1, 0, 0, 0, 1);
  }

  /** The fields of a non-negative count add back up to it, up to the
      milliseconds below a whole second. */
  lemma Decompose(ms: nat)
    ensures MsToD(ms) * 86400000 + MsToH(ms) * 3600000 + MsToM(ms) * 60000
            + MsToS(ms) * 1000 + ms % 1000 == ms
  {
    var s := ms / 1000;
    var m := ms / 60000;
    var h := ms / 3600000;
    var d := ms / 86400000;
    assert m == s / 60;
    assert h == m / 60;
    assert d == h / 24;
    assert ms == s * 1000 + ms % 1000;
    assert s == m * 60 + s % 60;
    assert m == h * 60 + m % 60;
    assert h == d * 24 + h % 24;
  }

  /** Converting days, hours, minutes and seconds to milliseconds and
      splitting the sum again gives the same fields back, for in-range hours,
      minutes and seconds and fewer than 1000 extra milliseconds. */
  lemma ConversionRoundTrip(d: string, h: string, m: string, s: string, extra: nat)
    requires IsNumeral(d) && IsNumeral(h) && IsNumeral(m) && IsNumeral(s)
    requires Decimal(h) < 24 && Decimal(m) < 60 && Decimal(s) < 60 && extra < 1000
    ensures var ms := DToMs(d) + HToMs(h) + MToMs(m) + SToMs(s) + extra;
            MsToD(ms) == Decimal(d) && MsToH(ms) == Decimal(h)
            && MsToM(ms) == Decimal(m) && MsToS(ms) == Decimal(s)
  {
    var D, H, M, S := Decimal(d), Decimal(h), Decimal(m), Decimal(s);
    RoundTripAt(DToMs(d) + HToMs(h) + MToMs(m) + SToMs(s) + extra, D, H, M, S, extra);
  }

  lemma RoundTripAt(ms: nat, D: nat, H: nat, M: nat, S: nat, extra: nat)
    requires H < 24 && M < 60 && S < 60 && extra < 1000
    requires ms == D * 86400000 + H * 3600000 + M * 60000 + S * 1000 + extra
    ensures MsToD(ms) == D && MsToH(ms) == H && MsToM(ms) == M && MsToS(ms) == S
  {
    FieldsOf(D, H, M, S, extra);
    FieldsOfNat(ms);
  }

  /** For a non-negative count the fields are plain Euclidean quotients
      and remainders. */
  lemma FieldsOfNat(ms: nat)
    ensures MsToD(ms) == ms / 86400000 && MsToH(ms) == (ms / 3600000) % 24
    ensures MsToM(ms) == (ms / 60000) % 60 && MsToS(ms) == (ms / 1000) % 60
  {
  }

  lemma FieldsOf(D: nat, H: nat, M: nat, S: nat, extra: nat)
    requires H < 24 && M < 60 && S < 60 && extra < 1000
    ensures var ms := D * 86400000 + H * 3600000 + M * 60000 + S * 1000 + extra;
            ms / 86400000 == D && (ms / 3600000) % 24 == H
            && (ms / 60000) % 60 == M && (ms / 1000) % 60 == S
  {
    var ms := D * 86400000 + H * 3600000 + M * 60000 + S * 1000 + extra;
    DivOf(ms, 86400000, D, H * 3600000 + M * 60000 + S * 1000 + extra);
    DivOf(ms, 3600000, D * 24 + H, M * 60000 + S * 1000 + extra);
    DivOf(D * 24 + H, 24, D, H);
    DivOf(ms, 60000, (D * 24 + H) * 60 + M, S * 1000 + extra);
    DivOf((D * 24 + H) * 60 + M, 60, D * 24 + H, M);
    DivOf(ms, 1000, ((D * 24 + H) * 60 + M) * 60 + S, extra);
    DivOf(((D * 24 + H) * 60 + M) * 60 + S, 60, (D * 24 + H) * 60 + M, S);
  }

  /** Euclidean division is determined by its defining equation. */
  lemma DivOf(n: int, d: int, q: int, r: int)
    requires d > 0 && n == q * d + r && 0 <= r < d
    ensures n / d == q && n % d == r
  {
    var q' := n / d;
    if q' > q {
      MulMono(q + 1, q', d);
    } else if q' < q {
      MulMono(q' + 1, q, d);
    }
  }

  lemma MulMono(a: int, b: int, d: int)
    ensures a <= b && d >= 0 ==> a * d <= b * d
  {
    if a <= b && d >= 0 {
      assert b * d == a * d + (b - a) * d;
    }
  }
}
