/** The example strings of jquery.countdown.js: the usage list in the
    header comment (jquery.countdown.js:29-56), the date-time table
    (jquery.countdown.js:239-246) and the human-readable table
    (jquery.countdown.js:291-300), each worked through the matchers and
    `parseEndDate`, and the conversion examples of test/unit/conversion.js. */
module DocTables {
  import opened Wrappers
  import opened Chars
  import DurationGrammar
  import DateTimeGrammar
  import HumanGrammar
  import HumanCases
  import Resolver
  import Units

  lemma Decimal2(s: string)
    requires |s| == 2 && IsDigits(s)
    ensures Decimal(s) == DigitValue(s[0]) * 10 + DigitValue(s[1])
  {
    assert s[..1][0] == s[0];
    Decimal1(s[..1]);
  }

  lemma Decimal1(s: string)
    requires |s| == 1 && IsDigits(s)
    ensures Decimal(s) == DigitValue(s[0])
  {
    assert s[..0] == [];
  }

  lemma Decimal3(s: string)
    requires |s| == 3 && IsDigits(s)
    ensures Decimal(s) == DigitValue(s[0]) * 100 + DigitValue(s[1]) * 10 + DigitValue(s[2])
  {
    Decimal2(s[..2]);
  }

  // Conversions (test/unit/conversion.js:1-91).

  /** String to milliseconds: "1" and "10" of each unit. */
  lemma ToMsExamples()
    ensures Units.SToMs("0") == 0 && Units.SToMs("1") == 1000 && Units.SToMs("10") == 10000
    ensures Units.MToMs("1") == 60000 && Units.MToMs("10") == 600000
    ensures Units.HToMs("1") == 3600000 && Units.HToMs("10") == 36000000
    ensures Units.DToMs("1") == 86400000 && Units.DToMs("10") == 864000000
  {
    Decimal1("0");
    Decimal1("1");
    Decimal2("10");
  }

  /** Milliseconds to fields: a year of 365 days and a field added to it
      give the field back, and 365 days and 24 hours make 366 days. */
  lemma FieldExamples()
    ensures Units.MsToS(Units.DToMs("365") + Units.SToMs("59")) == 59
    ensures Units.MsToM(Units.DToMs("365") + Units.MToMs("59")) == 59
    ensures Units.MsToH(Units.DToMs("365") + Units.HToMs("23")) == 23
    ensures Units.MsToD(Units.DToMs("365") + Units.HToMs("24")) == 366
    ensures Units.MsToD(Units.HToMs("23")) == 0
  {
    Decimal3("365");
    Decimal2("59");
    Decimal2("23");
    Decimal2("24");
    Units.RoundTripAt(365 * 86400000 + 59 * 1000, 365, 0, 0, 59, 0);
    Units.RoundTripAt(365 * 86400000 + 59 * 60000, 365, 0, 59, 0, 0);
    Units.RoundTripAt(365 * 86400000 + 23 * 3600000, 365, 23, 0, 0, 0);
    Units.RoundTripAt(366 * 86400000, 366, 0, 0, 0, 0);
    Units.RoundTripAt(23 * 3600000, 0, 23, 0, 0, 0);
  }

  // Durations (jquery.countdown.js:37-41).

  /** "PT00M10S" ends ten seconds after `now`. */
  lemma DurationTenSeconds(now: int, host: Resolver.Host)
    requires host.dateParse("PT00M10S").None?
    ensures Resolver.ParseEndDate("PT00M10S", now, host) == Resolver.Resolved(now + 10000)
  {
    var p := DurationGrammar.Parse(None, true, None, Some("00"), Some("10"));
    TenSecondsParse(p);
    Resolver.DurationMeaning("PT00M10S", now, host, p);
  }

  lemma TenSecondsParse(p: DurationGrammar.Parse)
    requires p == DurationGrammar.Parse(None, true, None, Some("00"), Some("10"))
    ensures DurationGrammar.WellFormed(p) && DurationGrammar.Render(p) == "PT00M10S"
    ensures DurationGrammar.OffsetMs(p) == 10000
  {
    assert DurationGrammar.Render(p) == "PT00M10S";
    Decimal2("00");
    Decimal2("10");
  }

  /** "P2DT20H00M10S": two days, twenty hours and ten seconds. */
  lemma DurationDaysAndHours(now: int, host: Resolver.Host)
    requires host.dateParse("P2DT20H00M10S").None?
    ensures Resolver.ParseEndDate("P2DT20H00M10S", now, host)
            == Resolver.Resolved(now + 2 * 86400000 + 20 * 3600000 + 10000)
  {
    var p := DurationGrammar.Parse(Some("2"), true, Some("20"), Some("00"), Some("10"));
    DaysAndHoursParse(p);
    Resolver.DurationMeaning("P2DT20H00M10S", now, host, p);
  }

  lemma DaysAndHoursParse(p: DurationGrammar.Parse)
    requires p == DurationGrammar.Parse(Some("2"), true, Some("20"), Some("00"), Some("10"))
    ensures DurationGrammar.WellFormed(p) && DurationGrammar.Render(p) == "P2DT20H00M10S"
    ensures DurationGrammar.OffsetMs(p) == 2 * 86400000 + 20 * 3600000 + 10000
  {
    assert DurationGrammar.Render(p) == "P2DT20H00M10S";
    Decimal1("2");
    Decimal2("20");
    Decimal2("00");
    Decimal2("10");
  }

  /** A bare "P" is the empty duration: the countdown ends at once. */
  lemma DurationEmpty(now: int, host: Resolver.Host)
    requires host.dateParse("P").None?
    ensures Resolver.ParseEndDate("P", now, host) == Resolver.Resolved(now)
  {
    var p := DurationGrammar.Parse(None, false, None, None, None);
    assert DurationGrammar.Render(p) == "P";
    Resolver.DurationMeaning("P", now, host, p);
  }

  lemma Decimal4(s: string)
    requires |s| == 4 && IsDigits(s)
    ensures Decimal(s) == DigitValue(s[0]) * 1000 + DigitValue(s[1]) * 100 + DigitValue(s[2]) * 10 + DigitValue(s[3])
  {
    Decimal3(s[..3]);
  }

  // Date-times (jquery.countdown.js:239-246).

  /** A date-time string whose tail the matcher splits as `q` does is
      matched as `q` and resolved from it. */
  lemma DateTimeCase(s: string, q: DateTimeGrammar.Parse, now: int, host: Resolver.Host)
    requires host.dateParse(s).None?
    requires DateTimeGrammar.WellFormed(q) && DateTimeGrammar.Render(q) == s
    requires DateTimeGrammar.MatchTail(DateTimeGrammar.RenderTail(q.second, q.fraction, q.zone))
             == Some((q.second, q.fraction, q.zone))
    ensures DateTimeGrammar.Match(s) == Some(q)
    ensures Resolver.ParseEndDate(s, now, host) == Resolver.DateTimeResolution(q, host)
  {
    DateTimeGrammar.MatchHeadRender(q.head, DateTimeGrammar.RenderTail(q.second, q.fraction, q.zone));
    Resolver.DateTimeMeaning(s, now, host);
  }

  /** "2012-12-08T13:30:39+0100" is 13:30:39 on 8 December 2012 (month
      index 11) in local time, moved back one hour for the `+0100` offset. */
  lemma DateTimeWithOffset(now: int, host: Resolver.Host)
    requires host.dateParse("2012-12-08T13:30:39+0100").None?
    ensures Resolver.ParseEndDate("2012-12-08T13:30:39+0100", now, host)
            == Resolver.Resolved(host.civil(13 * 3600000 + 30 * 60000 + 39000, 8, 11, 2012) - 3600000)
  {
    var q := DateTimeGrammar.Parse(DateTimeGrammar.Head("2012", "12", "08", 'T', "13", "30"), Some("39"), None, Some("+0100"));
    WithOffsetParse(q);
    DateTimeCase("2012-12-08T13:30:39+0100", q, now, host);
    WithOffsetFields(q, host);
  }

  lemma WithOffsetParse(q: DateTimeGrammar.Parse)
    requires q == DateTimeGrammar.Parse(DateTimeGrammar.Head("2012", "12", "08", 'T', "13", "30"), Some("39"), None, Some("+0100"))
    ensures DateTimeGrammar.WellFormed(q) && DateTimeGrammar.Render(q) == "2012-12-08T13:30:39+0100"
    ensures DateTimeGrammar.MatchTail(DateTimeGrammar.RenderTail(q.second, q.fraction, q.zone))
            == Some((q.second, q.fraction, q.zone))
  {
    assert DateTimeGrammar.RenderTail(q.second, q.fraction, q.zone) == ":39+0100";
    WithOffsetHead(q.head, ":39+0100");
    assert DateTimeGrammar.IsZoneString("+0100");
    SecondsThenOffset();
  }

  lemma WithOffsetHead(h: DateTimeGrammar.Head, rest: string)
    requires h == DateTimeGrammar.Head("2012", "12", "08", 'T', "13", "30") && rest == ":39+0100"
    ensures DateTimeGrammar.HeadText(h, rest) == "2012-12-08T13:30:39+0100"
  {
  }

  lemma SecondsThenOffset()
    ensures DateTimeGrammar.MatchTail(":39+0100") == Some((Some("39"), None, Some("+0100")))
  {
    DateTimeGrammar.SecondsOf("39", "+0100");
    assert DateTimeGrammar.OptText(":", Some("39")) + "+0100" == ":39+0100";
    assert DateTimeGrammar.Fraction("+0100") == (None, "+0100");
    assert DateTimeGrammar.IsZoneString("+0100");
  }

  lemma WithOffsetFields(q: DateTimeGrammar.Parse, host: Resolver.Host)
    requires q == DateTimeGrammar.Parse(DateTimeGrammar.Head("2012", "12", "08", 'T', "13", "30"), Some("39"), None, Some("+0100"))
    ensures DateTimeGrammar.WellFormed(q)
    ensures Resolver.DateTimeResolution(q, host)
            == Resolver.Resolved(host.civil(13 * 3600000 + 30 * 60000 + 39000, 8, 11, 2012) - 3600000)
  {
    TimeOfDayOf(q);
    DateOf();
    DateTimeGrammar.ZoneOffsetOneHour();
    ResolutionOf(q, host, 13 * 3600000 + 30 * 60000 + 39000, 8, 12, 2012, -3600000,
                 host.civil(13 * 3600000 + 30 * 60000 + 39000, 8, 11, 2012) - 3600000);
  }

  lemma DateOf()
    ensures Decimal("08") == 8 && Decimal("12") == 12 && Decimal("2012") == 2012
  {
    Decimal2("08");
    Decimal2("12");
    Decimal4("2012");
  }

  lemma ResolutionOf(q: DateTimeGrammar.Parse, host: Resolver.Host, time: int, day: int, month: int, year: int, offset: int,
                     expected: int)
    requires DateTimeGrammar.WellFormed(q) && q.zone.Some?
    requires DateTimeGrammar.TimeOfDayMs(q) == time && Decimal(q.head.day) == day
    requires Decimal(q.head.month) == month && Decimal(q.head.year) == year
    requires DateTimeGrammar.ZoneOffsetMs(q.zone.value) == offset
    requires expected == host.civil(time, day, month - 1, year) + offset
    ensures Resolver.DateTimeResolution(q, host) == Resolver.Resolved(expected)
  {
    var local := host.civil(DateTimeGrammar.TimeOfDayMs(q), Decimal(q.head.day), Decimal(q.head.month) - 1, Decimal(q.head.year));
    assert local == host.civil(time, day, month - 1, year);
  }

  lemma TimeOfDayOf(q: DateTimeGrammar.Parse)
    requires q == DateTimeGrammar.Parse(DateTimeGrammar.Head("2012", "12", "08", 'T', "13", "30"), Some("39"), None, Some("+0100"))
    ensures DateTimeGrammar.WellFormed(q)
    ensures DateTimeGrammar.TimeOfDayMs(q) == 13 * 3600000 + 30 * 60000 + 39000
  {
    Decimal2("13");
    Decimal2("30");
    Decimal2("39");
  }

  /** "2012-12-08T06:54-0800" => [.., "06", "54", undefined, "-0800"]: no
      seconds, and eight hours added for the `-0800` offset. */
  lemma DateTimeNoSeconds(now: int, host: Resolver.Host)
    requires host.dateParse("2012-12-08T06:54-0800").None?
    ensures Resolver.ParseEndDate("2012-12-08T06:54-0800", now, host)
            == Resolver.Resolved(host.civil(6 * 3600000 + 54 * 60000, 8, 11, 2012) + 8 * 3600000)
  {
    var q := DateTimeGrammar.Parse(DateTimeGrammar.Head("2012", "12", "08", 'T', "06", "54"), None, None, Some("-0800"));
    NoSecondsText(q);
    DateTimeCase("2012-12-08T06:54-0800", q, now, host);
    NoSecondsFields(q, host);
  }

  lemma NoSecondsFields(q: DateTimeGrammar.Parse, host: Resolver.Host)
    requires q == DateTimeGrammar.Parse(DateTimeGrammar.Head("2012", "12", "08", 'T', "06", "54"), None, None, Some("-0800"))
    ensures DateTimeGrammar.WellFormed(q)
    ensures Resolver.DateTimeResolution(q, host)
            == Resolver.Resolved(host.civil(6 * 3600000 + 54 * 60000, 8, 11, 2012) + 8 * 3600000)
  {
    NoSecondsTime(q);
    DateOf();
    EightHoursBehind(q.zone.value);
    ResolutionOf(q, host, 6 * 3600000 + 54 * 60000, 8, 12, 2012, 8 * 3600000,
                 host.civil(6 * 3600000 + 54 * 60000, 8, 11, 2012) + 8 * 3600000);
  }

  lemma EightHoursBehind(z: string)
    requires z == "-0800"
    ensures DateTimeGrammar.ZoneOffsetMs(z) == 8 * 3600000
  {
    Decimal2("08");
    Decimal2("00");
    OffsetOf(DateTimeGrammar.Offset(Some('-'), "08", false, "00"), z, 8 * 3600000);
  }

  lemma NoSecondsText(q: DateTimeGrammar.Parse)
    requires q == DateTimeGrammar.Parse(DateTimeGrammar.Head("2012", "12", "08", 'T', "06", "54"), None, None, Some("-0800"))
    ensures DateTimeGrammar.WellFormed(q) && DateTimeGrammar.Render(q) == "2012-12-08T06:54-0800"
    ensures DateTimeGrammar.MatchTail(DateTimeGrammar.RenderTail(q.second, q.fraction, q.zone))
            == Some((q.second, q.fraction, q.zone))
  {
    assert DateTimeGrammar.Render(q) == "2012-12-08T06:54-0800";
    assert DateTimeGrammar.RenderTail(q.second, q.fraction, q.zone) == "-0800";
    assert DateTimeGrammar.IsZoneString("-0800");
  }

  lemma NoSecondsTime(q: DateTimeGrammar.Parse)
    requires q == DateTimeGrammar.Parse(DateTimeGrammar.Head("2012", "12", "08", 'T', "06", "54"), None, None, Some("-0800"))
    ensures DateTimeGrammar.WellFormed(q)
    ensures DateTimeGrammar.TimeOfDayMs(q) == 6 * 3600000 + 54 * 60000
  {
    Decimal2("06");
    Decimal2("54");
  }

  /** The offset `o`, written as `z`, stands for `ms`. */
  lemma OffsetOf(o: DateTimeGrammar.Offset, z: string, ms: int)
    requires DateTimeGrammar.OffsetWellFormed(o) && DateTimeGrammar.RenderOffset(o) == z
    requires var magnitude := Decimal(o.hours) * 3600000 + Decimal(o.minutes) * 60000;
             ms == if o.sign == Some('+') then -magnitude else magnitude
    ensures DateTimeGrammar.ZoneOffsetMs(z) == ms
  {
    DateTimeGrammar.ZoneOffsetMeaning(o);
  }

  /** "2012-12-08 13:30Z" => [.., "13", "30", undefined, "Z"]: `Z` is not
      an offset the offset pattern takes, so it adds nothing. */
  lemma DateTimeUtc(now: int, host: Resolver.Host)
    requires host.dateParse("2012-12-08 13:30Z").None?
    ensures Resolver.ParseEndDate("2012-12-08 13:30Z", now, host)
            == Resolver.Resolved(host.civil(13 * 3600000 + 30 * 60000, 8, 11, 2012))
  {
    var q := DateTimeGrammar.Parse(DateTimeGrammar.Head("2012", "12", "08", ' ', "13", "30"), None, None, Some("Z"));
    UtcText(q);
    DateTimeCase("2012-12-08 13:30Z", q, now, host);
    UtcFields(q, host);
  }

  lemma UtcFields(q: DateTimeGrammar.Parse, host: Resolver.Host)
    requires q == DateTimeGrammar.Parse(DateTimeGrammar.Head("2012", "12", "08", ' ', "13", "30"), None, None, Some("Z"))
    ensures DateTimeGrammar.WellFormed(q)
    ensures Resolver.DateTimeResolution(q, host) == Resolver.Resolved(host.civil(13 * 3600000 + 30 * 60000, 8, 11, 2012))
  {
    UtcTime(q);
    DateOf();
    DateTimeGrammar.ZoneOffsetOfZ();
    ResolutionOf(q, host, 13 * 3600000 + 30 * 60000, 8, 12, 2012, 0, host.civil(13 * 3600000 + 30 * 60000, 8, 11, 2012));
  }

  lemma UtcText(q: DateTimeGrammar.Parse)
    requires q == DateTimeGrammar.Parse(DateTimeGrammar.Head("2012", "12", "08", ' ', "13", "30"), None, None, Some("Z"))
    ensures DateTimeGrammar.WellFormed(q) && DateTimeGrammar.Render(q) == "2012-12-08 13:30Z"
    ensures DateTimeGrammar.MatchTail(DateTimeGrammar.RenderTail(q.second, q.fraction, q.zone))
            == Some((q.second, q.fraction, q.zone))
  {
    assert DateTimeGrammar.Render(q) == "2012-12-08 13:30Z";
    assert DateTimeGrammar.RenderTail(q.second, q.fraction, q.zone) == "Z";
    assert DateTimeGrammar.IsZoneString("Z");
  }

  lemma UtcTime(q: DateTimeGrammar.Parse)
    requires q == DateTimeGrammar.Parse(DateTimeGrammar.Head("2012", "12", "08", ' ', "13", "30"), None, None, Some("Z"))
    ensures DateTimeGrammar.WellFormed(q)
    ensures DateTimeGrammar.TimeOfDayMs(q) == 13 * 3600000 + 30 * 60000
  {
    Decimal2("13");
    Decimal2("30");
  }

  /** "2013-12-08 06:54:39.929-10:30" => [.., "06", "54", "39", "-10:30"]:
      the fraction takes its three digits and adds nothing, and ten and a
      half hours are added for the `-10:30` offset. */
  lemma DateTimeFraction(now: int, host: Resolver.Host)
    requires host.dateParse("2013-12-08 06:54:39.929-10:30").None?
    ensures Resolver.ParseEndDate("2013-12-08 06:54:39.929-10:30", now, host)
            == Resolver.Resolved(host.civil(6 * 3600000 + 54 * 60000 + 39000, 8, 11, 2013) + 10 * 3600000 + 30 * 60000)
  {
    var q := DateTimeGrammar.Parse(DateTimeGrammar.Head("2013", "12", "08", ' ', "06", "54"), Some("39"), Some("929"), Some("-10:30"));
    FractionText(q);
    FractionTail(DateTimeGrammar.RenderTail(q.second, q.fraction, q.zone));
    DateTimeCase("2013-12-08 06:54:39.929-10:30", q, now, host);
    FractionFields(q, host);
  }

  lemma FractionFields(q: DateTimeGrammar.Parse, host: Resolver.Host)
    requires q == DateTimeGrammar.Parse(DateTimeGrammar.Head("2013", "12", "08", ' ', "06", "54"), Some("39"), Some("929"), Some("-10:30"))
    ensures DateTimeGrammar.WellFormed(q)
    ensures Resolver.DateTimeResolution(q, host)
            == Resolver.Resolved(host.civil(6 * 3600000 + 54 * 60000 + 39000, 8, 11, 2013) + 10 * 3600000 + 30 * 60000)
  {
    FractionTime(q);
    Decimal2("08");
    Decimal2("12");
    Decimal4("2013");
    TenAndAHalfHoursBehind(q.zone.value);
    ResolutionOf(q, host, 6 * 3600000 + 54 * 60000 + 39000, 8, 12, 2013, 10 * 3600000 + 30 * 60000,
                 host.civil(6 * 3600000 + 54 * 60000 + 39000, 8, 11, 2013) + 10 * 3600000 + 30 * 60000);
  }

  lemma TenAndAHalfHoursBehind(z: string)
    requires z == "-10:30"
    ensures DateTimeGrammar.ZoneOffsetMs(z) == 10 * 3600000 + 30 * 60000
  {
    Decimal2("10");
    Decimal2("30");
    OffsetOf(DateTimeGrammar.Offset(Some('-'), "10", true, "30"), z, 10 * 3600000 + 30 * 60000);
  }

  lemma FractionText(q: DateTimeGrammar.Parse)
    requires q == DateTimeGrammar.Parse(DateTimeGrammar.Head("2013", "12", "08", ' ', "06", "54"), Some("39"), Some("929"), Some("-10:30"))
    ensures DateTimeGrammar.WellFormed(q) && DateTimeGrammar.Render(q) == "2013-12-08 06:54:39.929-10:30"
    ensures DateTimeGrammar.RenderTail(q.second, q.fraction, q.zone) == ":39.929-10:30"
  {
    assert DateTimeGrammar.RenderTail(q.second, q.fraction, q.zone) == ":39.929-10:30";
    FractionHead(q.head, ":39.929-10:30");
    FractionZone(q.zone.value);
  }

  lemma FractionHead(h: DateTimeGrammar.Head, rest: string)
    requires h == DateTimeGrammar.Head("2013", "12", "08", ' ', "06", "54") && rest == ":39.929-10:30"
    ensures DateTimeGrammar.HeadText(h, rest) == "2013-12-08 06:54:39.929-10:30"
  {
  }

  /** The seconds, then three fraction digits, then the offset. */
  lemma FractionTail(t: string)
    requires t == ":39.929-10:30"
    ensures DateTimeGrammar.MatchTail(t) == Some((Some("39"), Some("929"), Some("-10:30")))
  {
    var r1, zt := ".929-10:30", "-10:30";
    FractionSeconds(t, r1);
    FractionDigits(r1, zt);
    FractionZone(zt);
  }

  lemma FractionZone(zt: string)
    requires zt == "-10:30"
    ensures DateTimeGrammar.Zone(zt) == Some(Some(zt))
  {
    assert DateTimeGrammar.IsZoneString(zt);
  }

  lemma FractionSeconds(t: string, r1: string)
    requires t == ":39.929-10:30" && r1 == ".929-10:30"
    ensures DateTimeGrammar.Seconds(t) == (Some("39"), r1)
  {
    DateTimeGrammar.SecondsOf("39", r1);
    assert DateTimeGrammar.OptText(":", Some("39")) + r1 == t;
  }

  lemma FractionDigits(r1: string, zt: string)
    requires r1 == ".929-10:30" && zt == "-10:30"
    ensures DateTimeGrammar.Fraction(r1) == (Some("929"), zt)
  {
    assert zt[0] == '-';
    assert SplitDigits(zt).0 == [];
    var n := DateTimeGrammar.FractionOf("929", zt);
    assert "." + "929" + zt == r1;
    assert n == 0 && "929" + SplitDigits(zt).0[..n] == "929" && zt[n..] == zt;
  }

  lemma FractionTime(q: DateTimeGrammar.Parse)
    requires q == DateTimeGrammar.Parse(DateTimeGrammar.Head("2013", "12", "08", ' ', "06", "54"), Some("39"), Some("929"), Some("-10:30"))
    ensures DateTimeGrammar.WellFormed(q)
    ensures DateTimeGrammar.TimeOfDayMs(q) == 6 * 3600000 + 54 * 60000 + 39000
  {
    Decimal2("06");
    Decimal2("54");
    Decimal2("39");
  }

  /** "2012-12-08 13:30" also reads as a human-readable duration (600 days
      style: "2012", "-12-08", a space, "13:30"), but the date-time pattern
      comes first and, with no offset group, throws. */
  lemma DateTimeWithoutOffset(now: int, host: Resolver.Host)
    requires host.dateParse("2012-12-08 13:30").None?
    ensures HumanGrammar.InLanguage("2012-12-08 13:30")
    ensures Resolver.ParseEndDate("2012-12-08 13:30", now, host) == Resolver.Thrown
  {
    var q := DateTimeGrammar.Parse(DateTimeGrammar.Head("2012", "12", "08", ' ', "13", "30"), None, None, None);
    WithoutOffsetParse(q);
    DateTimeCase("2012-12-08 13:30", q, now, host);
    HumanReading();
  }

  lemma WithoutOffsetParse(q: DateTimeGrammar.Parse)
    requires q == DateTimeGrammar.Parse(DateTimeGrammar.Head("2012", "12", "08", ' ', "13", "30"), None, None, None)
    ensures DateTimeGrammar.WellFormed(q) && DateTimeGrammar.Render(q) == "2012-12-08 13:30"
    ensures DateTimeGrammar.MatchTail(DateTimeGrammar.RenderTail(q.second, q.fraction, q.zone))
            == Some((q.second, q.fraction, q.zone))
  {
    assert DateTimeGrammar.Render(q) == "2012-12-08 13:30";
    assert DateTimeGrammar.RenderTail(q.second, q.fraction, q.zone) == "";
  }

  lemma HumanReading()
    ensures HumanGrammar.InLanguage("2012-12-08 13:30")
  {
    var after := HumanGrammar.After(None, None, None, None, None);
    var p := HumanGrammar.Parse(Some(HumanGrammar.DayPrefix("2012", "-12-08", ' ')),
                                HumanGrammar.Tail("13", ':', None, "30", after));
    assert HumanGrammar.WellFormed(p);
    assert HumanGrammar.Render(p) == "2012-12-08 13:30";
  }

  // Human-readable durations (jquery.countdown.js:291-300).

  /** The capture groups of a human-readable match: days, hours, minutes
      and seconds, `undefined` standing as `None`. */
  predicate Captures(p: HumanGrammar.Parse, days: Option<string>, hours: string, minutes: string, seconds: Option<string>) {
    && (if p.day.Some? then Some(p.day.value.days) else None) == days
    && p.tail.hours == hours && p.tail.minutes == minutes && p.tail.after.seconds == seconds
  }

  /** One of the first four characters is not a digit, so there is no
      four-digit year and the string is no date-time. */
  lemma NotDateTime(s: string, i: nat)
    requires i < 4 && i < |s| && !IsDigit(s[i])
    ensures !DateTimeGrammar.InLanguage(s)
  {
    var (year, _) := SplitDigits(s);
    assert |year| <= i;
    assert DateTimeGrammar.Year(s).None?;
    DateTimeGrammar.MatchIff(s);
  }

  /** A tail with no day prefix, as `HumanCases.NoDayTail` settles it, that
      `Date.parse` rejects and that is no date-time, ends its offset after
      `now`. */
  lemma TailCase(s: string, t: HumanGrammar.Tail, ms: int, now: int, host: Resolver.Host)
    requires HumanGrammar.TailWellFormed(t) && HumanCases.NoInnerTail(t)
    requires !HumanCases.RunOn(t)
    requires HumanGrammar.TailText(t) == s && HumanGrammar.OffsetMs(HumanGrammar.Parse(None, t)) == ms
    requires host.dateParse(s).None? && !DateTimeGrammar.InLanguage(s)
    ensures HumanGrammar.Match(s).Some? && Captures(HumanGrammar.Match(s).value, None, t.hours, t.minutes, t.after.seconds)
    ensures Resolver.ParseEndDate(s, now, host) == Resolver.Resolved(now + ms)
  {
    HumanCases.NoDayTail(t);
    HumanCase(s, HumanGrammar.Parse(None, t), ms, now, host);
  }

  /** The same for a day prefix before such a tail (`HumanCases.DayThenTail`). */
  lemma DayCase(s: string, d: HumanGrammar.DayPrefix, t: HumanGrammar.Tail, ms: int, now: int, host: Resolver.Host)
    requires HumanGrammar.DayWellFormed(d) && !IsDigit(d.filler[0])
    requires HumanGrammar.TailWellFormed(t) && HumanCases.NoInnerTail(t)
    requires !HumanCases.RunOn(t)
    requires HumanGrammar.Render(HumanGrammar.Parse(Some(d), t)) == s
    requires HumanGrammar.OffsetMs(HumanGrammar.Parse(Some(d), t)) == ms
    requires host.dateParse(s).None? && !DateTimeGrammar.InLanguage(s)
    ensures HumanGrammar.Match(s).Some?
    ensures Captures(HumanGrammar.Match(s).value, Some(d.days), t.hours, t.minutes, t.after.seconds)
    ensures Resolver.ParseEndDate(s, now, host) == Resolver.Resolved(now + ms)
  {
    HumanCases.DayThenTail(d, t);
    HumanCase(s, HumanGrammar.Parse(Some(d), t), ms, now, host);
  }

  lemma HumanCase(s: string, p: HumanGrammar.Parse, ms: int, now: int, host: Resolver.Host)
    requires host.dateParse(s).None? && !DateTimeGrammar.InLanguage(s)
    requires HumanGrammar.Match(s) == Some(p) && HumanGrammar.OffsetMs(p) == ms
    ensures Resolver.ParseEndDate(s, now, host) == Resolver.Resolved(now + ms)
  {
    HumanGrammar.MatchIff(s);
    Resolver.HumanMeaning(s, now, host);
  }

  /** "3:59:12" => [undefined, "3", "59", "12"]. */
  lemma HumanClock(now: int, host: Resolver.Host)
    requires host.dateParse("3:59:12").None?
    ensures HumanGrammar.Match("3:59:12").Some?
    ensures Captures(HumanGrammar.Match("3:59:12").value, None, "3", "59", Some("12"))
    ensures Resolver.ParseEndDate("3:59:12", now, host) == Resolver.Resolved(now + 3 * 3600000 + 59 * 60000 + 12000)
  {
    var t := HumanClockTail();
    NotDateTime("3:59:12", 1);
    TailCase("3:59:12", t, 3 * 3600000 + 59 * 60000 + 12000, now, host);
  }

  lemma HumanClockTail() returns (t: HumanGrammar.Tail)
    ensures HumanGrammar.TailWellFormed(t) && HumanCases.NoInnerTail(t) && !HumanCases.RunOn(t)
    ensures t.hours == "3" && t.minutes == "59" && t.after.seconds == Some("12")
    ensures HumanGrammar.TailText(t) == "3:59:12"
    ensures HumanGrammar.OffsetMs(HumanGrammar.Parse(None, t)) == 3 * 3600000 + 59 * 60000 + 12000
  {
    t := HumanGrammar.Tail("3", ':', None, "59", HumanGrammar.After(Some(':'), None, Some("12"), None, None));
    HumanClockText(t);
    HumanClockOffset(t);
  }

  lemma HumanClockText(t: HumanGrammar.Tail)
    requires t == HumanGrammar.Tail("3", ':', None, "59", HumanGrammar.After(Some(':'), None, Some("12"), None, None))
    ensures HumanGrammar.TailText(t) == "3:59:12"
  {
    assert HumanGrammar.TailText(t) == "3:59:12";
  }

  lemma HumanClockOffset(t: HumanGrammar.Tail)
    requires t == HumanGrammar.Tail("3", ':', None, "59", HumanGrammar.After(Some(':'), None, Some("12"), None, None))
    ensures HumanGrammar.WellFormed(HumanGrammar.Parse(None, t))
    ensures HumanGrammar.OffsetMs(HumanGrammar.Parse(None, t)) == 3 * 3600000 + 59 * 60000 + 12000
  {
    Decimal1("3");
    Decimal2("59");
    Decimal2("12");
  }

  /** "00:01" => [undefined, "00", "01", undefined]: no seconds group,
      which counts as 0. */
  lemma HumanMinutesOnly(now: int, host: Resolver.Host)
    requires host.dateParse("00:01").None?
    ensures HumanGrammar.Match("00:01").Some?
    ensures Captures(HumanGrammar.Match("00:01").value, None, "00", "01", None)
    ensures Resolver.ParseEndDate("00:01", now, host) == Resolver.Resolved(now + 60000)
  {
    var t := HumanMinutesOnlyTail();
    NotDateTime("00:01", 2);
    TailCase("00:01", t, 60000, now, host);
  }

  lemma HumanMinutesOnlyTail() returns (t: HumanGrammar.Tail)
    ensures HumanGrammar.TailWellFormed(t) && HumanCases.NoInnerTail(t) && !HumanCases.RunOn(t)
    ensures t.hours == "00" && t.minutes == "01" && t.after.seconds == None
    ensures HumanGrammar.TailText(t) == "00:01"
    ensures HumanGrammar.OffsetMs(HumanGrammar.Parse(None, t)) == 60000
  {
    t := HumanGrammar.Tail("00", ':', None, "01", HumanGrammar.After(None, None, None, None, None));
    HumanMinutesOnlyText(t);
    HumanMinutesOnlyOffset(t);
  }

  lemma HumanMinutesOnlyText(t: HumanGrammar.Tail)
    requires t == HumanGrammar.Tail("00", ':', None, "01", HumanGrammar.After(None, None, None, None, None))
    ensures HumanGrammar.TailText(t) == "00:01"
  {
    assert HumanGrammar.TailText(t) == "00:01";
  }

  lemma HumanMinutesOnlyOffset(t: HumanGrammar.Tail)
    requires t == HumanGrammar.Tail("00", ':', None, "01", HumanGrammar.After(None, None, None, None, None))
    ensures HumanGrammar.WellFormed(HumanGrammar.Parse(None, t))
    ensures HumanGrammar.OffsetMs(HumanGrammar.Parse(None, t)) == 60000
  {
    Decimal2("00");
    Decimal2("01");
  }

  /** "00:00:59" => [undefined, "00", "00", "59"]. */
  lemma HumanSecondsOnly(now: int, host: Resolver.Host)
    requires host.dateParse("00:00:59").None?
    ensures HumanGrammar.Match("00:00:59").Some?
    ensures Captures(HumanGrammar.Match("00:00:59").value, None, "00", "00", Some("59"))
    ensures Resolver.ParseEndDate("00:00:59", now, host) == Resolver.Resolved(now + 59000)
  {
    var t := HumanSecondsOnlyTail();
    NotDateTime("00:00:59", 2);
    TailCase("00:00:59", t, 59000, now, host);
  }

  lemma HumanSecondsOnlyTail() returns (t: HumanGrammar.Tail)
    ensures HumanGrammar.TailWellFormed(t) && HumanCases.NoInnerTail(t) && !HumanCases.RunOn(t)
    ensures t.hours == "00" && t.minutes == "00" && t.after.seconds == Some("59")
    ensures HumanGrammar.TailText(t) == "00:00:59"
    ensures HumanGrammar.OffsetMs(HumanGrammar.Parse(None, t)) == 59000
  {
    t := HumanGrammar.Tail("00", ':', None, "00", HumanGrammar.After(Some(':'), None, Some("59"), None, None));
    HumanSecondsOnlyText(t);
    HumanSecondsOnlyOffset(t);
  }

  lemma HumanSecondsOnlyText(t: HumanGrammar.Tail)
    requires t == HumanGrammar.Tail("00", ':', None, "00", HumanGrammar.After(Some(':'), None, Some("59"), None, None))
    ensures HumanGrammar.TailText(t) == "00:00:59"
  {
    assert HumanGrammar.TailText(t) == "00:00:59";
  }

  lemma HumanSecondsOnlyOffset(t: HumanGrammar.Tail)
    requires t == HumanGrammar.Tail("00", ':', None, "00", HumanGrammar.After(Some(':'), None, Some("59"), None, None))
    ensures HumanGrammar.WellFormed(HumanGrammar.Parse(None, t))
    ensures HumanGrammar.OffsetMs(HumanGrammar.Parse(None, t)) == 59000
  {
    Decimal2("00");
    Decimal2("59");
  }

  /** "240:00:59" => [undefined, "240", "00", "59"]: the hours are not
      bounded by 24. */
  lemma HumanManyHours(now: int, host: Resolver.Host)
    requires host.dateParse("240:00:59").None?
    ensures HumanGrammar.Match("240:00:59").Some?
    ensures Captures(HumanGrammar.Match("240:00:59").value, None, "240", "00", Some("59"))
    ensures Resolver.ParseEndDate("240:00:59", now, host) == Resolver.Resolved(now + 240 * 3600000 + 59000)
  {
    var t := HumanManyHoursTail();
    NotDateTime("240:00:59", 3);
    TailCase("240:00:59", t, 240 * 3600000 + 59000, now, host);
  }

  lemma HumanManyHoursTail() returns (t: HumanGrammar.Tail)
    ensures HumanGrammar.TailWellFormed(t) && HumanCases.NoInnerTail(t) && !HumanCases.RunOn(t)
    ensures t.hours == "240" && t.minutes == "00" && t.after.seconds == Some("59")
    ensures HumanGrammar.TailText(t) == "240:00:59"
    ensures HumanGrammar.OffsetMs(HumanGrammar.Parse(None, t)) == 240 * 3600000 + 59000
  {
    t := HumanGrammar.Tail("240", ':', None, "00", HumanGrammar.After(Some(':'), None, Some("59"), None, None));
    HumanManyHoursText(t);
    HumanManyHoursOffset(t);
  }

  lemma HumanManyHoursText(t: HumanGrammar.Tail)
    requires t == HumanGrammar.Tail("240", ':', None, "00", HumanGrammar.After(Some(':'), None, Some("59"), None, None))
    ensures HumanGrammar.TailText(t) == "240:00:59"
  {
    assert HumanGrammar.TailText(t) == "240:00:59";
  }

  lemma HumanManyHoursOffset(t: HumanGrammar.Tail)
    requires t == HumanGrammar.Tail("240", ':', None, "00", HumanGrammar.After(Some(':'), None, Some("59"), None, None))
    ensures HumanGrammar.WellFormed(HumanGrammar.Parse(None, t))
    ensures HumanGrammar.OffsetMs(HumanGrammar.Parse(None, t)) == 240 * 3600000 + 59000
  {
    Decimal3("240");
    Decimal2("00");
    Decimal2("59");
  }

  /** "4h 18m 3s" => [undefined, "4", "18", "3"]: neither "18m 3s" nor
      "3s" is a tail, so there is no day prefix. */
  lemma HumanHoursMinutesSeconds(now: int, host: Resolver.Host)
    requires host.dateParse("4h 18m 3s").None?
    ensures HumanGrammar.Match("4h 18m 3s").Some?
    ensures Captures(HumanGrammar.Match("4h 18m 3s").value, None, "4", "18", Some("3"))
    ensures Resolver.ParseEndDate("4h 18m 3s", now, host) == Resolver.Resolved(now + 4 * 3600000 + 18 * 60000 + 3000)
  {
    var t := HumanHoursMinutesSecondsTail();
    NotDateTime("4h 18m 3s", 1);
    TailCase("4h 18m 3s", t, 4 * 3600000 + 18 * 60000 + 3000, now, host);
  }

  lemma HumanHoursMinutesSecondsTail() returns (t: HumanGrammar.Tail)
    ensures HumanGrammar.TailWellFormed(t) && HumanCases.NoInnerTail(t) && !HumanCases.RunOn(t)
    ensures t.hours == "4" && t.minutes == "18" && t.after.seconds == Some("3")
    ensures HumanGrammar.TailText(t) == "4h 18m 3s"
    ensures HumanGrammar.OffsetMs(HumanGrammar.Parse(None, t)) == 4 * 3600000 + 18 * 60000 + 3000
  {
    t := HumanGrammar.Tail("4", 'h', Some(' '), "18", HumanGrammar.After(Some('m'), Some(' '), Some("3"), Some('s'), None));
    HumanHoursMinutesSecondsText(t);
    HumanHoursMinutesSecondsOffset(t);
  }

  lemma HumanHoursMinutesSecondsText(t: HumanGrammar.Tail)
    requires t == HumanGrammar.Tail("4", 'h', Some(' '), "18", HumanGrammar.After(Some('m'), Some(' '), Some("3"), Some('s'), None))
    ensures HumanGrammar.TailText(t) == "4h 18m 3s"
  {
    assert HumanGrammar.TailText(t) == "4h 18m 3s";
  }

  lemma HumanHoursMinutesSecondsOffset(t: HumanGrammar.Tail)
    requires t == HumanGrammar.Tail("4", 'h', Some(' '), "18", HumanGrammar.After(Some('m'), Some(' '), Some("3"), Some('s'), None))
    ensures HumanGrammar.WellFormed(HumanGrammar.Parse(None, t))
    ensures HumanGrammar.OffsetMs(HumanGrammar.Parse(None, t)) == 4 * 3600000 + 18 * 60000 + 3000
  {
    Decimal1("4");
    Decimal2("18");
    Decimal1("3");
  }

  /** "2h 0m" => [undefined, "2", "0", undefined]. */
  lemma HumanHoursMinutes(now: int, host: Resolver.Host)
    requires host.dateParse("2h 0m").None?
    ensures HumanGrammar.Match("2h 0m").Some?
    ensures Captures(HumanGrammar.Match("2h 0m").value, None, "2", "0", None)
    ensures Resolver.ParseEndDate("2h 0m", now, host) == Resolver.Resolved(now + 2 * 3600000)
  {
    var t := HumanHoursMinutesTail();
    NotDateTime("2h 0m", 1);
    TailCase("2h 0m", t, 2 * 3600000, now, host);
  }

  lemma HumanHoursMinutesTail() returns (t: HumanGrammar.Tail)
    ensures HumanGrammar.TailWellFormed(t) && HumanCases.NoInnerTail(t) && !HumanCases.RunOn(t)
    ensures t.hours == "2" && t.minutes == "0" && t.after.seconds == None
    ensures HumanGrammar.TailText(t) == "2h 0m"
    ensures HumanGrammar.OffsetMs(HumanGrammar.Parse(None, t)) == 2 * 3600000
  {
    t := HumanGrammar.Tail("2", 'h', Some(' '), "0", HumanGrammar.After(Some('m'), None, None, None, None));
    HumanHoursMinutesText(t);
    HumanHoursMinutesOffset(t);
  }

  lemma HumanHoursMinutesText(t: HumanGrammar.Tail)
    requires t == HumanGrammar.Tail("2", 'h', Some(' '), "0", HumanGrammar.After(Some('m'), None, None, None, None))
    ensures HumanGrammar.TailText(t) == "2h 0m"
  {
    assert HumanGrammar.TailText(t) == "2h 0m";
  }

  lemma HumanHoursMinutesOffset(t: HumanGrammar.Tail)
    requires t == HumanGrammar.Tail("2", 'h', Some(' '), "0", HumanGrammar.After(Some('m'), None, None, None, None))
    ensures HumanGrammar.WellFormed(HumanGrammar.Parse(None, t))
    ensures HumanGrammar.OffsetMs(HumanGrammar.Parse(None, t)) == 2 * 3600000
  {
    Decimal1("2");
    Decimal1("0");
  }

  /** "24h00m59s" => [undefined, "24", "00", "59"]. */
  lemma HumanNoSpaces(now: int, host: Resolver.Host)
    requires host.dateParse("24h00m59s").None?
    ensures HumanGrammar.Match("24h00m59s").Some?
    ensures Captures(HumanGrammar.Match("24h00m59s").value, None, "24", "00", Some("59"))
    ensures Resolver.ParseEndDate("24h00m59s", now, host) == Resolver.Resolved(now + 24 * 3600000 + 59000)
  {
    var t := HumanNoSpacesTail();
    NotDateTime("24h00m59s", 2);
    TailCase("24h00m59s", t, 24 * 3600000 + 59000, now, host);
  }

  lemma HumanNoSpacesTail() returns (t: HumanGrammar.Tail)
    ensures HumanGrammar.TailWellFormed(t) && HumanCases.NoInnerTail(t) && !HumanCases.RunOn(t)
    ensures t.hours == "24" && t.minutes == "00" && t.after.seconds == Some("59")
    ensures HumanGrammar.TailText(t) == "24h00m59s"
    ensures HumanGrammar.OffsetMs(HumanGrammar.Parse(None, t)) == 24 * 3600000 + 59000
  {
    t := HumanGrammar.Tail("24", 'h', None, "00", HumanGrammar.After(Some('m'), None, Some("59"), Some('s'), None));
    HumanNoSpacesText(t);
    HumanNoSpacesOffset(t);
  }

  lemma HumanNoSpacesText(t: HumanGrammar.Tail)
    requires t == HumanGrammar.Tail("24", 'h', None, "00", HumanGrammar.After(Some('m'), None, Some("59"), Some('s'), None))
    ensures HumanGrammar.TailText(t) == "24h00m59s"
  {
    assert HumanGrammar.TailText(t) == "24h00m59s";
  }

  lemma HumanNoSpacesOffset(t: HumanGrammar.Tail)
    requires t == HumanGrammar.Tail("24", 'h', None, "00", HumanGrammar.After(Some('m'), None, Some("59"), Some('s'), None))
    ensures HumanGrammar.WellFormed(HumanGrammar.Parse(None, t))
    ensures HumanGrammar.OffsetMs(HumanGrammar.Parse(None, t)) == 24 * 3600000 + 59000
  {
    Decimal2("24");
    Decimal2("00");
    Decimal2("59");
  }

  /** "12:30:39.929" => [undefined, "12", "30", "39"]: the fraction of a
      second is matched and then dropped. */
  lemma HumanFraction(now: int, host: Resolver.Host)
    requires host.dateParse("12:30:39.929").None?
    ensures HumanGrammar.Match("12:30:39.929").Some?
    ensures Captures(HumanGrammar.Match("12:30:39.929").value, None, "12", "30", Some("39"))
    ensures Resolver.ParseEndDate("12:30:39.929", now, host) == Resolver.Resolved(now + 12 * 3600000 + 30 * 60000 + 39000)
  {
    var t := HumanFractionTail();
    NotDateTime("12:30:39.929", 2);
    TailCase("12:30:39.929", t, 12 * 3600000 + 30 * 60000 + 39000, now, host);
  }

  lemma HumanFractionTail() returns (t: HumanGrammar.Tail)
    ensures HumanGrammar.TailWellFormed(t) && HumanCases.NoInnerTail(t) && !HumanCases.RunOn(t)
    ensures t.hours == "12" && t.minutes == "30" && t.after.seconds == Some("39")
    ensures HumanGrammar.TailText(t) == "12:30:39.929"
    ensures HumanGrammar.OffsetMs(HumanGrammar.Parse(None, t)) == 12 * 3600000 + 30 * 60000 + 39000
  {
    t := HumanGrammar.Tail("12", ':', None, "30", HumanGrammar.After(Some(':'), None, Some("39"), None, Some("929")));
    HumanFractionText(t);
    HumanFractionOffset(t);
  }

  lemma HumanFractionText(t: HumanGrammar.Tail)
    requires t == HumanGrammar.Tail("12", ':', None, "30", HumanGrammar.After(Some(':'), None, Some("39"), None, Some("929")))
    ensures HumanGrammar.TailText(t) == "12:30:39.929"
  {
    assert HumanGrammar.TailText(t) == "12:30:39.929";
  }

  lemma HumanFractionOffset(t: HumanGrammar.Tail)
    requires t == HumanGrammar.Tail("12", ':', None, "30", HumanGrammar.After(Some(':'), None, Some("39"), None, Some("929")))
    ensures HumanGrammar.WellFormed(HumanGrammar.Parse(None, t))
    ensures HumanGrammar.OffsetMs(HumanGrammar.Parse(None, t)) == 12 * 3600000 + 30 * 60000 + 39000
  {
    Decimal2("12");
    Decimal2("30");
    Decimal2("39");
  }

  /** "600 days, 3:59:12" => ["600", "3", "59", "12"]: the filler " days,"
      runs up to the last white space after which a tail follows. */
  lemma HumanDaysAndClock(now: int, host: Resolver.Host)
    requires host.dateParse("600 days, 3:59:12").None?
    ensures HumanGrammar.Match("600 days, 3:59:12").Some?
    ensures Captures(HumanGrammar.Match("600 days, 3:59:12").value, Some("600"), "3", "59", Some("12"))
    ensures Resolver.ParseEndDate("600 days, 3:59:12", now, host) == Resolver.Resolved(now + 600 * 86400000 + 3 * 3600000 + 59 * 60000 + 12000)
  {
    var d, t := HumanDaysAndClockParse();
    NotDateTime("600 days, 3:59:12", 3);
    DayCase("600 days, 3:59:12", d, t, 600 * 86400000 + 3 * 3600000 + 59 * 60000 + 12000, now, host);
  }

  lemma HumanDaysAndClockParse() returns (d: HumanGrammar.DayPrefix, t: HumanGrammar.Tail)
    ensures HumanGrammar.DayWellFormed(d) && !IsDigit(d.filler[0]) && d.days == "600"
    ensures HumanGrammar.TailWellFormed(t) && HumanCases.NoInnerTail(t) && !HumanCases.RunOn(t)
    ensures t.hours == "3" && t.minutes == "59" && t.after.seconds == Some("12")
    ensures HumanGrammar.Render(HumanGrammar.Parse(Some(d), t)) == "600 days, 3:59:12"
    ensures HumanGrammar.OffsetMs(HumanGrammar.Parse(Some(d), t)) == 600 * 86400000 + 3 * 3600000 + 59 * 60000 + 12000
  {
    d := HumanGrammar.DayPrefix("600", " days,", ' ');
    t := HumanGrammar.Tail("3", ':', None, "59", HumanGrammar.After(Some(':'), None, Some("12"), None, None));
    HumanDaysAndClockRender(d, t);
    HumanDaysAndClockOffset(d, t);
  }

  lemma HumanDaysAndClockRender(d: HumanGrammar.DayPrefix, t: HumanGrammar.Tail)
    requires d == HumanGrammar.DayPrefix("600", " days,", ' ')
    requires t == HumanGrammar.Tail("3", ':', None, "59", HumanGrammar.After(Some(':'), None, Some("12"), None, None))
    ensures HumanGrammar.Render(HumanGrammar.Parse(Some(d), t)) == "600 days, 3:59:12"
  {
    assert HumanGrammar.Render(HumanGrammar.Parse(Some(d), t)) == "600 days, 3:59:12";
  }

  lemma HumanDaysAndClockOffset(d: HumanGrammar.DayPrefix, t: HumanGrammar.Tail)
    requires d == HumanGrammar.DayPrefix("600", " days,", ' ')
    requires t == HumanGrammar.Tail("3", ':', None, "59", HumanGrammar.After(Some(':'), None, Some("12"), None, None))
    ensures HumanGrammar.WellFormed(HumanGrammar.Parse(Some(d), t))
    ensures HumanGrammar.OffsetMs(HumanGrammar.Parse(Some(d), t)) == 600 * 86400000 + 3 * 3600000 + 59 * 60000 + 12000
  {
    Decimal3("600");
    Decimal1("3");
    Decimal2("59");
    Decimal2("12");
  }

  /** "1d 0h 00m 59s" => ["1", "0", "00", "59"]: the filler is "d". */
  lemma HumanDayLetters(now: int, host: Resolver.Host)
    requires host.dateParse("1d 0h 00m 59s").None?
    ensures HumanGrammar.Match("1d 0h 00m 59s").Some?
    ensures Captures(HumanGrammar.Match("1d 0h 00m 59s").value, Some("1"), "0", "00", Some("59"))
    ensures Resolver.ParseEndDate("1d 0h 00m 59s", now, host) == Resolver.Resolved(now + 86400000 + 59000)
  {
    var d, t := HumanDayLettersParse();
    NotDateTime("1d 0h 00m 59s", 1);
    DayCase("1d 0h 00m 59s", d, t, 86400000 + 59000, now, host);
  }

  lemma HumanDayLettersParse() returns (d: HumanGrammar.DayPrefix, t: HumanGrammar.Tail)
    ensures HumanGrammar.DayWellFormed(d) && !IsDigit(d.filler[0]) && d.days == "1"
    ensures HumanGrammar.TailWellFormed(t) && HumanCases.NoInnerTail(t) && !HumanCases.RunOn(t)
    ensures t.hours == "0" && t.minutes == "00" && t.after.seconds == Some("59")
    ensures HumanGrammar.Render(HumanGrammar.Parse(Some(d), t)) == "1d 0h 00m 59s"
    ensures HumanGrammar.OffsetMs(HumanGrammar.Parse(Some(d), t)) == 86400000 + 59000
  {
    d := HumanGrammar.DayPrefix("1", "d", ' ');
    t := HumanGrammar.Tail("0", 'h', Some(' '), "00", HumanGrammar.After(Some('m'), Some(' '), Some("59"), Some('s'), None));
    HumanDayLettersRender(d, t);
    HumanDayLettersOffset(d, t);
  }

  lemma HumanDayLettersRender(d: HumanGrammar.DayPrefix, t: HumanGrammar.Tail)
    requires d == HumanGrammar.DayPrefix("1", "d", ' ')
    requires t == HumanGrammar.Tail("0", 'h', Some(' '), "00", HumanGrammar.After(Some('m'), Some(' '), Some("59"), Some('s'), None))
    ensures HumanGrammar.Render(HumanGrammar.Parse(Some(d), t)) == "1d 0h 00m 59s"
  {
    assert HumanGrammar.Render(HumanGrammar.Parse(Some(d), t)) == "1d 0h 00m 59s";
  }

  lemma HumanDayLettersOffset(d: HumanGrammar.DayPrefix, t: HumanGrammar.Tail)
    requires d == HumanGrammar.DayPrefix("1", "d", ' ')
    requires t == HumanGrammar.Tail("0", 'h', Some(' '), "00", HumanGrammar.After(Some('m'), Some(' '), Some("59"), Some('s'), None))
    ensures HumanGrammar.WellFormed(HumanGrammar.Parse(Some(d), t))
    ensures HumanGrammar.OffsetMs(HumanGrammar.Parse(Some(d), t)) == 86400000 + 59000
  {
    Decimal1("1");
    Decimal1("0");
    Decimal2("00");
    Decimal2("59");
  }

  /** "2 3:45:00" is no human-readable duration: the filler `.+` needs a
      character of its own between the day digits and the white space. */
  lemma HumanOneDigitDay(now: int, host: Resolver.Host)
    requires host.dateParse("2 3:45:00").None?
    ensures !HumanGrammar.InLanguage("2 3:45:00")
    ensures Resolver.ParseEndDate("2 3:45:00", now, host) == Resolver.Unresolved
  {
    var t := OneDigitDayTail();
    HumanCases.OneDigitDayNeedsFiller('2', ' ', t);
    NotDateTime("2 3:45:00", 1);
    UnresolvedCase("2 3:45:00", now, host);
  }

  lemma OneDigitDayTail() returns (t: HumanGrammar.Tail)
    ensures HumanGrammar.TailWellFormed(t) && HumanCases.NoInnerTail(t)
    ensures ['2'] + ([' '] + HumanGrammar.TailText(t)) == "2 3:45:00"
  {
    t := HumanGrammar.Tail("3", ':', None, "45", HumanGrammar.After(Some(':'), None, Some("00"), None, None));
    OneDigitDayText(t);
  }

  lemma OneDigitDayText(t: HumanGrammar.Tail)
    requires t == HumanGrammar.Tail("3", ':', None, "45", HumanGrammar.After(Some(':'), None, Some("00"), None, None))
    ensures ['2'] + ([' '] + HumanGrammar.TailText(t)) == "2 3:45:00"
  {
    assert HumanGrammar.TailText(t) == "3:45:00";
  }

  /** A string starting with a digit that neither a date-time nor the
      human-readable pattern takes, and that `Date.parse` rejects, gives
      `undefined`. */
  lemma UnresolvedCase(s: string, now: int, host: Resolver.Host)
    requires host.dateParse(s).None? && s != [] && IsDigit(s[0])
    requires !DateTimeGrammar.InLanguage(s) && HumanGrammar.Match(s).None?
    ensures !HumanGrammar.InLanguage(s)
    ensures Resolver.ParseEndDate(s, now, host) == Resolver.Unresolved
  {
    HumanGrammar.MatchIff(s);
    Resolver.NotDuration(s);
    Resolver.UnresolvedIff(s, now, host);
  }

  /** "1h 2:30" spells out one hour, two minutes and thirty seconds, but the
      greedy day prefix reads it as one day ("1", filler "h") and the tail
      "2:30": a day, two hours and thirty minutes. */
  lemma HumanDayWins(now: int, host: Resolver.Host)
    requires host.dateParse("1h 2:30").None?
    ensures var other := HumanGrammar.Parse(None, HumanGrammar.Tail("1", 'h', Some(' '), "2",
                          HumanGrammar.After(Some(':'), None, Some("30"), None, None)));
            HumanGrammar.WellFormed(other) && HumanGrammar.Render(other) == "1h 2:30"
    ensures HumanGrammar.Match("1h 2:30").Some?
    ensures Captures(HumanGrammar.Match("1h 2:30").value, Some("1"), "2", "30", None)
    ensures Resolver.ParseEndDate("1h 2:30", now, host) == Resolver.Resolved(now + 86400000 + 2 * 3600000 + 30 * 60000)
  {
    var d, t := DayWinsParse();
    NotDateTime("1h 2:30", 1);
    DayCase("1h 2:30", d, t, 86400000 + 2 * 3600000 + 30 * 60000, now, host);
    DayWinsOther();
  }

  lemma DayWinsOther()
    ensures var other := HumanGrammar.Parse(None, HumanGrammar.Tail("1", 'h', Some(' '), "2",
                          HumanGrammar.After(Some(':'), None, Some("30"), None, None)));
            HumanGrammar.WellFormed(other) && HumanGrammar.Render(other) == "1h 2:30"
  {
    var other := HumanGrammar.Parse(None, HumanGrammar.Tail("1", 'h', Some(' '), "2",
                 HumanGrammar.After(Some(':'), None, Some("30"), None, None)));
    assert HumanGrammar.Render(other) == "1h 2:30";
  }

  lemma DayWinsParse() returns (d: HumanGrammar.DayPrefix, t: HumanGrammar.Tail)
    ensures HumanGrammar.DayWellFormed(d) && !IsDigit(d.filler[0]) && d.days == "1"
    ensures HumanGrammar.TailWellFormed(t) && HumanCases.NoInnerTail(t) && !HumanCases.RunOn(t)
    ensures t.hours == "2" && t.minutes == "30" && t.after.seconds == None
    ensures HumanGrammar.Render(HumanGrammar.Parse(Some(d), t)) == "1h 2:30"
    ensures HumanGrammar.OffsetMs(HumanGrammar.Parse(Some(d), t)) == 86400000 + 2 * 3600000 + 30 * 60000
  {
    d := HumanGrammar.DayPrefix("1", "h", ' ');
    t := HumanGrammar.Tail("2", ':', None, "30", HumanGrammar.After(None, None, None, None, None));
    DayWinsRender(d, t);
    DayWinsOffset(d, t);
  }

  lemma DayWinsRender(d: HumanGrammar.DayPrefix, t: HumanGrammar.Tail)
    requires d == HumanGrammar.DayPrefix("1", "h", ' ')
    requires t == HumanGrammar.Tail("2", ':', None, "30", HumanGrammar.After(None, None, None, None, None))
    ensures HumanGrammar.Render(HumanGrammar.Parse(Some(d), t)) == "1h 2:30"
  {
    assert HumanGrammar.Render(HumanGrammar.Parse(Some(d), t)) == "1h 2:30";
  }

  lemma DayWinsOffset(d: HumanGrammar.DayPrefix, t: HumanGrammar.Tail)
    requires d == HumanGrammar.DayPrefix("1", "h", ' ')
    requires t == HumanGrammar.Tail("2", ':', None, "30", HumanGrammar.After(None, None, None, None, None))
    ensures HumanGrammar.WellFormed(HumanGrammar.Parse(Some(d), t))
    ensures HumanGrammar.OffsetMs(HumanGrammar.Parse(Some(d), t)) == 86400000 + 2 * 3600000 + 30 * 60000
  {
    Decimal1("1");
    Decimal1("2");
    Decimal2("30");
  }
}
