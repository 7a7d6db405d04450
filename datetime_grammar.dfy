/** The global date-and-time grammar of `parseEndDate`
    (jquery.countdown.js:263-264)

      `^(\d{4,})-(\d{2})-(\d{2})[T\s](\d{2}):(\d{2})(?::(\d{2}))?(?:\.\d{1,3})?([Z\+\-\:\d]+)?$`

    and the UTC-offset grammar applied to its last capture
    (jquery.countdown.js:270)

      `^([\+\-])?(\d{2}):?(\d{2})$`.

    A string of the first language can have several parses (":39" can be the
    seconds or the start of the offset string); `Match` returns the one the
    backtracking engine reaches first, which `Precedes` orders. */
module DateTimeGrammar {
  import opened Wrappers
  import opened Chars
  import Units

  predicate IsTwoDigits(s: string) {
    |s| == 2 && IsDigits(s)
  }

  /** `[Z\+\-\:\d]`. */
  predicate IsZoneChar(c: char) {
    c == 'Z' || c == '+' || c == '-' || c == ':' || IsDigit(c)
  }

  /** What `[Z\+\-\:\d]+` matches. */
  predicate IsZoneString(s: string) {
    |s| > 0 && forall i :: 0 <= i < |s| ==> IsZoneChar(s[i])
  }

  /** The mandatory part: year, month, day, the `T` or white-space
      separator, hours and minutes. */
  datatype Head = Head(year: string, month: string, day: string, separator: char, hour: string, minute: string)

  /** A parse: the head, the optional seconds capture, the optional
      (uncaptured) fraction digits and the optional offset capture. */
  datatype Parse = Parse(head: Head, second: Option<string>, fraction: Option<string>, zone: Option<string>)

  predicate HeadWellFormed(h: Head) {
    |h.year| >= 4 && IsDigits(h.year) && IsTwoDigits(h.month) && IsTwoDigits(h.day)
    && (h.separator == 'T' || IsSpace(h.separator)) && IsTwoDigits(h.hour) && IsTwoDigits(h.minute)
  }

  predicate TailWellFormed(second: Option<string>, fraction: Option<string>, zone: Option<string>) {
    && (second.Some? ==> IsTwoDigits(second.value))
    && (fraction.Some? ==> 1 <= |fraction.value| <= 3 && IsDigits(fraction.value))
    && (zone.Some? ==> IsZoneString(zone.value))
  }

  predicate WellFormed(p: Parse) {
    HeadWellFormed(p.head) && TailWellFormed(p.second, p.fraction, p.zone)
  }

  /** The text of head `h` followed by `rest`. */
  function HeadText(h: Head, rest: string): string {
    h.year + ("-" + (h.month + ("-" + (h.day + ([h.separator] + (h.hour + (":" + (h.minute + rest))))))))
  }

  function OptText(prefix: string, c: Option<string>): string {
    if c.Some? then prefix + c.value else ""
  }

  function RenderTail(second: Option<string>, fraction: Option<string>, zone: Option<string>): string {
    OptText(":", second) + (OptText(".", fraction) + OptText("", zone))
  }

  /** The string that parse `p` spells out. */
  function Render(p: Parse): string {
    HeadText(p.head, RenderTail(p.second, p.fraction, p.zone))
  }

  ghost predicate InLanguage(s: string) {
    exists p :: WellFormed(p) && Render(p) == s
  }

  function FractionLength(fraction: Option<string>): nat {
    if fraction.Some? then |fraction.value| else 0
  }

  /** `p` is tried before `q`: the greedy `(?::(\d{2}))?` first takes the
      seconds, then the greedy `\d{1,3}` takes the most fraction digits. */
  predicate Precedes(p: Parse, q: Parse) {
    (p.second.Some? && q.second.None?)
    || (p.second.Some? == q.second.Some? && FractionLength(p.fraction) > FractionLength(q.fraction))
  }

  /** `(\d{2})` and the character after it. */
  function TwoThen(s: string): (r: Option<(string, char, string)>)
    ensures r.Some? ==> IsTwoDigits(r.value.0) && s == r.value.0 + ([r.value.1] + r.value.2)
    ensures r.None? ==> !(|s| >= 3 && IsDigit(s[0]) && IsDigit(s[1]))
  {
    if |s| >= 3 && IsDigit(s[0]) && IsDigit(s[1]) then
      assert s == s[..2] + ([s[2]] + s[3..]);
      Some((s[..2], s[2], s[3..]))
    else
      None
  }

  /** `(\d{2})` at the start of `s`, and what is left. */
  function Two(s: string): (r: Option<(string, string)>)
    ensures r.Some? ==> IsTwoDigits(r.value.0) && s == r.value.0 + r.value.1
    ensures r.None? ==> !(|s| >= 2 && IsDigit(s[0]) && IsDigit(s[1]))
  {
    if |s| >= 2 && IsDigit(s[0]) && IsDigit(s[1]) then
      assert s == s[..2] + s[2..];
      Some((s[..2], s[2..]))
    else
      None
  }

  /** `^(\d{4,})-`, and what is left. */
  function Year(s: string): (r: Option<(string, string)>)
    ensures r.Some? ==> |r.value.0| >= 4 && IsDigits(r.value.0) && s == r.value.0 + ("-" + r.value.1)
  {
    var (year, r1) := SplitDigits(s);
    if |year| < 4 || r1 == [] || r1[0] != '-' then None
    else
      assert r1 == "-" + r1[1..];
      Some((year, r1[1..]))
  }

  /** `^(\d{4,})-(\d{2})-(\d{2})[T\s](\d{2}):(\d{2})`, and what is left. */
  function MatchHead(s: string): (r: Option<(Head, string)>)
    ensures r.Some? ==> HeadWellFormed(r.value.0) && HeadText(r.value.0, r.value.1) == s
  {
    match Year(s)
    case None => None
    case Some((year, r1)) =>
      match TwoThen(r1)
      case None => None
      case Some((month, c1, r2)) =>
        if c1 != '-' then None
        else
          match TwoThen(r2)
          case None => None
          case Some((day, separator, r3)) =>
            if !(separator == 'T' || IsSpace(separator)) then None
            else
              match TwoThen(r3)
              case None => None
              case Some((hour, c3, r4)) =>
                if c3 != ':' then None
                else
                  match Two(r4)
                  case None => None
                  case Some((minute, rest)) =>
                    Some((Head(year, month, day, separator, hour, minute), rest))
  }

  /** `(?::(\d{2}))?`: taken whenever the text allows it. */
  function Seconds(t: string): (r: (Option<string>, string))
    ensures OptText(":", r.0) + r.1 == t
    ensures r.0.Some? ==> IsTwoDigits(r.0.value)
    ensures r.0.None? ==> r.1 == t && !(|t| >= 3 && t[0] == ':' && IsDigit(t[1]) && IsDigit(t[2]))
  {
    if |t| >= 3 && t[0] == ':' && IsDigit(t[1]) && IsDigit(t[2]) then
      assert t == ":" + t[1..3] + t[3..];
      (Some(t[1..3]), t[3..])
    else
      (None, t)
  }

  function Min(a: int, b: int): int {
    if a < b then a else b
  }

  /** `(?:\.\d{1,3})?`: taken whenever a digit follows the full stop, with
      as many digits as possible up to three. */
  function Fraction(t: string): (r: (Option<string>, string))
    ensures OptText(".", r.0) + r.1 == t
    ensures r.0.Some? ==> 1 <= |r.0.value| <= 3 && IsDigits(r.0.value)
    ensures r.0.None? ==> r.1 == t && !(|t| >= 2 && t[0] == '.' && IsDigit(t[1]))
  {
    if t != [] && t[0] == '.' then
      var d := SplitDigits(t[1..]);
      if d.0 == [] then
        (None, t)
      else
        var k := Min(3, |d.0|);
        FractionSplit(t, d.0, d.1, k);
        (Some(d.0[..k]), d.0[k..] + d.1)
    else
      (None, t)
  }

  lemma FractionSplit(t: string, ds: string, rest: string, k: nat)
    requires t != [] && t[0] == '.' && t[1..] == ds + rest && k <= |ds|
    ensures ("." + ds[..k]) + (ds[k..] + rest) == t
  {
    assert ds == ds[..k] + ds[k..];
    assert t == [t[0]] + t[1..];
  }

  /** `([Z\+\-\:\d]+)?$`: the rest of the string, or nothing. */
  function Zone(t: string): (r: Option<Option<string>>)
    ensures r.Some? ==> OptText("", r.value) == t && (r.value.Some? ==> IsZoneString(r.value.value))
    ensures r.None? ==> t != [] && !IsZoneString(t)
  {
    if t == [] then Some(None)
    else if IsZoneString(t) then Some(Some(t))
    else None
  }

  /** `(?::(\d{2}))?(?:\.\d{1,3})?([Z\+\-\:\d]+)?$` after the head. */
  function MatchTail(t: string): (r: Option<(Option<string>, Option<string>, Option<string>)>)
    ensures r.Some? ==> TailWellFormed(r.value.0, r.value.1, r.value.2)
    ensures r.Some? ==> RenderTail(r.value.0, r.value.1, r.value.2) == t
  {
    var (sec, r1) := Seconds(t);
    var (frac, r2) := Fraction(r1);
    match Zone(r2)
    case None => None
    case Some(zone) =>
      assert OptText(":", sec) + (OptText(".", frac) + OptText("", zone)) == t;
      Some((sec, frac, zone))
  }

  /** `str.match(...)` for the date-time regular expression. */
  function Match(s: string): (r: Option<Parse>)
    ensures r.Some? ==> WellFormed(r.value) && Render(r.value) == s
  {
    match MatchHead(s)
    case None => None
    case Some((h, t)) =>
      match MatchTail(t)
      case None => None
      case Some((second, fraction, zone)) => Some(Parse(h, second, fraction, zone))
  }

  /** The head of a well-formed parse is found again, whatever follows it. */
  lemma MatchHeadRender(h: Head, rest: string)
    requires HeadWellFormed(h)
    ensures MatchHead(HeadText(h, rest)) == Some((h, rest))
  {
    var r4 := h.minute + rest;
    var r3 := h.hour + (":" + r4);
    var r2 := h.day + ([h.separator] + r3);
    var r1 := h.month + ("-" + r2);
    YearOf(h.year, r1);
    TwoThenOf(h.month, '-', r2);
    TwoThenOf(h.day, h.separator, r3);
    TwoThenOf(h.hour, ':', r4);
    TwoOf(h.minute, rest);
  }

  lemma YearOf(year: string, r1: string)
    requires |year| >= 4 && IsDigits(year)
    ensures Year(year + ("-" + r1)) == Some((year, r1))
  {
    SplitDigitsOf(year, "-" + r1);
    assert ("-" + r1)[1..] == r1;
  }

  lemma TwoThenOf(d: string, c: char, rest: string)
    requires IsTwoDigits(d)
    ensures TwoThen(d + ([c] + rest)) == Some((d, c, rest))
  {
    var s := d + ([c] + rest);
    assert s[..2] == d && s[2] == c && s[3..] == rest;
  }

  lemma TwoOf(d: string, rest: string)
    requires IsTwoDigits(d)
    ensures Two(d + rest) == Some((d, rest))
  {
    var s := d + rest;
    assert s[..2] == d && s[2..] == rest;
  }

  /** Every suffix of an offset string is one, or is empty. */
  lemma ZoneSuffix(z: string, i: nat)
    requires IsZoneString(z) && i <= |z|
    ensures z[i..] == [] || IsZoneString(z[i..])
  {
    assert forall j :: 0 <= j < |z[i..]| ==> z[i..][j] == z[i + j];
  }

  /** The tail of every string of the language is matched, with the seconds
      and fraction tried first. */
  lemma TailFirst(second: Option<string>, fraction: Option<string>, zone: Option<string>)
    requires TailWellFormed(second, fraction, zone)
    ensures var r := MatchTail(RenderTail(second, fraction, zone));
            r.Some?
            && (r.value == (second, fraction, zone)
                || (r.value.0.Some? && second.None?)
                || (r.value.0.Some? == second.Some? && FractionLength(r.value.1) > FractionLength(fraction)))
  {
    var t := RenderTail(second, fraction, zone);
    var ft := OptText(".", fraction);
    var zt := OptText("", zone);
    if second.Some? {
      SecondsOf(second.value, ft + zt);
      TailFraction(fraction, zone);
    } else {
      assert t == ft + zt;
      if Seconds(t).0.Some? {
        SecondsFromZone(fraction, zone);
      } else {
        TailFraction(fraction, zone);
      }
    }
  }

  lemma SecondsOf(sec: string, rest: string)
    requires IsTwoDigits(sec)
    ensures Seconds(OptText(":", Some(sec)) + rest) == (Some(sec), rest)
  {
    var t := OptText(":", Some(sec)) + rest;
    assert t == ":" + (sec + rest);
    assert t[1..3] == sec && t[3..] == rest;
  }

  /** When the seconds are read out of the offset string, what the offset
      string leaves is still one. */
  lemma SecondsFromZone(fraction: Option<string>, zone: Option<string>)
    requires TailWellFormed(None, fraction, zone)
    requires Seconds(OptText(".", fraction) + OptText("", zone)).0.Some?
    ensures MatchTail(OptText(".", fraction) + OptText("", zone)).Some?
  {
    var t := OptText(".", fraction) + OptText("", zone);
    assert fraction.None? && zone.Some?;
    var z := zone.value;
    assert t == z;
    var r1 := Seconds(t).1;
    assert r1 == z[3..];
    ZoneSuffix(z, 3);
    assert r1 == [] || r1[0] != '.';
    assert Fraction(r1) == (None, r1);
    assert Zone(r1).Some?;
  }

  /** The fraction step on the text of a well-formed fraction and offset. */
  lemma TailFraction(fraction: Option<string>, zone: Option<string>)
    requires TailWellFormed(None, fraction, zone)
    ensures var (frac, r2) := Fraction(OptText(".", fraction) + OptText("", zone));
            Zone(r2).Some?
            && (frac == fraction ==> Zone(r2).value == zone)
            && (frac != fraction ==> FractionLength(frac) > FractionLength(fraction))
  {
    var zt := OptText("", zone);
    assert zone.Some? ==> zt == zone.value;
    if fraction.Some? {
      FractionThenZone(fraction.value, zone);
      var (frac, r2) := Fraction("." + fraction.value + zt);
      assert OptText(".", fraction) + zt == "." + fraction.value + zt;
      if |frac.value| > |fraction.value| {
        ZoneSuffix(zone.value, |zone.value| - |r2|);
      }
    } else {
      assert OptText(".", fraction) + zt == zt;
      assert zt != [] ==> zt[0] != '.';
    }
  }

  lemma FractionThenZone(f: string, zone: Option<string>)
    requires TailWellFormed(None, Some(f), zone)
    ensures var (frac, r2) := Fraction("." + f + OptText("", zone));
            frac.Some? && |frac.value| >= |f|
            && (|frac.value| == |f| ==> frac.value == f && r2 == OptText("", zone))
            && (|frac.value| > |f| ==> zone.Some? && IsZoneString(zone.value) && |r2| < |zone.value|
                                       && r2 == zone.value[|zone.value| - |r2|..])
  {
    var zt := OptText("", zone);
    var n := FractionOf(f, zt);
    var digits := f + SplitDigits(zt).0[..n];
    var r2 := zt[n..];
    assert |digits| == |f| + n;
    if n == 0 {
      assert digits == f && r2 == zt;
    } else {
      assert zone.Some? && zt == zone.value;
      assert |zone.value| - |r2| == n;
    }
  }

  /** The fraction takes the digits `f` and as many of the digits that
      follow as fit in three. */
  lemma FractionOf(f: string, zt: string) returns (n: nat)
    requires 1 <= |f| <= 3 && IsDigits(f)
    ensures n == Min(3 - |f|, |SplitDigits(zt).0|) && n <= |zt|
    ensures Fraction("." + f + zt) == (Some(f + SplitDigits(zt).0[..n]), zt[n..])
  {
    var t := "." + f + zt;
    assert t[1..] == f + zt;
    SplitDigitsAfter(f, zt);
    var zd := SplitDigits(zt);
    var ds := f + zd.0;
    n := Min(3 - |f|, |zd.0|);
    var k := Min(3, |ds|);
    assert k == |f| + n;
    assert ds[..k] == f + zd.0[..n];
    SliceAfter(f, zd.0, k);
    SliceConcat(zd.0, zd.1, n);
  }

  lemma SliceAfter(x: string, y: string, k: nat)
    requires |x| <= k <= |x| + |y|
    ensures (x + y)[k..] == y[k - |x|..]
  {
  }

  lemma SliceConcat(x: string, y: string, j: nat)
    requires j <= |x|
    ensures x[j..] + y == (x + y)[j..]
  {
  }

  /** The regular expression matches every string of its language, and of
      the parses of that string it returns the one tried first. */
  lemma MatchFirst(q: Parse)
    requires WellFormed(q)
    ensures Match(Render(q)).Some?
    ensures Match(Render(q)).value == q || Precedes(Match(Render(q)).value, q)
  {
    MatchHeadRender(q.head, RenderTail(q.second, q.fraction, q.zone));
    TailFirst(q.second, q.fraction, q.zone);
  }

  /** The regular expression matches exactly the strings of its language. */
  lemma MatchIff(s: string)
    ensures Match(s).Some? <==> InLanguage(s)
  {
    if InLanguage(s) {
      var p :| WellFormed(p) && Render(p) == s;
      MatchFirst(p);
    }
  }

  // ---- The UTC offset string ----

  /** A parse of `^([\+\-])?(\d{2}):?(\d{2})$`. */
  datatype Offset = Offset(sign: Option<char>, hours: string, colon: bool, minutes: string)

  predicate OffsetWellFormed(o: Offset) {
    (o.sign.Some? ==> o.sign.value in "+-") && IsTwoDigits(o.hours) && IsTwoDigits(o.minutes)
  }

  function RenderOffset(o: Offset): string {
    (if o.sign.Some? then [o.sign.value] else "") + (o.hours + ((if o.colon then ":" else "") + o.minutes))
  }

  /** `([\+\-])?`, and what is left. */
  function Sign(z: string): (r: (Option<char>, string))
    ensures (if r.0.Some? then [r.0.value] else "") + r.1 == z
    ensures r.0.Some? ==> r.0.value in "+-"
    ensures r.0.None? ==> r.1 == z && (z == [] || z[0] !in "+-")
  {
    if z != [] && z[0] in "+-" then
      assert z == [z[0]] + z[1..];
      (Some(z[0]), z[1..])
    else
      (None, z)
  }

  /** `:?`, and what is left. */
  function Colon(t: string): (r: (bool, string))
    ensures (if r.0 then ":" else "") + r.1 == t
    ensures !r.0 ==> r.1 == t && (t == [] || t[0] != ':')
  {
    if t != [] && t[0] == ':' then
      assert t == [t[0]] + t[1..];
      (true, t[1..])
    else
      (false, t)
  }

  /** `time_array[7].match(/^([\+\-])?(\d{2}):?(\d{2})$/)`. */
  function MatchOffset(z: string): (r: Option<Offset>)
    ensures r.Some? ==> OffsetWellFormed(r.value) && RenderOffset(r.value) == z
  {
    var (sign, r1) := Sign(z);
    match Two(r1)
    case None => None
    case Some((hours, r2)) =>
      var (colon, r3) := Colon(r2);
      if IsTwoDigits(r3) then Some(Offset(sign, hours, colon, r3)) else None
  }

  /** The offset grammar has one parse per string. */
  lemma MatchOffsetRender(o: Offset)
    requires OffsetWellFormed(o)
    ensures MatchOffset(RenderOffset(o)) == Some(o)
  {
    var r2 := (if o.colon then ":" else "") + o.minutes;
    var r1 := o.hours + r2;
    SignOf(o.sign, r1);
    TwoOf(o.hours, r2);
    ColonOf(o.colon, o.minutes);
  }

  lemma SignOf(sign: Option<char>, r1: string)
    requires sign.Some? ==> sign.value in "+-"
    requires r1 != [] && IsDigit(r1[0])
    ensures Sign((if sign.Some? then [sign.value] else "") + r1) == (sign, r1)
  {
    var z := (if sign.Some? then [sign.value] else "") + r1;
    if sign.Some? {
      assert z[0] == sign.value && z[1..] == r1;
    } else {
      assert z == r1;
    }
  }

  lemma ColonOf(colon: bool, minutes: string)
    requires IsTwoDigits(minutes)
    ensures Colon((if colon then ":" else "") + minutes) == (colon, minutes)
  {
    var t := (if colon then ":" else "") + minutes;
    if colon {
      assert t[0] == ':' && t[1..] == minutes;
    } else {
      assert t == minutes;
    }
  }

  /** The offset in milliseconds that `parseEndDate` adds to the assembled
      instant (jquery.countdown.js:270-275): `HH` hours and `MM` minutes,
      negated for a `+` sign, and 0 for `Z` or any other string the offset
      grammar rejects. */
  function ZoneOffsetMs(z: string): int {
    match MatchOffset(z)
    case None => 0
    case Some(o) =>
      var magnitude := Units.HToMs(o.hours) + Units.MToMs(o.minutes);
      if o.sign == Some('+') then -magnitude else magnitude
  }

  /** A time-zone offset `±HH:MM` says the local time is that far ahead of
      (`+`) or behind (`-`) UTC (ISO 8601:2004, section 4.2.5.1), so the UTC
      instant is the local reading minus the offset. */
  lemma ZoneOffsetMeaning(o: Offset)
    requires OffsetWellFormed(o)
    ensures var magnitude := Decimal(o.hours) * 3600000 + Decimal(o.minutes) * 60000;
            ZoneOffsetMs(RenderOffset(o)) == if o.sign == Some('+') then -magnitude else magnitude
  {
    MatchOffsetRender(o);
    ZoneOffsetOf(RenderOffset(o), o);
  }

  /** The offset of a string the offset grammar accepts. */
  lemma ZoneOffsetOf(z: string, o: Offset)
    requires MatchOffset(z) == Some(o)
    ensures var magnitude := Decimal(o.hours) * 3600000 + Decimal(o.minutes) * 60000;
            ZoneOffsetMs(z) == if o.sign == Some('+') then -magnitude else magnitude
  {
    assert Units.HToMs(o.hours) == Decimal(o.hours) * 3600000;
    assert Units.MToMs(o.minutes) == Decimal(o.minutes) * 60000;
  }

  /** The colon between hours and minutes is optional and changes nothing. */
  lemma ZoneOffsetColon(o: Offset)
    requires OffsetWellFormed(o)
    ensures ZoneOffsetMs(RenderOffset(o.(colon := true))) == ZoneOffsetMs(RenderOffset(o.(colon := false)))
  {
    ZoneOffsetMeaning(o.(colon := true));
    ZoneOffsetMeaning(o.(colon := false));
  }

  /** `Z`, the UTC designator, is not an offset the grammar accepts, and
      adds nothing. */
  lemma ZoneOffsetOfZ()
    ensures ZoneOffsetMs("Z") == 0
  {
    assert Sign("Z") == (None, "Z");
    assert Two("Z").None?;
  }

  /** `+01:00` and `+0100` are one hour ahead of UTC. */
  lemma ZoneOffsetOneHour()
    ensures ZoneOffsetMs("+01:00") == ZoneOffsetMs("+0100") == -3600000
  {
    var o := Offset(Some('+'), "01", true, "00");
    assert RenderOffset(o) == "+01:00";
    assert RenderOffset(o.(colon := false)) == "+0100";
    assert Decimal("01") == 1 by { assert "01"[..1] == "0"; }
    assert Decimal("00") == 0 by { assert "00"[..1] == "0"; }
    ZoneOffsetMeaning(o);
    ZoneOffsetColon(o);
  }

  /** The milliseconds of the time of day: `hh + mm + ss` of
      jquery.countdown.js:277-279, absent seconds counting 0. */
  function TimeOfDayMs(p: Parse): nat
    requires WellFormed(p)
  {
    Units.HToMs(p.head.hour) + Units.MToMs(p.head.minute)
    + (if p.second.Some? then Units.SToMs(p.second.value) else 0)
  }
}
