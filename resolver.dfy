/** `parseEndDate` (jquery.countdown.js:195-321): the four interpretations
    of a string tried in a fixed order, and `init`'s choice between the
    `datetime` attribute and the text content (jquery.countdown.js:133-141).

    The clock is the parameter `now`, one reading for the whole call. */
module Resolver {
  import opened Wrappers
  import opened Chars
  import DurationGrammar
  import DateTimeGrammar
  import HumanGrammar

  /** What the model takes from the host: `Date.parse`, with `None` for
      NaN (jquery.countdown.js:204-207), and the calendar assembly of
      jquery.countdown.js:280-283, which sets the time value to a time of
      day and then the local date (`setDate`), month (`setMonth`) and year
      (`setFullYear`), and reads the time value back. */
  datatype Host = Host(dateParse: string -> Option<int>, civil: (int, int, int, int) -> int)

  /** The outcome of `parseEndDate`: an end instant in milliseconds since
      the epoch, `undefined`, or the `TypeError` of jquery.countdown.js:270
      (`time_array[7].match` on an absent offset group). */
  datatype Resolution = Resolved(instant: int) | Unresolved | Thrown

  /** The date-time branch (jquery.countdown.js:265-285) on its parse. */
  function DateTimeResolution(p: DateTimeGrammar.Parse, host: Host): Resolution
    requires DateTimeGrammar.WellFormed(p)
  {
    if p.zone.None? then
      Thrown
    else
      var local := host.civil(DateTimeGrammar.TimeOfDayMs(p), Decimal(p.head.day),
                              Decimal(p.head.month) - 1, Decimal(p.head.year));
      Resolved(local + DateTimeGrammar.ZoneOffsetMs(p.zone.value))
  }

  /** `parseEndDate(str)`. */
  function ParseEndDate(str: string, now: int, host: Host): Resolution {
    match host.dateParse(str)
    case Some(t) => Resolved(t)
    case None =>
      var duration := DurationGrammar.Match(str);
      if duration.Some? then
        Resolved(now + DurationGrammar.OffsetMs(duration.value))
      else
        var dateTime := DateTimeGrammar.Match(str);
        if dateTime.Some? then
          DateTimeResolution(dateTime.value, host)
        else
          var human := HumanGrammar.Match(str);
          if human.Some? then Resolved(now + HumanGrammar.OffsetMs(human.value)) else Unresolved
  }

  /** A string of the date-time or human-readable language starts with a
      digit, so neither is a duration (which starts with `P`). */
  lemma NotDuration(str: string)
    requires str != [] && IsDigit(str[0])
    ensures !DurationGrammar.InLanguage(str)
  {
    DurationGrammar.MatchIff(str);
  }

  lemma DateTimeStartsWithDigit(p: DateTimeGrammar.Parse)
    requires DateTimeGrammar.WellFormed(p)
    ensures DateTimeGrammar.Render(p) != [] && IsDigit(DateTimeGrammar.Render(p)[0])
  {
    assert DateTimeGrammar.Render(p)[0] == p.head.year[0];
  }

  lemma HumanStartsWithDigit(p: HumanGrammar.Parse)
    requires HumanGrammar.WellFormed(p)
    ensures HumanGrammar.Render(p) != [] && IsDigit(HumanGrammar.Render(p)[0])
  {
    if p.day.Some? {
      assert HumanGrammar.Render(p)[0] == p.day.value.days[0];
    } else {
      assert HumanGrammar.Render(p)[0] == p.tail.hours[0];
    }
  }

  /** A number `Date.parse` accepts wins over every pattern. */
  lemma DateParseFirst(str: string, now: int, host: Host)
    requires host.dateParse(str).Some?
    ensures ParseEndDate(str, now, host) == Resolved(host.dateParse(str).value)
  {
  }

  /** A duration `p` that `Date.parse` rejects ends `OffsetMs(p)` after
      `now`, never before it. */
  lemma DurationMeaning(str: string, now: int, host: Host, p: DurationGrammar.Parse)
    requires host.dateParse(str).None?
    requires DurationGrammar.WellFormed(p) && DurationGrammar.Render(p) == str
    ensures ParseEndDate(str, now, host) == Resolved(now + DurationGrammar.OffsetMs(p))
  {
    DurationGrammar.MatchRender(p);
  }

  /** A date-time string is resolved from its own fields and offset, or
      throws; the clock plays no part. */
  lemma DateTimeMeaning(str: string, now: int, host: Host)
    requires host.dateParse(str).None? && DateTimeGrammar.InLanguage(str)
    ensures DateTimeGrammar.Match(str).Some?
    ensures ParseEndDate(str, now, host) == DateTimeResolution(DateTimeGrammar.Match(str).value, host)
  {
    DateTimeGrammar.MatchIff(str);
    DateTimeStartsWithDigit(DateTimeGrammar.Match(str).value);
    NotDuration(str);
    DurationGrammar.MatchIff(str);
  }

  lemma DateTimeIgnoresNow(str: string, now1: int, now2: int, host: Host)
    requires host.dateParse(str).None? && DateTimeGrammar.InLanguage(str)
    ensures ParseEndDate(str, now1, host) == ParseEndDate(str, now2, host)
  {
    DateTimeMeaning(str, now1, host);
    DateTimeMeaning(str, now2, host);
  }

  /** A human-readable duration that no earlier interpretation takes ends
      the first parse's `OffsetMs` after `now`. */
  lemma HumanMeaning(str: string, now: int, host: Host)
    requires host.dateParse(str).None? && !DateTimeGrammar.InLanguage(str) && HumanGrammar.InLanguage(str)
    ensures HumanGrammar.Match(str).Some?
    ensures ParseEndDate(str, now, host) == Resolved(now + HumanGrammar.OffsetMs(HumanGrammar.Match(str).value))
  {
    HumanGrammar.MatchIff(str);
    HumanStartsWithDigit(HumanGrammar.Match(str).value);
    NotDuration(str);
    DurationGrammar.MatchIff(str);
    DateTimeGrammar.MatchIff(str);
  }

  /** `parseEndDate` throws exactly on a date-time string without an
      offset that `Date.parse` rejects. */
  lemma ThrownIff(str: string, now: int, host: Host)
    ensures ParseEndDate(str, now, host) == Thrown
            <==> host.dateParse(str).None? && DateTimeGrammar.Match(str).Some?
                 && DateTimeGrammar.Match(str).value.zone.None?
  {
    if host.dateParse(str).None? && DateTimeGrammar.Match(str).Some? {
      DateTimeGrammar.MatchIff(str);
      DateTimeMeaning(str, now, host);
    }
  }

  /** `parseEndDate` returns `undefined` exactly when `Date.parse` and all
      three patterns reject the string. */
  lemma UnresolvedIff(str: string, now: int, host: Host)
    ensures ParseEndDate(str, now, host) == Unresolved
            <==> host.dateParse(str).None? && !DurationGrammar.InLanguage(str)
                 && !DateTimeGrammar.InLanguage(str) && !HumanGrammar.InLanguage(str)
  {
    DurationGrammar.MatchIff(str);
    DateTimeGrammar.MatchIff(str);
    HumanGrammar.MatchIff(str);
  }

  /** `init`'s end date: a non-empty `datetime` attribute is parsed first,
      and the text content when the attribute is absent or empty or parses
      to `undefined`. A throw while parsing the attribute propagates. */
  function EndDate(attr: Option<string>, text: string, now: int, host: Host): Resolution {
    var first := if attr.Some? && attr.value != "" then ParseEndDate(attr.value, now, host) else Unresolved;
    if first.Unresolved? then ParseEndDate(text, now, host) else first
  }

  /** No countdown starts exactly when neither the attribute nor the text
      gives an end date and nothing throws. */
  lemma EndDateUnresolvedIff(attr: Option<string>, text: string, now: int, host: Host)
    ensures EndDate(attr, text, now, host) == Unresolved
            <==> (attr.None? || attr.value == "" || ParseEndDate(attr.value, now, host) == Unresolved)
                 && ParseEndDate(text, now, host) == Unresolved
  {
  }

  /** An attribute that resolves hides the text content altogether. */
  lemma EndDateAttributeFirst(attr: string, text1: string, text2: string, now: int, host: Host)
    requires attr != "" && !ParseEndDate(attr, now, host).Unresolved?
    ensures EndDate(Some(attr), text1, now, host) == EndDate(Some(attr), text2, now, host)
            == ParseEndDate(attr, now, host)
  {
  }
}
