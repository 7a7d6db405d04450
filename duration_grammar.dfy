/** The duration grammar of `parseEndDate` (jquery.countdown.js:225):
    `^P(?:(\d+)D)?T?(?:(\d+)H)?(?:(\d+)M)?(?:(\d+)S)?$`, the designator form
    of an ISO 8601 duration (ISO 8601:2004, section 4.4.3.2) limited to days,
    hours, minutes and seconds.

    The language is given declaratively by `Parse`, `WellFormed` and `Render`;
    `Match` is what `str.match` computes. Every string of the language has a
    single parse, so `Match` and `Render` are inverse to each other. */
module DurationGrammar {
  import opened Wrappers
  import opened Chars
  import Units

  /** The four captures, and whether the optional `T` was present. */
  datatype Parse = Parse(
    days: Option<string>,
    hasT: bool,
    hours: Option<string>,
    minutes: Option<string>,
    seconds: Option<string>)

  /** An optional `(\d+)` capture. */
  predicate NumeralOpt(c: Option<string>) {
    c.Some? ==> IsNumeral(c.value)
  }

  predicate WellFormed(p: Parse) {
    NumeralOpt(p.days) && NumeralOpt(p.hours) && NumeralOpt(p.minutes) && NumeralOpt(p.seconds)
  }

  /** The text of `(?:(\d+)X)?` for capture `c` and designator `X`. */
  function Component(c: Option<string>, designator: char): string {
    if c.Some? then c.value + [designator] else ""
  }

  function AfterM(p: Parse): string {
    Component(p.seconds, 'S')
  }

  function AfterH(p: Parse): string {
    Component(p.minutes, 'M') + AfterM(p)
  }

  function AfterT(p: Parse): string {
    Component(p.hours, 'H') + AfterH(p)
  }

  function AfterDays(p: Parse): string {
    (if p.hasT then "T" else "") + AfterT(p)
  }

  /** The string that parse `p` spells out. */
  function Render(p: Parse): string {
    "P" + (Component(p.days, 'D') + AfterDays(p))
  }

  /** Membership in the language of the regular expression. */
  ghost predicate InLanguage(s: string) {
    exists p :: WellFormed(p) && Render(p) == s
  }

  /** A greedy optional group `(?:(\d+)X)?` at the start of `s`: the digit
      run must be maximal, since a shorter one would leave a digit where `X`
      is expected, and when the group fails it is skipped. */
  function Designated(s: string, designator: char): (r: (Option<string>, string))
    ensures Component(r.0, designator) + r.1 == s && NumeralOpt(r.0)
    ensures r.0.None? ==> r.1 == s
  {
    var (ds, rest) := SplitDigits(s);
    if ds != [] && rest != [] && rest[0] == designator then (Some(ds), rest[1..]) else (None, s)
  }

  /** The time part `(?:(\d+)H)?(?:(\d+)M)?(?:(\d+)S)?$` after the optional `T`. */
  function MatchTime(t: string, days: Option<string>, hasT: bool): (r: Option<Parse>)
    requires NumeralOpt(days)
    ensures r.Some? ==> WellFormed(r.value) && AfterT(r.value) == t
    ensures r.Some? ==> r.value.days == days && r.value.hasT == hasT
  {
    var h := Designated(t, 'H');
    var m := Designated(h.1, 'M');
    var sec := Designated(m.1, 'S');
    if sec.1 == [] then
      var p := Parse(days, hasT, h.0, m.0, sec.0);
      assert AfterM(p) == m.1;
      assert AfterH(p) == h.1;
      Some(p)
    else
      None
  }

  /** `str.match(/^P(?:(\d+)D)?T?(?:(\d+)H)?(?:(\d+)M)?(?:(\d+)S)?$/)`. */
  function Match(s: string): (r: Option<Parse>)
    ensures r.Some? ==> WellFormed(r.value) && Render(r.value) == s
  {
    if s == [] || s[0] != 'P' then
      None
    else
      var d := Designated(s[1..], 'D');
      var hasT := d.1 != [] && d.1[0] == 'T';
      var r := MatchTime(if hasT then d.1[1..] else d.1, d.0, hasT);
      MatchSoundStep(s, d.0, d.1, hasT, r);
      r
  }

  lemma MatchSoundStep(s: string, days: Option<string>, r1: string, hasT: bool, r: Option<Parse>)
    requires s != [] && s[0] == 'P'
    requires NumeralOpt(days) && s[1..] == Component(days, 'D') + r1
    requires hasT ==> r1 != [] && r1[0] == 'T'
    requires r.Some? ==> WellFormed(r.value) && AfterT(r.value) == (if hasT then r1[1..] else r1)
    requires r.Some? ==> r.value.days == days && r.value.hasT == hasT
    ensures r.Some? ==> WellFormed(r.value) && Render(r.value) == s
  {
    if r.Some? {
      var p := r.value;
      if hasT {
        assert r1 == "T" + r1[1..];
      }
      assert AfterDays(p) == r1;
      assert s == "P" + s[1..];
      assert Render(p) == "P" + s[1..];
    }
  }

  /** Every well-formed parse is what `Match` finds in its own rendering:
      the parse of a string of the language is unique. */
  lemma MatchRender(p: Parse)
    requires WellFormed(p)
    ensures Match(Render(p)) == Some(p)
  {
    var s := Render(p);
    assert s[1..] == Component(p.days, 'D') + AfterDays(p);
    NoDaysSlot(p);
    SlotRoundTrip(p.days, 'D', AfterDays(p));
    if p.hasT {
      assert AfterDays(p)[0] == 'T' && AfterDays(p)[1..] == AfterT(p);
    } else {
      assert AfterDays(p) == AfterT(p);
      StartsWithDigitOrEmpty(p);
    }
    MatchTimeRender(p);
  }

  /** The time part of a well-formed parse is matched back into its own
      components. */
  lemma MatchTimeRender(p: Parse)
    requires WellFormed(p)
    ensures MatchTime(AfterT(p), p.days, p.hasT) == Some(p)
  {
    NoSlotAtEnd('S');
    NoSlotAtEnd('M');
    NoSlotAfter(p.seconds, 'S', "", 'M');
    NoSlotAfter(p.seconds, 'S', "", 'H');
    assert AfterM(p) + "" == AfterM(p);
    NoSlotAfter(p.minutes, 'M', AfterM(p), 'H');
    SlotRoundTrip(p.hours, 'H', AfterH(p));
    SlotRoundTrip(p.minutes, 'M', AfterM(p));
    SlotRoundTrip(p.seconds, 'S', "");
  }

  /** No day component can be read again after the days. */
  lemma NoDaysSlot(p: Parse)
    requires WellFormed(p)
    ensures Designated(AfterDays(p), 'D').0.None?
  {
    NoSlotAtEnd('D');
    NoSlotAfter(p.seconds, 'S', "", 'D');
    assert AfterM(p) + "" == AfterM(p);
    NoSlotAfter(p.minutes, 'M', AfterM(p), 'D');
    NoSlotAfter(p.hours, 'H', AfterH(p), 'D');
    if p.hasT {
      assert AfterDays(p) == "T" + AfterT(p);
      assert SplitDigits(AfterDays(p)).0 == [];
    } else {
      assert AfterDays(p) == AfterT(p);
    }
  }

  /** The regular expression matches exactly the strings of the language. */
  lemma MatchIff(s: string)
    ensures Match(s).Some? <==> InLanguage(s)
  {
    if InLanguage(s) {
      var p :| WellFormed(p) && Render(p) == s;
      MatchRender(p);
    }
  }

  lemma SlotRoundTrip(c: Option<string>, designator: char, rest: string)
    requires NumeralOpt(c) && !IsDigit(designator)
    requires Designated(rest, designator).0.None?
    ensures Designated(Component(c, designator) + rest, designator) == (c, rest)
  {
    if c.Some? {
      assert Component(c, designator) + rest == c.value + ([designator] + rest);
      SplitDigitsOf(c.value, [designator] + rest);
      assert ([designator] + rest)[1..] == rest;
    } else {
      assert Component(c, designator) + rest == rest;
    }
  }

  lemma NoSlotAfter(c: Option<string>, designator: char, rest: string, other: char)
    requires NumeralOpt(c) && !IsDigit(designator) && designator != other
    requires Designated(rest, other).0.None?
    ensures Designated(Component(c, designator) + rest, other).0.None?
  {
    if c.Some? {
      assert Component(c, designator) + rest == c.value + ([designator] + rest);
      SplitDigitsOf(c.value, [designator] + rest);
    } else {
      assert Component(c, designator) + rest == rest;
    }
  }

  lemma NoSlotAtEnd(other: char)
    ensures Designated("", other).0.None?
  {
    assert SplitDigits("") == ("", "");
  }

  lemma StartsWithDigitOrEmpty(p: Parse)
    requires WellFormed(p)
    ensures AfterT(p) == [] || IsDigit(AfterT(p)[0])
  {
    if p.hours.Some? {
      assert AfterT(p)[0] == p.hours.value[0];
    } else if p.minutes.Some? {
      assert AfterT(p)[0] == p.minutes.value[0];
    } else if p.seconds.Some? {
      assert AfterT(p)[0] == p.seconds.value[0];
    }
  }

  /** The milliseconds a parse stands for: `dd + hh + mm + ss`, an absent
      component counting 0 (jquery.countdown.js:228-232). */
  function OffsetMs(p: Parse): nat
    requires WellFormed(p)
  {
    (if p.days.Some? then Units.DToMs(p.days.value) else 0)
    + (if p.hours.Some? then Units.HToMs(p.hours.value) else 0)
    + (if p.minutes.Some? then Units.MToMs(p.minutes.value) else 0)
    + (if p.seconds.Some? then Units.SToMs(p.seconds.value) else 0)
  }
}
