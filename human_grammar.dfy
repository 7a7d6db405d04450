/** The human-readable duration grammar of `parseEndDate`
    (jquery.countdown.js:310)

      `^(?:(\d+).+\s)?(\d+)[h:]\s?(\d+)[m:]?\s?(\d+)?[s]?(?:\.\d{1,3})?$`

    for strings such as "600 days, 3:59:12", "4h 18m 3s" or "00:01".

    After the optional day prefix the grammar is matched in a single pass:
    the hours run must be maximal to reach `h` or `:`, and every later
    optional item is taken whenever it is present, the minutes taking the
    longest digit run. The day prefix is where the engine backtracks: it
    tries the longest digit run first and, for each, the longest filler
    `.+` that is still followed by a white-space character from which the
    rest matches. `Match` performs that search literally
    (`SearchDigits`, `SearchFiller`), and `MatchFirst` proves it returns
    the parse the engine reaches first, as ordered by `Precedes`. */
module HumanGrammar {
  import opened Wrappers
  import opened Chars
  import Units

  /** The part after the optional day prefix: the hours and `[h:]`, an
      optional white space, the minutes, optional `[m:]`, an optional white
      space, the optional seconds, an optional `s` and the optional
      (uncaptured) fraction digits. */
  datatype Tail = Tail(hours: string, hoursMark: char, space1: Option<char>, minutes: string, after: After)

  /** What follows the minutes. */
  datatype After = After(
    minutesMark: Option<char>,
    space2: Option<char>,
    seconds: Option<string>,
    secondsMark: Option<char>,
    fraction: Option<string>)

  /** `(\d+).+\s`: the days capture, at least one character other than a
      line terminator, and a white-space character. */
  datatype DayPrefix = DayPrefix(days: string, filler: string, space: char)

  datatype Parse = Parse(day: Option<DayPrefix>, tail: Tail)

  predicate SpaceOpt(c: Option<char>) {
    c.Some? ==> IsSpace(c.value)
  }

  predicate MarkOpt(c: Option<char>, marks: set<char>) {
    c.Some? ==> c.value in marks
  }

  predicate NoLineTerminator(s: string) {
    forall i :: 0 <= i < |s| ==> !IsLineTerminator(s[i])
  }

  predicate AfterWellFormed(t: After) {
    && MarkOpt(t.minutesMark, {'m', ':'}) && SpaceOpt(t.space2)
    && (t.seconds.Some? ==> IsNumeral(t.seconds.value)) && MarkOpt(t.secondsMark, {'s'})
    && (t.fraction.Some? ==> 1 <= |t.fraction.value| <= 3 && IsDigits(t.fraction.value))
  }

  predicate TailWellFormed(t: Tail) {
    IsNumeral(t.hours) && t.hoursMark in {'h', ':'} && SpaceOpt(t.space1) && IsNumeral(t.minutes) && AfterWellFormed(t.after)
  }

  predicate DayWellFormed(d: DayPrefix) {
    IsNumeral(d.days) && |d.filler| > 0 && NoLineTerminator(d.filler) && IsSpace(d.space)
  }

  predicate WellFormed(p: Parse) {
    (p.day.Some? ==> DayWellFormed(p.day.value)) && TailWellFormed(p.tail)
  }

  function CharText(c: Option<char>): string {
    if c.Some? then [c.value] else ""
  }

  function FractionText(f: Option<string>): string {
    if f.Some? then "." + f.value else ""
  }

  /** The text after the minutes. */
  function AfterText(t: After): string {
    CharText(t.minutesMark)
    + (CharText(t.space2)
       + ((if t.seconds.Some? then t.seconds.value else "")
          + (CharText(t.secondsMark) + FractionText(t.fraction))))
  }

  function TailText(t: Tail): string {
    t.hours + ([t.hoursMark] + (CharText(t.space1) + (t.minutes + AfterText(t.after))))
  }

  /** The string that parse `p` spells out. */
  function Render(p: Parse): string {
    if p.day.Some? then
      p.day.value.days + (p.day.value.filler + ([p.day.value.space] + TailText(p.tail)))
    else
      TailText(p.tail)
  }

  ghost predicate InLanguage(s: string) {
    exists p :: WellFormed(p) && Render(p) == s
  }

  /** `p` is tried before `q`: the prefix group before skipping it, longer
      digit runs before shorter ones, longer fillers before shorter ones,
      and longer minutes before shorter ones. */
  predicate Precedes(p: Parse, q: Parse) {
    || (p.day.Some? && q.day.None?)
    || (p.day.Some? && q.day.Some? && |p.day.value.days| > |q.day.value.days|)
    || (p.day.Some? && q.day.Some? && |p.day.value.days| == |q.day.value.days|
        && |p.day.value.filler| > |q.day.value.filler|)
    || (p.day == q.day && |p.tail.minutes| > |q.tail.minutes|)
  }

  /** `\s?`. */
  function OptSpace(s: string): (r: (Option<char>, string))
    ensures CharText(r.0) + r.1 == s && SpaceOpt(r.0)
    ensures r.0.None? ==> r.1 == s && (s == [] || !IsSpace(s[0]))
  {
    if s != [] && IsSpace(s[0]) then
      assert s == [s[0]] + s[1..];
      (Some(s[0]), s[1..])
    else
      (None, s)
  }

  /** `[...]?` for the characters of `marks`. */
  function OptMark(s: string, marks: set<char>): (r: (Option<char>, string))
    ensures CharText(r.0) + r.1 == s && MarkOpt(r.0, marks)
    ensures r.0.None? ==> r.1 == s && (s == [] || s[0] !in marks)
  {
    if s != [] && s[0] in marks then
      assert s == [s[0]] + s[1..];
      (Some(s[0]), s[1..])
    else
      (None, s)
  }

  /** `(?:\.\d{1,3})?$`. */
  function FractionEnd(s: string): (r: Option<Option<string>>)
    ensures r.Some? ==> FractionText(r.value) == s
    ensures r.Some? && r.value.Some? ==> 1 <= |r.value.value| <= 3 && IsDigits(r.value.value)
  {
    if s == [] then Some(None)
    else if s[0] == '.' && 2 <= |s| <= 4 && IsDigits(s[1..]) then
      assert s == "." + s[1..];
      Some(Some(s[1..]))
    else None
  }

  /** `[m:]?\s?(\d+)?[s]?(?:\.\d{1,3})?$` after the minutes. */
  function MatchAfter(s: string): (r: Option<After>)
    ensures r.Some? ==> AfterWellFormed(r.value) && AfterText(r.value) == s
  {
    var (minutesMark, r1) := OptMark(s, {'m', ':'});
    var (space2, r2) := OptSpace(r1);
    var (ds, r3) := SplitDigits(r2);
    var seconds := if ds == [] then None else Some(ds);
    assert (if seconds.Some? then seconds.value else "") + r3 == r2;
    var (secondsMark, r4) := OptMark(r3, {'s'});
    match FractionEnd(r4)
    case None => None
    case Some(fraction) => Some(After(minutesMark, space2, seconds, secondsMark, fraction))
  }

  /** `(\d+)` for the minutes, then the rest. */
  function MatchMinutes(s: string): (r: Option<(string, After)>)
    ensures r.Some? ==> IsNumeral(r.value.0) && AfterWellFormed(r.value.1) && r.value.0 + AfterText(r.value.1) == s
  {
    var d := SplitDigits(s);
    if d.0 == [] then None
    else
      var after := MatchAfter(d.1);
      if after.Some? then Some((d.0, after.value)) else None
  }

  /** `(\d+)[h:]\s?(\d+)[m:]?\s?(\d+)?[s]?(?:\.\d{1,3})?$` on the whole of `s`. */
  function MatchTail(s: string): (r: Option<Tail>)
    ensures r.Some? ==> TailWellFormed(r.value) && TailText(r.value) == s
  {
    var d := SplitDigits(s);
    if d.0 == [] || d.1 == [] || d.1[0] !in {'h', ':'} then None
    else
      var sp := OptSpace(d.1[1..]);
      var m := MatchMinutes(sp.1);
      if m.Some? then
        assert d.1 == [d.1[0]] + d.1[1..];
        Some(Tail(d.0, d.1[0], sp.0, m.value.0, m.value.1))
      else
        None
  }

  /** The end of the longest run of characters other than line terminators
      that starts at `a`: where a greedy `.+` from `a` stops. */
  function DotEnd(s: string, a: nat): (r: nat)
    requires a <= |s|
    ensures a <= r <= |s|
    ensures forall j :: a <= j < r ==> !IsLineTerminator(s[j])
    ensures r < |s| ==> IsLineTerminator(s[r])
    decreases |s| - a
  {
    if a == |s| || IsLineTerminator(s[a]) then a else DotEnd(s, a + 1)
  }

  /** The match of the rest of `s` after a white space at each position:
      the table the day-prefix search consults. */
  function TailsAfter(s: string): (r: seq<Option<Tail>>)
    ensures |r| == |s|
  {
    seq(|s|, e requires 0 <= e < |s| => MatchTail(s[e + 1..]))
  }

  /** The `.+\s` backtracking for a day capture ending at `a`: the white
      space is tried at `e`, then at `e - 1`, down to `a + 1`, until the
      rest matches (`tails[e]` is the match of the rest after `e`). */
  function SearchFiller(s: string, tails: seq<Option<Tail>>, a: nat, e: nat): (r: Option<nat>)
    requires e <= |s| == |tails|
    ensures r.Some? ==> a < r.value <= e && r.value < |s| && IsSpace(s[r.value]) && tails[r.value].Some?
    decreases e
  {
    if e <= a then None
    else if e < |s| && IsSpace(s[e]) && tails[e].Some? then Some(e)
    else SearchFiller(s, tails, a, e - 1)
  }

  /** The `(\d+)` backtracking of the day prefix: the capture is tried
      with `a` digits, then `a - 1`, down to 1; for each, the filler `.+`
      starts as long as it can be. The result is the length of the capture
      and the position of the white space. */
  function SearchDigits(s: string, tails: seq<Option<Tail>>, a: nat): (r: Option<(nat, nat)>)
    requires a <= |s| == |tails|
    ensures r.Some? ==>
      var (a', e) := r.value;
      1 <= a' <= a && a' < e < |s| && IsSpace(s[e]) && tails[e].Some? && e <= DotEnd(s, a')
    decreases a
  {
    if a == 0 then None
    else
      var f := SearchFiller(s, tails, a, DotEnd(s, a));
      if f.Some? then Some((a, f.value)) else SearchDigits(s, tails, a - 1)
  }

  /** `str.match(...)` for the human-readable regular expression. */
  function Match(s: string): (r: Option<Parse>)
    ensures r.Some? ==> WellFormed(r.value) && Render(r.value) == s
  {
    var tails := TailsAfter(s);
    var found := SearchDigits(s, tails, |SplitDigits(s).0|);
    if found.Some? then
      DayMatch(s, found.value.0, found.value.1)
    else
      var t := MatchTail(s);
      if t.Some? then Some(Parse(None, t.value)) else None
  }

  lemma OptMarkOf(c: Option<char>, rest: string, marks: set<char>)
    requires MarkOpt(c, marks) && (c.None? ==> rest == [] || rest[0] !in marks)
    ensures OptMark(CharText(c) + rest, marks) == (c, rest)
  {
    if c.Some? {
      assert (CharText(c) + rest)[1..] == rest;
    } else {
      assert CharText(c) + rest == rest;
    }
  }

  lemma OptSpaceOf(c: Option<char>, rest: string)
    requires SpaceOpt(c) && (c.None? ==> rest == [] || !IsSpace(rest[0]))
    ensures OptSpace(CharText(c) + rest) == (c, rest)
  {
    if c.Some? {
      assert (CharText(c) + rest)[1..] == rest;
    } else {
      assert CharText(c) + rest == rest;
    }
  }

  /** The parse with the day prefix the search found: `a` digits and a
      white space at `e`. */
  function DayMatch(s: string, a: nat, e: nat): (r: Option<Parse>)
    requires 1 <= a <= |SplitDigits(s).0| && a < e < |s| && IsSpace(s[e]) && e <= DotEnd(s, a)
    requires TailsAfter(s)[e].Some?
    ensures r.Some? && WellFormed(r.value) && Render(r.value) == s
  {
    var t := MatchTail(s[e + 1..]);
    assert t == TailsAfter(s)[e];
    DaySplit(s, a, e);
    Some(Parse(Some(DayPrefix(s[..a], s[a..e], s[e])), t.value))
  }

  /** The pieces of a day prefix found by the search. */
  lemma DaySplit(s: string, a: nat, e: nat)
    requires 1 <= a <= |SplitDigits(s).0| && a < e < |s| && IsSpace(s[e]) && e <= DotEnd(s, a)
    ensures DayWellFormed(DayPrefix(s[..a], s[a..e], s[e]))
    ensures s == s[..a] + (s[a..e] + ([s[e]] + s[e + 1..]))
  {
    DigitsPrefix(s, a);
    FillerOf(s, a, e);
    SplitThree(s, a, e);
  }

  lemma DigitsPrefix(s: string, a: nat)
    requires 1 <= a <= |SplitDigits(s).0|
    ensures IsNumeral(s[..a])
  {
    var digits := SplitDigits(s).0;
    assert s == digits + SplitDigits(s).1;
    assert s[..a] == digits[..a];
  }

  lemma FillerOf(s: string, a: nat, e: nat)
    requires a <= |s| && a < e <= DotEnd(s, a)
    ensures NoLineTerminator(s[a..e])
  {
    assert forall j :: 0 <= j < e - a ==> s[a..e][j] == s[a + j];
  }

  lemma SplitThree(s: string, a: nat, e: nat)
    requires a <= e < |s|
    ensures s == s[..a] + (s[a..e] + ([s[e]] + s[e + 1..]))
  {
    assert s[a..] == s[a..e] + s[e..];
    assert s[e..] == [s[e]] + s[e + 1..];
    assert s == s[..a] + s[a..];
  }

  /** The text after the minutes is matched back into its own items. */
  lemma AfterRender(t: After)
    requires AfterWellFormed(t)
    ensures MatchAfter(AfterText(t)) == Some(t)
  {
    var r3 := CharText(t.secondsMark) + FractionText(t.fraction);
    var r2 := (if t.seconds.Some? then t.seconds.value else "") + r3;
    var r1 := CharText(t.space2) + r2;
    SecondsPartOf(t);
    OptSpaceOf(t.space2, r2);
    if t.space2.Some? {
      assert r1[0] == t.space2.value;
    } else {
      assert r1 == r2;
    }
    OptMarkOf(t.minutesMark, r1, {'m', ':'});
  }

  /** The seconds, their mark and the fraction are matched back, and no
      item can be mistaken for an earlier one. */
  lemma SecondsPartOf(t: After)
    requires AfterWellFormed(t)
    ensures var ft := FractionText(t.fraction);
            var r3 := CharText(t.secondsMark) + ft;
            var st := if t.seconds.Some? then t.seconds.value else "";
            && SplitDigits(st + r3) == (st, r3) && OptMark(r3, {'s'}) == (t.secondsMark, ft)
            && FractionEnd(ft) == Some(t.fraction)
            && (st + r3 == [] || (!IsSpace((st + r3)[0]) && (st + r3)[0] !in {'m', ':'}))
  {
    var ft := FractionText(t.fraction);
    var r3 := CharText(t.secondsMark) + ft;
    var st := if t.seconds.Some? then t.seconds.value else "";
    if t.fraction.Some? {
      assert ft[0] == '.' && ft[1..] == t.fraction.value;
    }
    assert FractionEnd(ft) == Some(t.fraction);
    OptMarkOf(t.secondsMark, ft, {'s'});
    assert r3 == [] || r3[0] == 's' || r3[0] == '.' by {
      if t.secondsMark.Some? { assert r3[0] == 's'; } else { assert r3 == ft; }
    }
    SplitDigitsOf(st, r3);
    if t.seconds.Some? {
      assert (st + r3)[0] == st[0];
    } else {
      assert st + r3 == r3;
    }
  }

  /** The minutes take the longest digit run: when no mark or white space
      follows them, the seconds digits run on into the minutes. */
  lemma MinutesFirst(minutes: string, a: After)
    requires IsNumeral(minutes) && AfterWellFormed(a)
    ensures MatchMinutes(minutes + AfterText(a)).Some?
    ensures var m := MatchMinutes(minutes + AfterText(a)).value;
            m == (minutes, a) || |m.0| > |minutes|
  {
    if a.minutesMark.None? && a.space2.None? && a.seconds.Some? {
      MinutesRunOn(minutes, a);
    } else {
      MinutesExact(minutes, a);
    }
  }

  lemma MinutesExact(minutes: string, a: After)
    requires IsNumeral(minutes) && AfterWellFormed(a)
    requires !(a.minutesMark.None? && a.space2.None? && a.seconds.Some?)
    ensures MatchMinutes(minutes + AfterText(a)) == Some((minutes, a))
  {
    var am := AfterText(a);
    AfterRender(a);
    if a.minutesMark.Some? {
      assert am[0] == a.minutesMark.value;
    } else if a.space2.Some? {
      assert am[0] == a.space2.value;
    } else if a.secondsMark.Some? {
      assert am[0] == 's';
    } else if a.fraction.Some? {
      assert am[0] == '.';
    } else {
      assert am == [];
    }
    SplitDigitsOf(minutes, am);
  }

  lemma MinutesRunOn(minutes: string, a: After)
    requires IsNumeral(minutes) && AfterWellFormed(a)
    requires a.minutesMark.None? && a.space2.None? && a.seconds.Some?
    ensures MatchMinutes(minutes + AfterText(a)) == Some((minutes + a.seconds.value, a.(seconds := None)))
  {
    var a' := a.(seconds := None);
    var rest := AfterText(a');
    assert AfterText(a) == a.seconds.value + rest;
    assert minutes + AfterText(a) == (minutes + a.seconds.value) + rest;
    AfterRender(a');
    if a.secondsMark.Some? {
      assert rest[0] == 's';
    } else if a.fraction.Some? {
      assert rest[0] == '.';
    } else {
      assert rest == [];
    }
    SplitDigitsOf(minutes + a.seconds.value, rest);
  }

  /** The tail of every string of the language is matched, with the
      minutes taking the longest run of digits. */
  lemma TailFirst(t: Tail)
    requires TailWellFormed(t)
    ensures MatchTail(TailText(t)).Some?
    ensures MatchTail(TailText(t)).value == t || |MatchTail(TailText(t)).value.minutes| > |t.minutes|
  {
    var r2 := t.minutes + AfterText(t.after);
    var r1 := [t.hoursMark] + (CharText(t.space1) + r2);
    SplitDigitsOf(t.hours, r1);
    assert r1[1..] == CharText(t.space1) + r2;
    assert r2[0] == t.minutes[0];
    OptSpaceOf(t.space1, r2);
    MinutesFirst(t.minutes, t.after);
  }

  /** The filler search finds a white space at `eq` if there is no later
      one from which the rest matches. */
  lemma {:induction false} SearchFillerFinds(s: string, tails: seq<Option<Tail>>, a: nat, e: nat, eq: nat)
    requires e <= |s| == |tails|
    requires a < eq <= e && eq < |s| && IsSpace(s[eq]) && tails[eq].Some?
    ensures SearchFiller(s, tails, a, e).Some? && SearchFiller(s, tails, a, e).value >= eq
    decreases e
  {
    if e > eq && !(e < |s| && IsSpace(s[e]) && tails[e].Some?) {
      SearchFillerFinds(s, tails, a, e - 1, eq);
    }
  }

  /** The digit search finds a day capture of `aq` digits if there is no
      longer one from which the rest matches. */
  lemma {:induction false} SearchDigitsFinds(s: string, tails: seq<Option<Tail>>, a: nat, aq: nat, eq: nat)
    requires a <= |s| == |tails|
    requires 1 <= aq <= a && aq < eq <= DotEnd(s, aq) && eq < |s| && IsSpace(s[eq]) && tails[eq].Some?
    ensures SearchDigits(s, tails, a).Some?
    ensures var (a', e') := SearchDigits(s, tails, a).value;
            a' > aq || (a' == aq && e' >= eq)
    decreases a
  {
    if a == aq {
      SearchFillerFinds(s, tails, aq, DotEnd(s, aq), eq);
    } else if SearchFiller(s, tails, a, DotEnd(s, a)).None? {
      SearchDigitsFinds(s, tails, a - 1, aq, eq);
    }
  }

  /** The regular expression matches every string of its language, and of
      the parses of that string it returns the one tried first. */
  lemma MatchFirst(q: Parse)
    requires WellFormed(q)
    ensures Match(Render(q)).Some?
    ensures Match(Render(q)).value == q || Precedes(Match(Render(q)).value, q)
  {
    TailFirst(q.tail);
    if q.day.Some? {
      MatchFirstWithDay(q);
    }
  }

  lemma MatchFirstWithDay(q: Parse)
    requires WellFormed(q) && q.day.Some?
    ensures Match(Render(q)).Some?
    ensures Match(Render(q)).value == q || Precedes(Match(Render(q)).value, q)
  {
    DayPieces(q);
    MatchFirstAt(Render(q), q);
  }

  /** `s` is spelt out by the day prefix and tail of `q`, piece by piece. */
  predicate PiecesAt(s: string, q: Parse)
    requires q.day.Some?
  {
    var dp := q.day.value;
    var a := |dp.days|;
    var e := a + |dp.filler|;
    e < |s| && s[..a] == dp.days && s[a..e] == dp.filler && s[e] == dp.space && s[e + 1..] == TailText(q.tail)
  }

  /** The search may reach the day prefix of `q` in `s`. */
  predicate ReachableAt(s: string, q: Parse)
    requires q.day.Some?
  {
    var a := |q.day.value.days|;
    a <= |s| && a <= |SplitDigits(s).0| && a + |q.day.value.filler| <= DotEnd(s, a)
  }

  lemma MatchFirstAt(s: string, q: Parse)
    requires WellFormed(q) && q.day.Some? && PiecesAt(s, q) && ReachableAt(s, q)
    ensures Match(s).Some?
    ensures Match(s).value == q || Precedes(Match(s).value, q)
  {
    var a := |q.day.value.days|;
    var e := a + |q.day.value.filler|;
    DayAtPieces(s, q, a, e);
    TailAtPieces(s[e + 1..], q.tail);
    MatchFirstFrom(s, q, a, e);
  }

  /** The search's verdict on `s`, given where the day prefix of `q` sits. */
  lemma MatchFirstFrom(s: string, q: Parse, a: nat, e: nat)
    requires q.day.Some? && a == |q.day.value.days| && e == a + |q.day.value.filler|
    requires 1 <= a <= |SplitDigits(s).0| && a < e <= DotEnd(s, a) && e < |s| && IsSpace(s[e])
    requires DayPrefix(s[..a], s[a..e], s[e]) == q.day.value
    requires MatchTail(s[e + 1..]).Some?
    requires MatchTail(s[e + 1..]).value == q.tail || |MatchTail(s[e + 1..]).value.minutes| > |q.tail.minutes|
    ensures Match(s).Some?
    ensures Match(s).value == q || Precedes(Match(s).value, q)
  {
    var a', e' := MatchFound(s, a, e);
    MatchWithFound(s, a', e');
    SameDay(s, q, a, e, a', e');
    ConcludeFirst(q, DayPrefix(s[..a'], s[a'..e'], s[e']), MatchTail(s[e' + 1..]).value, a, e, a', e');
  }

  /** When a day prefix of `a` digits and a white space at `e` can be
      followed by a tail, the search finds that one or one tried before it. */
  lemma MatchFound(s: string, a: nat, e: nat) returns (a': nat, e': nat)
    requires 1 <= a <= |SplitDigits(s).0| && a < e <= DotEnd(s, a) && e < |s| && IsSpace(s[e])
    requires MatchTail(s[e + 1..]).Some?
    ensures a' > a || (a' == a && e' >= e)
    ensures SearchDigits(s, TailsAfter(s), |SplitDigits(s).0|) == Some((a', e'))
  {
    TailsAt(s, e, s[e + 1..]);
    SearchDigitsFinds(s, TailsAfter(s), |SplitDigits(s).0|, a, e);
    var found := SearchDigits(s, TailsAfter(s), |SplitDigits(s).0|).value;
    a', e' := found.0, found.1;
  }

  lemma TailAtPieces(x: string, t: Tail)
    requires TailWellFormed(t) && x == TailText(t)
    ensures MatchTail(x).Some? && (MatchTail(x).value == t || |MatchTail(x).value.minutes| > |t.minutes|)
  {
    TailFirst(t);
  }

  /** The facts about `s` that the search needs, read off the pieces. */
  lemma DayAtPieces(s: string, q: Parse, a: nat, e: nat)
    requires WellFormed(q) && q.day.Some? && PiecesAt(s, q) && ReachableAt(s, q)
    requires a == |q.day.value.days| && e == a + |q.day.value.filler|
    ensures 1 <= a <= |SplitDigits(s).0| && a < e <= DotEnd(s, a) && e < |s| && IsSpace(s[e])
    ensures DayPrefix(s[..a], s[a..e], s[e]) == q.day.value
    ensures s[e + 1..] == TailText(q.tail)
  {
  }

  /** When the search stops at the day prefix of `q`, it reads `q`'s day
      prefix and the tail found after it. */
  lemma SameDay(s: string, q: Parse, a: nat, e: nat, a': nat, e': nat)
    requires q.day.Some? && a < e < |s| && DayPrefix(s[..a], s[a..e], s[e]) == q.day.value
    requires MatchTail(s[e + 1..]).Some?
    requires MatchTail(s[e + 1..]).value == q.tail || |MatchTail(s[e + 1..]).value.minutes| > |q.tail.minutes|
    requires a' <= e' < |s|
    ensures a' == a && e' == e ==>
              && DayPrefix(s[..a'], s[a'..e'], s[e']) == q.day.value && MatchTail(s[e' + 1..]).Some?
              && (MatchTail(s[e' + 1..]).value == q.tail || |MatchTail(s[e' + 1..]).value.minutes| > |q.tail.minutes|)
  {
  }

  /** The parse built from the day prefix the search found is `q` or is
      tried before it. */
  lemma ConcludeFirst(q: Parse, d: DayPrefix, t: Tail, a: nat, e: nat, a': nat, e': nat)
    requires q.day.Some? && a == |q.day.value.days| && e == a + |q.day.value.filler|
    requires |d.days| == a' && |d.filler| == e' - a'
    requires a' > a || (a' == a && e' >= e)
    requires a' == a && e' == e ==> d == q.day.value && (t == q.tail || |t.minutes| > |q.tail.minutes|)
    ensures Parse(Some(d), t) == q || Precedes(Parse(Some(d), t), q)
  {
    if a' == a && e' == e {
      assert Some(d) == q.day;
    }
  }

  /** What `Match` returns once the search has found a day prefix. */
  lemma MatchWithFound(s: string, a: nat, e: nat)
    requires SearchDigits(s, TailsAfter(s), |SplitDigits(s).0|) == Some((a, e))
    ensures e < |s| && MatchTail(s[e + 1..]).Some?
    ensures Match(s) == Some(Parse(Some(DayPrefix(s[..a], s[a..e], s[e])), MatchTail(s[e + 1..]).value))
  {
    TailsAt(s, e, s[e + 1..]);
  }

  lemma TailsAt(s: string, e: nat, x: string)
    requires e < |s| && s[e + 1..] == x
    ensures TailsAfter(s)[e] == MatchTail(x)
  {
  }

  /** Where the pieces of a day prefix sit in the string it starts. */
  lemma DayPieces(q: Parse)
    requires WellFormed(q) && q.day.Some?
    ensures PiecesAt(Render(q), q) && ReachableAt(Render(q), q)
  {
    var dp := q.day.value;
    var rest := dp.filler + ([dp.space] + TailText(q.tail));
    var s := dp.days + rest;
    assert s == Render(q);
    var a := |dp.days|;
    var e := a + |dp.filler|;
    assert s[..a] == dp.days && s[a..] == rest;
    assert rest[..|dp.filler|] == dp.filler && rest[|dp.filler|] == dp.space && rest[|dp.filler| + 1..] == TailText(q.tail);
    DigitsAtLeast(dp.days, rest);
    DotEndAtLeast(s, a, e);
  }

  lemma DigitsAtLeast(ds: string, x: string)
    requires IsDigits(ds)
    ensures |SplitDigits(ds + x).0| >= |ds|
  {
    SplitDigitsAfter(ds, x);
  }

  lemma DotEndAtLeast(s: string, a: nat, e: nat)
    requires a <= e <= |s| && NoLineTerminator(s[a..e])
    ensures e <= DotEnd(s, a)
  {
    forall k | a <= k < e
      ensures !IsLineTerminator(s[k])
    {
      assert s[a..e][k - a] == s[k];
    }
  }

  /** The regular expression matches exactly the strings of its language. */
  lemma MatchIff(s: string)
    ensures Match(s).Some? <==> InLanguage(s)
  {
    if InLanguage(s) {
      var p :| WellFormed(p) && Render(p) == s;
      MatchFirst(p);
    }
  }

  /** A tail whose minutes cannot run on into its seconds is matched back
      exactly. */
  lemma TailExact(t: Tail)
    requires TailWellFormed(t)
    requires !(t.after.minutesMark.None? && t.after.space2.None? && t.after.seconds.Some?)
    ensures MatchTail(TailText(t)) == Some(t)
  {
    var r2 := t.minutes + AfterText(t.after);
    var r1 := [t.hoursMark] + (CharText(t.space1) + r2);
    SplitDigitsOf(t.hours, r1);
    assert r1[1..] == CharText(t.space1) + r2;
    assert r2[0] == t.minutes[0];
    OptSpaceOf(t.space1, r2);
    MinutesExact(t.minutes, t.after);
  }

  /** When no white space past the second character is followed by a tail,
      the day prefix is skipped and the whole string must be a tail. */
  lemma NoDayMatch(s: string)
    requires forall e :: 1 < e < |s| && IsSpace(s[e]) ==> MatchTail(s[e + 1..]).None?
    ensures Match(s) == if MatchTail(s).Some? then Some(Parse(None, MatchTail(s).value)) else None
  {
    TailsEverywhere(s);
    if SearchDigits(s, TailsAfter(s), |SplitDigits(s).0|).Some? {
      assert false;
    }
  }

  /** The day prefix is all of the leading digits and ends at the last white
      space that is followed by a tail, when that white space is reached
      without crossing a line terminator. */
  lemma DayMatchAt(s: string, a: nat, e: nat)
    requires a == |SplitDigits(s).0| && 1 <= a < e < |s| && IsSpace(s[e]) && NoLineTerminator(s[a..e])
    requires MatchTail(s[e + 1..]).Some?
    requires forall k :: e < k < |s| && IsSpace(s[k]) ==> MatchTail(s[k + 1..]).None?
    ensures Match(s) == Some(Parse(Some(DayPrefix(s[..a], s[a..e], s[e])), MatchTail(s[e + 1..]).value))
  {
    FoundAt(s, a, e);
    MatchWithFound(s, a, e);
  }

  lemma FoundAt(s: string, a: nat, e: nat)
    requires a == |SplitDigits(s).0| && 1 <= a < e < |s| && IsSpace(s[e]) && NoLineTerminator(s[a..e])
    requires MatchTail(s[e + 1..]).Some?
    requires forall k :: e < k < |s| && IsSpace(s[k]) ==> MatchTail(s[k + 1..]).None?
    ensures SearchDigits(s, TailsAfter(s), |SplitDigits(s).0|) == Some((a, e))
  {
    DotEndAtLeast(s, a, e);
    var a', e' := MatchFound(s, a, e);
    var found := SearchDigits(s, TailsAfter(s), |SplitDigits(s).0|);
    assert found.value.0 <= a && e' < |s| && IsSpace(s[e']) && TailsAfter(s)[e'].Some?;
    TailsAt(s, e', s[e' + 1..]);
    assert e' == e;
  }

  lemma TailsEverywhere(s: string)
    ensures forall e :: 0 <= e < |s| ==> TailsAfter(s)[e] == MatchTail(s[e + 1..])
  {
  }

  /** The milliseconds a parse stands for: `dd + hh + mm + ss` of
      jquery.countdown.js:313-318, absent days or seconds counting 0. */
  function OffsetMs(p: Parse): nat
    requires WellFormed(p)
  {
    (if p.day.Some? then Units.DToMs(p.day.value.days) else 0)
    + Units.HToMs(p.tail.hours) + Units.MToMs(p.tail.minutes)
    + (if p.tail.after.seconds.Some? then Units.SToMs(p.tail.after.seconds.value) else 0)
  }
}
