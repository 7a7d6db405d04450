/** Families of strings on which the human-readable pattern of
    jquery.countdown.js:310 is settled without search: when the tail can
    not restart after one of its own white spaces, a tail alone is matched
    with no day prefix, and a day prefix before it is matched as written.
    The exception is a white space before minutes followed by `:`: "1h 2:30"
    reads as the day "1" and the tail "2:30". */
module HumanCases {
  import opened Wrappers
  import opened Chars
  import opened HumanGrammar

  /** No white space in `s` is followed by text the tail pattern matches:
      the greedy day prefix cannot end inside `s`. */
  ghost predicate NoRestart(s: string) {
    forall e :: 0 <= e < |s| && IsSpace(s[e]) ==> MatchTail(s[e + 1..]).None?
  }

  lemma NoRestartCons(c: char, y: string)
    requires NoRestart(y) && (IsSpace(c) ==> MatchTail(y).None?)
    ensures NoRestart([c] + y)
  {
    var s := [c] + y;
    forall e | 0 <= e < |s| && IsSpace(s[e])
      ensures MatchTail(s[e + 1..]).None?
    {
      if e > 0 {
        assert s[e] == y[e - 1] && s[e + 1..] == y[e..];
      }
    }
  }

  lemma {:induction false} NoRestartDigits(ds: string, y: string)
    requires IsDigits(ds) && NoRestart(y)
    ensures NoRestart(ds + y)
    decreases |ds|
  {
    if ds == [] {
      assert ds + y == y;
    } else {
      NoRestartDigits(ds[1..], y);
      assert ds + y == [ds[0]] + (ds[1..] + y);
      NoRestartCons(ds[0], ds[1..] + y);
    }
  }

  lemma NoRestartChar(c: Option<char>, y: string)
    requires NoRestart(y) && (c.Some? && IsSpace(c.value) ==> MatchTail(y).None?)
    ensures NoRestart(CharText(c) + y)
  {
    if c.Some? {
      NoRestartCons(c.value, y);
    } else {
      assert CharText(c) + y == y;
    }
  }

  /** Digits that end the string or are followed by `s` or `.` start no
      tail. */
  lemma NoTailAfterSeconds(ds: string, r3: string)
    requires IsDigits(ds) && (r3 == [] || r3[0] == 's' || r3[0] == '.')
    ensures MatchTail(ds + r3).None?
  {
    SplitDigitsOf(ds, r3);
  }

  /** The seconds part of the text after the minutes has no white space at
      all, and none of the text after the minutes is a restart point. */
  lemma AfterNoRestart(t: After)
    requires AfterWellFormed(t)
    ensures NoRestart(AfterText(t))
  {
    var r1 := CharText(t.space2) + (SecondsText(t) + MarkAndFraction(t));
    Space2NoRestart(t);
    MinutesMarkNotSpace(t.minutesMark);
    NoRestartChar(t.minutesMark, r1);
    assert AfterText(t) == CharText(t.minutesMark) + r1;
  }

  lemma MinutesMarkNotSpace(c: Option<char>)
    requires MarkOpt(c, {'m', ':'})
    ensures c.Some? ==> !IsSpace(c.value)
  {
  }

  lemma Space2NoRestart(t: After)
    requires AfterWellFormed(t)
    ensures NoRestart(CharText(t.space2) + (SecondsText(t) + MarkAndFraction(t)))
  {
    SecondsNoRestart(t);
    SecondsStartNoTail(t);
    NoRestartChar(t.space2, SecondsText(t) + MarkAndFraction(t));
  }

  function SecondsText(t: After): string {
    if t.seconds.Some? then t.seconds.value else ""
  }

  function MarkAndFraction(t: After): string {
    CharText(t.secondsMark) + FractionText(t.fraction)
  }

  lemma MarkAndFractionStart(t: After)
    requires AfterWellFormed(t)
    ensures var r3 := MarkAndFraction(t); r3 == [] || r3[0] == 's' || r3[0] == '.'
  {
    if t.secondsMark.Some? {
      assert MarkAndFraction(t)[0] == 's';
    } else {
      assert MarkAndFraction(t) == FractionText(t.fraction);
    }
  }

  lemma SecondsNoRestart(t: After)
    requires AfterWellFormed(t)
    ensures NoRestart(SecondsText(t) + MarkAndFraction(t))
  {
    var ft := FractionText(t.fraction);
    assert NoRestart("");
    if t.fraction.Some? {
      NoRestartDigits(t.fraction.value, "");
      assert t.fraction.value + "" == t.fraction.value;
      NoRestartCons('.', t.fraction.value);
    }
    NoRestartChar(t.secondsMark, ft);
    NoRestartDigits(SecondsText(t), MarkAndFraction(t));
  }

  lemma SecondsStartNoTail(t: After)
    requires AfterWellFormed(t)
    ensures MatchTail(SecondsText(t) + MarkAndFraction(t)).None?
  {
    MarkAndFractionStart(t);
    NoTailAfterSeconds(SecondsText(t), MarkAndFraction(t));
  }

  /** The minutes and what follows them start no tail unless a `:`
      follows the minutes. */
  lemma NoTailAfterHoursSpace(minutes: string, t: After)
    requires IsNumeral(minutes) && AfterWellFormed(t) && t.minutesMark != Some(':')
    ensures MatchTail(minutes + AfterText(t)).None?
  {
    if t.minutesMark.Some? || t.space2.Some? {
      AfterStartsWithMark(t);
      SplitDigitsOf(minutes, AfterText(t));
    } else {
      MinutesRunOnNoTail(minutes, t);
    }
  }

  lemma AfterStartsWithMark(t: After)
    requires AfterWellFormed(t) && t.minutesMark != Some(':')
    requires t.minutesMark.Some? || t.space2.Some?
    ensures AfterText(t) != [] && !IsDigit(AfterText(t)[0])
    ensures AfterText(t)[0] != 'h' && AfterText(t)[0] != ':'
  {
    if t.minutesMark.Some? {
      assert AfterText(t)[0] == 'm';
    } else {
      assert AfterText(t)[0] == t.space2.value;
    }
  }

  lemma MinutesRunOnNoTail(minutes: string, t: After)
    requires IsNumeral(minutes) && AfterWellFormed(t)
    requires t.minutesMark.None? && t.space2.None?
    ensures MatchTail(minutes + AfterText(t)).None?
  {
    var r3 := MarkAndFraction(t);
    var st := SecondsText(t);
    assert minutes + AfterText(t) == (minutes + st) + r3;
    MarkAndFractionStart(t);
    NoTailAfterSeconds(minutes + st, r3);
  }

  /** The white space after the hours mark cannot start a tail: either
      there is none, or the minutes are not followed by `:`. */
  predicate NoInnerTail(t: Tail) {
    t.space1.Some? ==> t.after.minutesMark != Some(':')
  }

  /** Minutes run straight into seconds ("1230" for "12", "30"): the
      matcher gives the minutes all the digits, so such a tail is not found
      as written. */
  predicate RunOn(t: Tail) {
    t.after.minutesMark.None? && t.after.space2.None? && t.after.seconds.Some?
  }

  /** Such a tail offers the day prefix no white space to end at. */
  lemma TailNoRestart(t: Tail)
    requires TailWellFormed(t) && NoInnerTail(t)
    ensures NoRestart(TailText(t))
  {
    var x := t.minutes + AfterText(t.after);
    AfterNoRestart(t.after);
    NoRestartDigits(t.minutes, AfterText(t.after));
    if t.space1.Some? {
      NoTailAfterHoursSpace(t.minutes, t.after);
    }
    NoRestartChar(t.space1, x);
    NoRestartCons(t.hoursMark, CharText(t.space1) + x);
    NoRestartDigits(t.hours, [t.hoursMark] + (CharText(t.space1) + x));
  }

  /** Text in front of `x` leaves the white spaces of `x` no restart
      points. */
  lemma NoRestartBehind(p: string, x: string)
    requires NoRestart(x)
    ensures forall k :: |p| <= k < |p + x| && IsSpace((p + x)[k]) ==> MatchTail((p + x)[k + 1..]).None?
  {
    var s := p + x;
    forall k | |p| <= k < |s| && IsSpace(s[k])
      ensures MatchTail(s[k + 1..]).None?
    {
      assert s[k] == x[k - |p|] && s[k + 1..] == x[k - |p| + 1..];
    }
  }

  /** Such a tail on its own is matched with no day prefix, as written
      ("4h 18m 3s", "3:59:12", "24h00m59s"). */
  lemma NoDayTail(t: Tail)
    requires TailWellFormed(t) && NoInnerTail(t)
    requires !RunOn(t)
    ensures Match(TailText(t)) == Some(Parse(None, t))
  {
    TailNoRestart(t);
    NoDayMatch(TailText(t));
    TailExact(t);
  }

  /** A day prefix whose filler starts with a non-digit, before such a
      tail, is matched as written ("600 days, 3:59:12", "1d 0h 00m 59s"). */
  lemma DayThenTail(d: DayPrefix, t: Tail)
    requires DayWellFormed(d) && !IsDigit(d.filler[0])
    requires TailWellFormed(t) && NoInnerTail(t)
    requires !RunOn(t)
    ensures Match(Render(Parse(Some(d), t))) == Some(Parse(Some(d), t))
  {
    var s := Render(Parse(Some(d), t));
    var a, e := DayThenTailPieces(d, t);
    DayMatchAt(s, a, e);
  }

  lemma DayThenTailPieces(d: DayPrefix, t: Tail) returns (a: nat, e: nat)
    requires DayWellFormed(d) && !IsDigit(d.filler[0])
    requires TailWellFormed(t) && NoInnerTail(t)
    requires !RunOn(t)
    ensures var s := Render(Parse(Some(d), t));
            && a == |SplitDigits(s).0| && 1 <= a < e < |s| && IsSpace(s[e]) && NoLineTerminator(s[a..e])
            && DayPrefix(s[..a], s[a..e], s[e]) == d && MatchTail(s[e + 1..]) == Some(t)
            && forall k :: e < k < |s| && IsSpace(s[k]) ==> MatchTail(s[k + 1..]).None?
  {
    var x := TailText(t);
    var s := d.days + (d.filler + ([d.space] + x));
    a := |d.days|;
    e := a + |d.filler|;
    assert s == Render(Parse(Some(d), t));
    SplitDigitsOf(d.days, d.filler + ([d.space] + x));
    assert s[..a] == d.days && s[a..e] == d.filler && s[e] == d.space && s[e + 1..] == x;
    TailExact(t);
    TailNoRestart(t);
    Regroup(d.days, d.filler, d.space, x);
    NoRestartBehind(d.days + d.filler + [d.space], x);
  }

  lemma Regroup(a: string, b: string, c: char, x: string)
    ensures a + (b + ([c] + x)) == (a + b + [c]) + x
  {
  }

  /** The filler `.+` needs a character of its own: a single digit and a
      white space before a tail, as in "2 3:45:00", match nothing, although
      the source comment reads the group as "any character 0 or more times". */
  lemma OneDigitDayNeedsFiller(digit: char, space: char, t: Tail)
    requires IsDigit(digit) && IsSpace(space)
    requires TailWellFormed(t) && NoInnerTail(t)
    ensures Match([digit] + ([space] + TailText(t))) == None
  {
    OneDigitPieces(digit, space, t);
    NoDayMatch([digit] + ([space] + TailText(t)));
  }

  lemma OneDigitPieces(digit: char, space: char, t: Tail)
    requires IsDigit(digit) && IsSpace(space)
    requires TailWellFormed(t) && NoInnerTail(t)
    ensures var s := [digit] + ([space] + TailText(t));
            && MatchTail(s).None?
            && forall k :: 1 < k < |s| && IsSpace(s[k]) ==> MatchTail(s[k + 1..]).None?
  {
    var x := TailText(t);
    var s := [digit] + ([space] + x);
    TailNoRestart(t);
    assert s == [digit, space] + x;
    NoRestartBehind([digit, space], x);
    SplitDigitsOf([digit], [space] + x);
  }
}
