/** What `doCountDown` shows for a remaining time and the `datetime`
    attribute `displayRemainingTime` writes (jquery.countdown.js:324-365).

    The attribute is an ISO 8601 duration in the grammar of `parseEndDate`
    (module `DurationGrammar`): read back, it stands for the remaining time
    cut down to whole seconds, or whole minutes when seconds are not shown. */
module Display {
  import opened Wrappers
  import opened Chars
  import Units
  import DurationGrammar

  /** The days, hours, minutes and seconds of a remaining time. */
  datatype Breakdown = Breakdown(dd: nat, hh: nat, mm: nat, ss: nat)

  predicate InRange(b: Breakdown) {
    b.hh < 24 && b.mm < 60 && b.ss < 60
  }

  /** The milliseconds the fields account for. */
  function Span(b: Breakdown): nat {
    b.dd * 86400000 + b.hh * 3600000 + b.mm * 60000 + b.ss * 1000
  }

  /** `msToD` … `msToS` of `ms`, all set to 0 when `ms <= 0`
      (jquery.countdown.js:324-331): the whole days, hours, minutes and
      seconds in `ms`, leaving less than a second over. */
  function Clamp(ms: int): (b: Breakdown)
    ensures InRange(b)
    ensures ms <= 0 ==> b == Breakdown(0, 0, 0, 0)
    ensures ms > 0 ==> Span(b) <= ms < Span(b) + 1000
  {
    if ms <= 0 then
      Breakdown(0, 0, 0, 0)
    else
      Units.Decompose(ms);
      Breakdown(Units.MsToD(ms), Units.MsToH(ms), Units.MsToM(ms), Units.MsToS(ms))
  }

  /** The breakdown of a positive time is the only one in range that
      accounts for it up to a second. */
  lemma ClampUnique(ms: int, b: Breakdown)
    requires ms > 0 && InRange(b) && Span(b) <= ms < Span(b) + 1000
    ensures Clamp(ms) == b
  {
    Units.RoundTripAt(ms, b.dd, b.hh, b.mm, b.ss, ms - Span(b));
  }

  /** The strings handed to `displayRemainingTime`. */
  datatype Remaining = Remaining(dd: string, hh: string, mm: string, ss: string)

  predicate Numerals(r: Remaining) {
    IsNumeral(r.dd) && IsNumeral(r.hh) && IsNumeral(r.mm) && IsNumeral(r.ss)
  }

  /** Hours, minutes and seconds zero-padded to two digits, days as
      `toString` writes them (jquery.countdown.js:333-338). Each string
      reads back as its field. */
  function Format(b: Breakdown): (r: Remaining)
    ensures Numerals(r)
    ensures Decimal(r.dd) == b.dd && Decimal(r.hh) == b.hh && Decimal(r.mm) == b.mm && Decimal(r.ss) == b.ss
    ensures r.dd[0] == '0' ==> r.dd == "0"
    ensures InRange(b) ==> |r.hh| == 2 && |r.mm| == 2 && |r.ss| == 2
  {
    Remaining(NatToString(b.dd), Pad2(b.hh), Pad2(b.mm), Pad2(b.ss))
  }

  /** Days are written as "0" exactly when there are none. */
  lemma FormatNoDays(b: Breakdown)
    ensures Format(b).dd == "0" <==> b.dd == 0
  {
    NatToStringZero(b.dd);
  }

  /** The duration the attribute spells out: days only when `dd` is not
      "0", always `T`, hours and minutes, and seconds with `with_seconds`
      (jquery.countdown.js:355-365). */
  function AttrParse(r: Remaining, withSeconds: bool): DurationGrammar.Parse {
    DurationGrammar.Parse(if r.dd != "0" then Some(r.dd) else None, true, Some(r.hh), Some(r.mm),
                          if withSeconds then Some(r.ss) else None)
  }

  /** `Array.prototype.join('')`. */
  function Join(parts: seq<string>): string {
    if parts == [] then "" else Join(parts[..|parts| - 1]) + parts[|parts| - 1]
  }

  lemma JoinPush(parts: seq<string>, x: string)
    ensures Join(parts + [x]) == Join(parts) + x
  {
    assert (parts + [x])[..|parts|] == parts;
  }

  lemma JoinPush2(parts: seq<string>, x: string, y: string)
    ensures Join(parts + [x, y]) == Join(parts) + x + y
  {
    JoinPush(parts, x);
    assert parts + [x, y] == (parts + [x]) + [y];
    JoinPush(parts + [x], y);
  }

  /** The `attr` array of `displayRemainingTime`, pushed piece by piece and
      joined: it is the duration `AttrParse(r, withSeconds)` written out,
      and when the strings are numerals the duration pattern reads exactly
      that duration back. */
  method DatetimeAttribute(r: Remaining, withSeconds: bool) returns (attr: string)
    ensures attr == DurationGrammar.Render(AttrParse(r, withSeconds))
    ensures Numerals(r) ==> DurationGrammar.Match(attr) == Some(AttrParse(r, withSeconds))
  {
    var p := AttrParse(r, withSeconds);
    var parts: seq<string> := [];
    JoinPush(parts, "P");
    parts := parts + ["P"];
    if r.dd != "0" {
      JoinPush2(parts, r.dd, "D");
      parts := parts + [r.dd, "D"];
    }
    assert Join(parts) == "P" + DurationGrammar.Component(p.days, 'D');
    JoinPush(parts, "T");
    parts := parts + ["T"];
    JoinPush2(parts, r.hh, "H");
    parts := parts + [r.hh, "H"];
    JoinPush2(parts, r.mm, "M");
    parts := parts + [r.mm, "M"];
    var beforeSeconds := Join(parts);
    assert beforeSeconds == "P" + DurationGrammar.Component(p.days, 'D') + "T" + r.hh + "H" + r.mm + "M";
    if withSeconds {
      JoinPush2(parts, r.ss, "S");
      parts := parts + [r.ss, "S"];
    }
    assert Join(parts) == beforeSeconds + DurationGrammar.Component(p.seconds, 'S');
    attr := Join(parts);
    RenderAttr(p);
    if Numerals(r) {
      assert DurationGrammar.WellFormed(p);
      DurationGrammar.MatchRender(p);
    }
  }

  /** A duration with `T`, hours and minutes, written left to right. */
  lemma RenderAttr(p: DurationGrammar.Parse)
    requires p.hasT && p.hours.Some? && p.minutes.Some?
    ensures DurationGrammar.Render(p)
            == "P" + DurationGrammar.Component(p.days, 'D') + "T" + p.hours.value + "H" + p.minutes.value + "M"
               + DurationGrammar.Component(p.seconds, 'S')
  {
  }

  /** The attribute written for a remaining time `ms` stands for `ms` cut
      down to whole seconds (whole minutes without seconds), and for 0 once
      the time is up. */
  lemma AttrOffset(ms: int, withSeconds: bool)
    ensures DurationGrammar.WellFormed(AttrParse(Format(Clamp(ms)), withSeconds))
    ensures var unit := if withSeconds then 1000 else 60000;
            DurationGrammar.OffsetMs(AttrParse(Format(Clamp(ms)), withSeconds))
            == if ms <= 0 then 0 else ms - ms % unit
  {
    var b := Clamp(ms);
    var p := AttrParse(Format(b), withSeconds);
    AttrFields(b, withSeconds);
    if ms > 0 {
      if withSeconds {
        Units.DivOf(ms, 1000, b.dd * 86400 + b.hh * 3600 + b.mm * 60 + b.ss, ms - Span(b));
      } else {
        Units.DivOf(ms, 60000, b.dd * 1440 + b.hh * 60 + b.mm, ms - Span(b) + b.ss * 1000);
      }
    }
  }

  /** The offset of the attribute of a breakdown: its span, less the
      seconds when they are not shown. */
  lemma AttrFields(b: Breakdown, withSeconds: bool)
    ensures DurationGrammar.WellFormed(AttrParse(Format(b), withSeconds))
    ensures DurationGrammar.OffsetMs(AttrParse(Format(b), withSeconds))
            == if withSeconds then Span(b) else Span(b) - b.ss * 1000
  {
    var r := Format(b);
    if r.dd == "0" {
      assert b.dd == 0;
    }
  }
}
