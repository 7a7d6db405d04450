/** The `CountDown` object (jquery.countdown.js:119-152, 323-433): `init`
    picks the end date, the step and the timer delay, and `doCountDown`
    shows the remaining time, steps it down by `delay` and, once it is no
    longer positive, triggers `time.elapsed`.

    Each display and the elapsed event are entries of `log`; the timer is
    left out, so the rescheduled calls become the iterations of a loop. */
module Countdown {
  import opened Wrappers
  import opened Chars
  import Units
  import DurationGrammar
  import Resolver
  import Display

  /** A call of `doCountDown(ms)`, which displays `Shown(ms)`, or the
      `time.elapsed` trigger. */
  datatype Event = Tick(remaining: int) | Elapsed

  /** How `init` ended: returned at once because the element has children,
      found no end date, threw while parsing one, or started the countdown. */
  datatype Status = Skipped | NoEndDate | Crashed | Started

  /** What is displayed for a remaining time. */
  function Shown(ms: int): Display.Remaining {
    Display.Format(Display.Clamp(ms))
  }

  /** The `datetime` attribute written for a display. */
  function Attribute(r: Display.Remaining, withSeconds: bool): string {
    DurationGrammar.Render(Display.AttrParse(r, withSeconds))
  }

  /** The events of `doCountDown(ms)` and of the calls it schedules. */
  function Trace(ms: int, delay: nat): seq<Event>
    requires delay > 0
    decreases if ms > 0 then ms else 0, 1
  {
    Head(ms) + Rest(ms, delay)
  }

  /** What one call of `doCountDown(ms)` logs: the display of `ms`, then
      the elapsed event once `ms` is no longer positive. */
  function Head(ms: int): seq<Event> {
    [Tick(ms)] + (if ms > 0 then [] else [Elapsed])
  }

  /** What the calls scheduled by `doCountDown(ms)` log: those for
      `ms - delay` onwards while `ms` is positive, none after. */
  function Rest(ms: int, delay: nat): seq<Event>
    requires delay > 0
    decreases if ms > 0 then ms else 0, 0
  {
    if ms > 0 then Trace(ms - delay, delay) else []
  }

  /** The number of steps down to the first value that is not positive. */
  function Steps(ms: int, delay: nat): nat
    requires delay > 0
  {
    if ms <= 0 then 0 else (ms - 1) / delay + 1
  }

  /** `Steps` is the ceiling of `ms / delay`. */
  lemma StepsCeiling(ms: int, delay: nat)
    requires delay > 0 && ms > 0
    ensures (Steps(ms, delay) - 1) * delay < ms <= Steps(ms, delay) * delay
  {
    var q := (ms - 1) / delay;
    assert ms - 1 == q * delay + (ms - 1) % delay;
    assert (q + 1) * delay == q * delay + delay;
  }

  lemma StepsOfNext(ms: int, delay: nat)
    requires delay > 0 && ms > 0
    ensures Steps(ms, delay) == Steps(ms - delay, delay) + 1
  {
    if ms - delay > 0 {
      var x := ms - delay - 1;
      Units.DivOf(ms - 1, delay, x / delay + 1, x % delay);
    } else {
      Units.DivOf(ms - 1, delay, 0, ms - 1);
    }
  }

  /** `ms0` gives `ceil(ms0 / delay) + 1` displays and the elapsed event. */
  lemma {:induction false} TraceLength(ms: int, delay: nat)
    requires delay > 0
    ensures |Trace(ms, delay)| == Steps(ms, delay) + 2
    decreases if ms > 0 then ms else 0
  {
    if ms > 0 {
      TraceLength(ms - delay, delay);
      TraceCons(ms, delay);
      StepsOfNext(ms, delay);
    }
  }

  /** Display `i` shows `ms0 - i * delay`: the clock is never read again. */
  lemma {:induction false} TraceTick(ms: int, delay: nat, i: nat)
    requires delay > 0 && i <= Steps(ms, delay)
    ensures i < |Trace(ms, delay)| && Trace(ms, delay)[i] == Tick(ms - i * delay)
    decreases i
  {
    TraceLength(ms, delay);
    if i > 0 {
      StepsOfNext(ms, delay);
      TraceTick(ms - delay, delay, i - 1);
      TraceCons(ms, delay);
    }
  }

  lemma TraceCons(ms: int, delay: nat)
    requires delay > 0 && ms > 0
    ensures Trace(ms, delay) == [Tick(ms)] + Trace(ms - delay, delay)
  {
    assert Head(ms) == [Tick(ms)];
  }

  /** What the calls still to come log. */
  function Pending(next: Option<int>, delay: nat): seq<Event>
    requires delay > 0
  {
    if next.Some? then Trace(next.value, delay) else []
  }

  /** One call appends the head of the trace of its argument, and the calls
      it schedules the rest. */
  lemma Step(before: seq<Event>, ms: int, delay: nat)
    requires delay > 0
    ensures before + Head(ms) + Rest(ms, delay) == before + Trace(ms, delay)
    ensures Rest(ms, delay) == Pending(if ms > 0 then Some(ms - delay) else None, delay)
  {
  }

  /** Once the time is up, all zeros are shown. */
  lemma ZeroShown(ms: int)
    requires ms <= 0
    ensures Shown(ms) == Display.Format(Display.Breakdown(0, 0, 0, 0))
  {
  }

  /** Every event but the last is a display, and the last is the elapsed
      event: it is triggered exactly once, after the final display. */
  lemma {:induction false} TraceEndsElapsed(ms: int, delay: nat)
    requires delay > 0
    ensures |Trace(ms, delay)| >= 2
    ensures Trace(ms, delay)[|Trace(ms, delay)| - 1] == Elapsed
    ensures forall i :: 0 <= i < |Trace(ms, delay)| - 1 ==> Trace(ms, delay)[i].Tick?
    decreases if ms > 0 then ms else 0
  {
    if ms > 0 {
      TraceEndsElapsed(ms - delay, delay);
      TraceCons(ms, delay);
    }
  }

  /** The displayed values stay positive before the last display, and the
      last one is the first value that is not: it shows all zeros. */
  lemma LastTickZero(ms: int, delay: nat)
    requires delay > 0
    ensures forall i :: 0 <= i < Steps(ms, delay) ==> ms - i * delay > 0
    ensures ms - Steps(ms, delay) * delay <= 0
    ensures Shown(ms - Steps(ms, delay) * delay) == Display.Format(Display.Breakdown(0, 0, 0, 0))
  {
    var k := Steps(ms, delay);
    if ms > 0 {
      StepsCeiling(ms, delay);
    }
    forall i | 0 <= i < k
      ensures ms - i * delay > 0
    {
      Units.MulMono(i, k - 1, delay);
    }
  }

  /** The attribute of the final display: "PT00H00M00S", or "PT00H00M"
      without seconds. */
  lemma FinalAttribute()
    ensures Attribute(Display.Format(Display.Breakdown(0, 0, 0, 0)), true) == "PT00H00M00S"
    ensures Attribute(Display.Format(Display.Breakdown(0, 0, 0, 0)), false) == "PT00H00M"
  {
    var r := ZeroFormat();
    ZeroAttribute(r);
  }

  lemma ZeroFormat() returns (r: Display.Remaining)
    ensures r == Display.Format(Display.Breakdown(0, 0, 0, 0)) && r == Display.Remaining("0", "00", "00", "00")
  {
    r := Display.Format(Display.Breakdown(0, 0, 0, 0));
    assert r.dd == "0" && r.hh == "00";
  }

  lemma ZeroAttribute(r: Display.Remaining)
    requires r == Display.Remaining("0", "00", "00", "00")
    ensures Attribute(r, true) == "PT00H00M00S" && Attribute(r, false) == "PT00H00M"
  {
  }

  /** The attribute written for `ms` is read by the duration pattern of
      `parseEndDate` as `ms` cut to whole seconds (or minutes): once
      `Date.parse` rejects it (`Resolver.DurationMeaning`), a reload ends
      that long after the new clock reading and continues the countdown. */
  lemma AttributeResumes(ms: int, withSeconds: bool)
    ensures DurationGrammar.Match(Attribute(Shown(ms), withSeconds)).Some?
    ensures DurationGrammar.OffsetMs(DurationGrammar.Match(Attribute(Shown(ms), withSeconds)).value) == Resumed(ms, withSeconds)
  {
    var str, p := AttrOf(ms, withSeconds);
    DurationGrammar.MatchRender(p);
  }

  /** `ms` cut down to whole seconds, or whole minutes without seconds, and
      0 once the time is up. */
  function Resumed(ms: int, withSeconds: bool): int {
    if ms <= 0 then 0 else if withSeconds then ms - ms % 1000 else ms - ms % 60000
  }

  /** A reload loses less than one unit of the remaining time and never
      adds any. */
  lemma ResumedBounds(ms: int, withSeconds: bool)
    requires ms > 0
    ensures var unit := if withSeconds then 1000 else 60000;
            ms - unit < Resumed(ms, withSeconds) <= ms && Resumed(ms, withSeconds) % unit == 0
  {
    if withSeconds {
      Units.DivOf(ms - ms % 1000, 1000, ms / 1000, 0);
    } else {
      Units.DivOf(ms - ms % 60000, 60000, ms / 60000, 0);
    }
  }

  /** The attribute for `ms`, and the duration it spells out. */
  lemma AttrOf(ms: int, withSeconds: bool) returns (str: string, p: DurationGrammar.Parse)
    ensures str == Attribute(Shown(ms), withSeconds)
    ensures DurationGrammar.WellFormed(p) && DurationGrammar.Render(p) == str
    ensures DurationGrammar.OffsetMs(p) == Resumed(ms, withSeconds)
  {
    p := Display.AttrParse(Shown(ms), withSeconds);
    str := DurationGrammar.Render(p);
    Display.AttrOffset(ms, withSeconds);
  }

  class CountDown {
    const withSeconds: bool
    const fastForward: bool
    var status: Status
    var endDate: Option<int>
    var delay: nat
    var setTimeoutDelay: nat
    /** The `datetime` attribute of the `<time>` element. */
    var datetime: string
    var log: seq<Event>

    /** `new CountDown(element, options)`, which runs `init`. The element
        is given by whether it has children, its `datetime` attribute and
        its text; `parseNow` is the clock while parsing, `startNow` the
        reading at jquery.countdown.js:152. */
    constructor (hasChildren: bool, attr: Option<string>, text: string, withSeconds: bool, fastForward: bool,
                 parseNow: int, startNow: int, host: Resolver.Host)
      ensures this.withSeconds == withSeconds && this.fastForward == fastForward
      ensures hasChildren ==> status == Skipped && endDate == None && log == []
      ensures !hasChildren ==> Outcome(Resolver.EndDate(attr, text, parseNow, host), startNow)
      ensures hasChildren || !Resolver.EndDate(attr, text, parseNow, host).Resolved? ==>
                datetime == "" && delay == 0 && setTimeoutDelay == 0
    {
      this.withSeconds := withSeconds;
      this.fastForward := fastForward;
      status := Skipped;
      endDate := None;
      delay := 0;
      setTimeoutDelay := 0;
      datetime := "";
      log := [];
      new;
      if !hasChildren {
        Init(attr, text, parseNow, startNow, host);
      }
    }

    /** The state `init` leaves for the end date it resolved. */
    ghost predicate Outcome(end: Resolver.Resolution, startNow: int)
      reads this
    {
      match end
      case Thrown => status == Crashed && endDate == None && log == []
      case Unresolved => status == NoEndDate && endDate == None && log == []
      case Resolved(t) =>
        && status == Started && endDate == Some(t)
        && delay == (if withSeconds then 1000 else 60000)
        && setTimeoutDelay == (if fastForward then 10 else delay)
        && log == Trace(t - startNow, delay)
        && datetime == Attribute(Display.Format(Display.Breakdown(0, 0, 0, 0)), withSeconds)
    }

    /** `init` past the check for children (jquery.countdown.js:133-152). */
    method Init(attr: Option<string>, text: string, parseNow: int, startNow: int, host: Resolver.Host)
      requires log == [] && endDate == None
      modifies this
      ensures Outcome(Resolver.EndDate(attr, text, parseNow, host), startNow)
      ensures !Resolver.EndDate(attr, text, parseNow, host).Resolved? ==>
                datetime == old(datetime) && delay == old(delay) && setTimeoutDelay == old(setTimeoutDelay)
    {
      var end := Resolver.EndDate(attr, text, parseNow, host);
      if end.Thrown? {
        status := Crashed;
      } else if end.Unresolved? {
        status := NoEndDate;
      } else {
        endDate := Some(end.instant);
        delay := if withSeconds then Units.SToMs("1") else Units.MToMs("1");
        setTimeoutDelay := if fastForward then 10 else delay;
        status := Started;
        RunCountDown(end.instant - startNow);
      }
    }

    /** `doCountDown(ms)` (jquery.countdown.js:323-347): it displays `ms`
        and returns the argument of the call it schedules, or triggers the
        elapsed event when `ms` is no longer positive. */
    method DoCountDown(ms: int) returns (next: Option<int>)
      requires delay > 0
      modifies this`log, this`datetime
      ensures next == (if ms > 0 then Some(ms - delay) else None)
      ensures log == old(log) + Head(ms)
      ensures datetime == Attribute(Shown(ms), withSeconds)
      ensures ms <= 0 ==> datetime == Attribute(Display.Format(Display.Breakdown(0, 0, 0, 0)), withSeconds)
    {
      var ss := Units.MsToS(ms);
      var mm := Units.MsToM(ms);
      var hh := Units.MsToH(ms);
      var dd := Units.MsToD(ms);
      if ms <= 0 {
        ss, mm, hh, dd := 0, 0, 0, 0;
      }
      DisplayRemainingTime(Display.Format(Display.Breakdown(dd, hh, mm, ss)));
      if ms <= 0 {
        ZeroShown(ms);
      }
      log := log + [Tick(ms)];
      if ms > 0 {
        next := Some(ms - delay);
      } else {
        next := None;
        log := log + [Elapsed];
      }
    }

    /** `doCountDown(ms0)` and every call the timer makes after it, one per
        iteration; `next` is the argument of the call still to come. */
    method RunCountDown(ms0: int)
      requires delay > 0
      modifies this`log, this`datetime
      ensures log == old(log) + Trace(ms0, delay)
      ensures datetime == Attribute(Display.Format(Display.Breakdown(0, 0, 0, 0)), withSeconds)
    {
      var next := Some(ms0);
      while next.Some?
        invariant log + Pending(next, delay) == old(log) + Trace(ms0, delay)
        invariant next.None? ==> datetime == Attribute(Display.Format(Display.Breakdown(0, 0, 0, 0)), withSeconds)
        decreases match next case Some(m) => (if m > 0 then m else 0) + 1 case None => 0
      {
        ghost var before := log;
        var ms := next.value;
        next := Call(ms);
        Step(before, ms, delay);
      }
    }

    /** One call of `doCountDown`: the one `init` makes, or one made by the
        function handed to `setTimeout` (jquery.countdown.js:342-344). Its
        contract states the attribute only once the time is up, which is
        all `RunCountDown` needs. */
    method Call(ms: int) returns (next: Option<int>)
      requires delay > 0
      modifies this`log, this`datetime
      ensures next == (if ms > 0 then Some(ms - delay) else None)
      ensures log == old(log) + Head(ms)
      ensures ms <= 0 ==> datetime == Attribute(Display.Format(Display.Breakdown(0, 0, 0, 0)), withSeconds)
    {
      next := DoCountDown(ms);
    }

    /** The `datetime` part of `displayRemainingTime` (jquery.countdown.js
        :350-365, 432). */
    method DisplayRemainingTime(r: Display.Remaining)
      modifies this`datetime
      ensures datetime == Attribute(r, withSeconds)
    {
      var attr := Display.DatetimeAttribute(r, withSeconds);
      datetime := attr;
    }
  }
}
