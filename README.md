# jquery.countdown 1.1 in Dafny

A model of the `CountDown` object of the jQuery plugin `jquery.countdown`
(kemar), with proofs about it. The object:

- picks an end date for an element in `init`. It tries the `datetime`
  attribute first and falls back on the text content.
- reads each string with `parseEndDate`, which tries four interpretations
  in a fixed order:
  - `Date.parse`;
  - an ISO 8601 duration (`P2DT20H00M10S`);
  - a global date and time with a time-zone offset
    (`2012-12-08T13:30:39+0100`);
  - a human-readable duration (`600 days, 3:59:12`, `4h 18m 3s`).
- counts the remaining time down in `doCountDown`. Each call shows the
  remaining days, hours, minutes and seconds and writes the remaining time
  into the `datetime` attribute of the `<time>` element as an ISO 8601
  duration. While time remains, it schedules the next call for
  `ms - delay`. Once time is up, it triggers `time.elapsed`.

The modules follow the parts of the object:

- **`Units`**: `sToMs` … `dToMs` and `msToS` … `msToD`. JavaScript's
  truncating `parseInt` and sign-keeping `%` are written out, so the
  negative counts the object can pass are covered too.
- **`Chars`**: digits, white space as ECMAScript's `\s` defines it,
  `parseInt` of a digit string, `toString` and the two-digit padding.
- **`DurationGrammar`, `DateTimeGrammar`, `HumanGrammar`**: the three
  regular expressions of `parseEndDate`. Each one has:
  - a parse datatype with `WellFormed` and `Render`, which together give
    the language of the expression;
  - a deterministic `Match` that performs the same search as a
    backtracking engine;
  - proofs that `Match` finds exactly the strings of the language
    (`MatchIff`);
  - where a string has several parses, a proof that `Match` returns the one
    the engine tries first (`MatchFirst`, with the order `Precedes`).
- **`HumanCases`**: families of human-readable strings whose match is
  settled without search.
- **`Resolver`**: `parseEndDate` and `init`'s choice between attribute and
  text. The host's `Date.parse` and its local-calendar assembly
  (`setTime`/`setDate`/`setMonth`/`setFullYear`) are parameters (`Host`).
  The clock is a parameter `now`.
- **`Display`**: the breakdown `doCountDown` shows and the `datetime`
  attribute `displayRemainingTime` builds.
- **`Countdown`**: the `CountDown` class. `init` sets its fields. The calls
  that `doCountDown` schedules become the iterations of a loop that appends
  to an event log, and that log is proved equal to the recursive
  specification `Trace`.
- **`DocTables`**: the example strings of the source's comments and the
  conversion examples of `test/unit/conversion.js`, worked through the
  model.

## Model

| member | source | states |
|---|---|---|
| Units.ToMsOfNumeral | jquery.countdown.js:155-173 | the numeral `toString` writes for n converts to n times 1000, 60000, 3600000 and 86400000 ms (`sToMs`, `mToMs`, `hToMs`, `dToMs`) |
| Units.FieldsOfConversion | jquery.countdown.js:155-193 | `msToD` of `dToMs(s)` is the number `s` spells, and `msToH`, `msToM`, `msToS` of `hToMs(s)`, `mToMs(s)`, `sToMs(s)` are that number modulo 24, 60 and 60 |
| Units.ConversionLeadingZeros | jquery.countdown.js:155-173 | leading zeros change none of the four conversions (`parseInt(s, 10)`) |
| Units.MsToS | jquery.countdown.js:175-178 | the seconds field is in 0..59 for a non-negative count and in -59..0 for a non-positive one |
| Units.MsToM | jquery.countdown.js:180-183 | the minutes field is in 0..59, or -59..0 for a non-positive count |
| Units.MsToH | jquery.countdown.js:185-188 | the hours field is in 0..23, or -23..0 for a non-positive count |
| Units.MsToD | jquery.countdown.js:190-193 | the days field is the number of whole days in a non-negative count, and is not positive for a non-positive one |
| Units.Decompose | jquery.countdown.js:175-193 | the four fields of a non-negative count add back up to it, less the milliseconds below a second |
| Units.ConversionRoundTrip | jquery.countdown.js:155-193 | converting in-range days, hours, minutes and seconds to ms and splitting the sum gives the same fields back |
| Units.RoundTripAt | jquery.countdown.js:175-193 | a count written as days, in-range hours, minutes, seconds and under 1000 ms has exactly those fields |
| Units.LeadingDigit | jquery.countdown.js:185-193 | `parseInt` of a quotient below 10^-6, which `toString` writes in exponent notation, reads a single digit 1..9 |
| Units.MsToDAsWrittenOvercounts | jquery.countdown.js:190-193 | as written, `msToD` of 1 to 86 ms reports at least one day, more time than there is, where the whole days are 0 |
| Units.MsToHAsWrittenOvercounts | jquery.countdown.js:185-188 | as written, `msToH` of a count 1 to 3 ms past a whole day reports at least one hour, where the hours field is 0 |
| Units.AsWrittenExamples | jquery.countdown.js:185-193 | as written, 50 ms read as 5 days, and 86400001 ms as 1 day and 2 hours instead of 1 day and 0 hours |
| Chars.SplitDigits | jquery.countdown.js:225 | the greedy `\d+` is the longest digit prefix, followed by a non-digit or nothing |
| Chars.SplitDigitsOf | jquery.countdown.js:225 | digits followed by a non-digit are the split, so the split is unique |
| Chars.DecimalLeadingZeros | jquery.countdown.js:157 | `parseInt` ignores leading zeros |
| Chars.NatToString | jquery.countdown.js:337 | `toString` is a numeral with the number's value and no leading zero; numbers under 10 and under 100 take one and two digits |
| Chars.NatToStringZero | jquery.countdown.js:337 | the rendering is "0" exactly for zero |
| Chars.Pad2 | jquery.countdown.js:334-336 | the padded field reads back as the number and has two digits below 100 |
| DurationGrammar.Designated | jquery.countdown.js:219-223 | a greedy optional `(?:(\d+)X)?` group takes a digit run and its designator, or is skipped and leaves the text unchanged |
| DurationGrammar.MatchTime | jquery.countdown.js:220-224 | the time part is matched into a well-formed parse whose text is the input |
| DurationGrammar.Match | jquery.countdown.js:225 | a match is a well-formed parse that spells out the string |
| DurationGrammar.MatchRender | jquery.countdown.js:225 | every well-formed duration is matched back to itself, so each string has one parse |
| DurationGrammar.MatchIff | jquery.countdown.js:225 | the pattern matches exactly the strings of the duration language |
| DateTimeGrammar.MatchHead | jquery.countdown.js:263-264 | year, month, day, separator, hours and minutes are found with what is left |
| DateTimeGrammar.MatchHeadRender | jquery.countdown.js:263-264 | a well-formed head is found again whatever follows it |
| DateTimeGrammar.Seconds | jquery.countdown.js:259 | the optional seconds group is taken whenever `:` and two digits follow |
| DateTimeGrammar.Fraction | jquery.countdown.js:260 | the optional fraction takes one to three digits whenever a digit follows the full stop |
| DateTimeGrammar.Zone | jquery.countdown.js:261 | the offset group is the rest of the string when it is all offset characters, absent when nothing is left, and fails otherwise |
| DateTimeGrammar.MatchTail | jquery.countdown.js:264 | a matched tail is well formed and spells out the text |
| DateTimeGrammar.TailFirst | jquery.countdown.js:264 | the tail of every string of the language is matched, as written or with seconds or more fraction digits taken first |
| DateTimeGrammar.FractionOf | jquery.countdown.js:260 | the fraction takes its own digits and as many of the following digits as fit in three |
| DateTimeGrammar.Match | jquery.countdown.js:263-264 | a match is a well-formed parse that spells out the string |
| DateTimeGrammar.MatchFirst | jquery.countdown.js:263-264 | every string of the language is matched, and the parse found is the given one or one the engine tries before it |
| DateTimeGrammar.MatchIff | jquery.countdown.js:263-264 | the pattern matches exactly the strings of the date-time language |
| DateTimeGrammar.MatchOffset | jquery.countdown.js:270 | a matched offset is well formed and spells out the string |
| DateTimeGrammar.MatchOffsetRender | jquery.countdown.js:270 | every well-formed offset is matched back to itself |
| DateTimeGrammar.ZoneOffsetMeaning | jquery.countdown.js:270-274 | the offset is hours and minutes from UTC: subtracted for `+` and added for `-` or no sign |
| DateTimeGrammar.ZoneOffsetColon | jquery.countdown.js:270 | the optional colon between hours and minutes changes nothing |
| DateTimeGrammar.ZoneOffsetOfZ | jquery.countdown.js:270-271 | `Z` does not match the offset pattern and adds 0 |
| DateTimeGrammar.ZoneOffsetOneHour | jquery.countdown.js:267 | `+01:00` and `+0100` both move the instant back one hour |
| HumanGrammar.OptSpace | jquery.countdown.js:305-306 | `\s?` takes a white space whenever one is there |
| HumanGrammar.OptMark | jquery.countdown.js:305-307 | an optional mark is taken whenever it is there |
| HumanGrammar.FractionEnd | jquery.countdown.js:308 | the optional fraction of one to three digits, then the end of the string |
| HumanGrammar.MatchAfter | jquery.countdown.js:306-308 | what follows the minutes is matched into well-formed items that spell it out |
| HumanGrammar.MatchMinutes | jquery.countdown.js:306 | the minutes are a numeral, followed by well-formed items that spell out the rest |
| HumanGrammar.MatchTail | jquery.countdown.js:305-308 | a matched tail is well formed and spells out the string |
| HumanGrammar.DotEnd | jquery.countdown.js:304 | `.+` can reach up to the first line terminator and no further |
| HumanGrammar.TailsAfter | jquery.countdown.js:304 | one tail match for each position of the string |
| HumanGrammar.SearchFiller | jquery.countdown.js:304 | the filler search stops only at a white space after the digits that is followed by a tail |
| HumanGrammar.SearchDigits | jquery.countdown.js:304 | the search for a day capture returns digits, a filler and a white space followed by a tail |
| HumanGrammar.Match | jquery.countdown.js:310 | a match is a well-formed parse that spells out the string |
| HumanGrammar.AfterRender | jquery.countdown.js:306-308 | the items after the minutes are matched back to themselves |
| HumanGrammar.MinutesFirst | jquery.countdown.js:306 | the minutes take the longest digit run |
| HumanGrammar.MinutesExact | jquery.countdown.js:306 | minutes followed by a mark, a space or no seconds are matched as written |
| HumanGrammar.MinutesRunOn | jquery.countdown.js:306-307 | minutes that run straight into seconds take the seconds' digits too |
| HumanGrammar.TailFirst | jquery.countdown.js:305-308 | every tail is matched, as written or with longer minutes |
| HumanGrammar.SearchFillerFinds | jquery.countdown.js:304 | the filler search finds a white space at least as late as any that qualifies |
| HumanGrammar.SearchDigitsFinds | jquery.countdown.js:304 | the digit search finds a capture at least as long as any that qualifies |
| HumanGrammar.MatchFirst | jquery.countdown.js:310 | every string of the language is matched, and the parse found is the given one or one the engine tries before it |
| HumanGrammar.MatchIff | jquery.countdown.js:310 | the pattern matches exactly the strings of the human-readable language |
| HumanGrammar.TailExact | jquery.countdown.js:305-308 | a tail whose minutes cannot run on into its seconds is matched as written |
| HumanGrammar.NoDayMatch | jquery.countdown.js:304-310 | with no white space that starts a tail, the day prefix is skipped and the whole string must be a tail |
| HumanGrammar.DayMatchAt | jquery.countdown.js:304-310 | the day prefix takes all leading digits and ends at the last white space that starts a tail |
| HumanCases.TailNoRestart | jquery.countdown.js:304-310 | a tail whose hours space is not followed by `m:` minutes offers the day prefix no white space to end at |
| HumanCases.NoDayTail | jquery.countdown.js:304-310 | such a tail is matched on its own, with no day prefix, as written |
| HumanCases.DayThenTail | jquery.countdown.js:304-310 | a day prefix whose filler starts with a non-digit, before such a tail, is matched as written |
| HumanCases.OneDigitDayNeedsFiller | jquery.countdown.js:304 | a single day digit and a white space before a tail match nothing, since `.+` needs a character |
| Resolver.DateParseFirst | jquery.countdown.js:204-207 | a string that `Date.parse` accepts gives that instant, whatever the patterns say |
| Resolver.DurationMeaning | jquery.countdown.js:225-233 | a duration ends its days, hours, minutes and seconds after `now` |
| Resolver.NotDuration | jquery.countdown.js:225 | a string that starts with a digit is no duration |
| Resolver.DateTimeMeaning | jquery.countdown.js:263-285 | a date-time string is resolved from its own fields and offset, or throws |
| Resolver.DateTimeIgnoresNow | jquery.countdown.js:276-285 | a date-time string's instant does not depend on the clock |
| Resolver.HumanMeaning | jquery.countdown.js:310-318 | a human-readable duration that no earlier pattern takes ends its offset after `now` |
| Resolver.ThrownIff | jquery.countdown.js:263-270 | `parseEndDate` throws exactly on a date-time string without an offset group that `Date.parse` rejects |
| Resolver.UnresolvedIff | jquery.countdown.js:204-321 | `parseEndDate` returns `undefined` exactly when `Date.parse` and all three patterns reject the string |
| Resolver.EndDateUnresolvedIff | jquery.countdown.js:133-141 | no end date exactly when the attribute is absent, empty or unresolved and the text is unresolved |
| Resolver.EndDateAttributeFirst | jquery.countdown.js:133-138 | an attribute that resolves hides the text content |
| Display.Clamp | jquery.countdown.js:324-331 | in-range fields that account for a positive time up to a second, and all zeros once the time is up |
| Display.ClampUnique | jquery.countdown.js:324-331 | the breakdown of a positive time is the only in-range one that accounts for it up to a second |
| Display.Format | jquery.countdown.js:333-338 | each string reads back as its field, hours, minutes and seconds take two digits, and days are "0" only for no days |
| Display.FormatNoDays | jquery.countdown.js:337-357 | days are written "0" exactly when there are none |
| Display.JoinPush | jquery.countdown.js:432 | joining after a push appends the pushed string |
| Display.DatetimeAttribute | jquery.countdown.js:355-365 | the joined attribute is the duration with days when not "0", `T`, hours and minutes, and seconds when shown; the duration pattern reads that duration back |
| Display.AttrOffset | jquery.countdown.js:324-365 | the attribute for a remaining time stands for it cut down to whole seconds (whole minutes without seconds), and for 0 once time is up |
| Display.AttrFields | jquery.countdown.js:355-365 | the attribute of a breakdown stands for its span, less the seconds when they are not shown |
| Countdown.StepsCeiling | jquery.countdown.js:340-344 | the number of steps is the ceiling of the remaining time over the delay |
| Countdown.StepsOfNext | jquery.countdown.js:340-344 | each rescheduled call is one step closer to the end |
| Countdown.TraceLength | jquery.countdown.js:340-347 | a countdown of `ms` makes `ceil(ms / delay) + 1` displays and one elapsed event |
| Countdown.TraceTick | jquery.countdown.js:343 | display `i` shows `ms - i * delay`: the clock is never read again |
| Countdown.TraceCons | jquery.countdown.js:340-344 | a positive time is displayed and then counted down from `ms - delay` |
| Countdown.Step | jquery.countdown.js:323-347 | one call logs the head of the trace and the calls it schedules log the rest |
| Countdown.ZeroShown | jquery.countdown.js:329-331 | once time is up, all zeros are shown |
| Countdown.TraceEndsElapsed | jquery.countdown.js:340-347 | every event but the last is a display, and the last is `time.elapsed`, triggered exactly once |
| Countdown.LastTickZero | jquery.countdown.js:329-347 | every display before the last shows a positive time, and the last shows all zeros |
| Countdown.FinalAttribute | jquery.countdown.js:355-365 | the final attribute is "PT00H00M00S", or "PT00H00M" without seconds |
| Countdown.AttributeResumes | jquery.countdown.js:225-365 | the attribute written for `ms` is read back by the duration pattern as `ms` cut to whole seconds or minutes |
| Countdown.ResumedBounds | jquery.countdown.js:225-365 | reading the attribute back loses less than one unit of the remaining time and never adds any |
| Countdown.AttrOf | jquery.countdown.js:355-365 | the attribute for `ms` spells out a well-formed duration worth the resumed time |
| Countdown.CountDown.constructor | jquery.countdown.js:119-131 | an element with children is skipped with no end date, and otherwise the state is what `init` leaves for the end date resolved from attribute and text; when no countdown starts, the attribute stays empty and the delays stay 0 |
| Countdown.CountDown.Init | jquery.countdown.js:133-152 | a throw or no end date stops `init` with the attribute and both delays unchanged; a resolved end date sets the delay (1000 or 60000 ms), the timer delay (10 in fast-forward), logs the whole countdown from `end - now` and leaves the zero attribute |
| Countdown.CountDown.DoCountDown | jquery.countdown.js:323-347 | the call displays `ms`, and either schedules `ms - delay` or, once `ms <= 0`, shows zeros and triggers the elapsed event |
| Countdown.CountDown.RunCountDown | jquery.countdown.js:340-347 | the first call and every rescheduled one log exactly `Trace(ms0, delay)` and leave the zero attribute |
| Countdown.CountDown.Call | jquery.countdown.js:342-344 | one call: its log entries, the argument of the next call, and the zero attribute once time is up |
| Countdown.CountDown.DisplayRemainingTime | jquery.countdown.js:350-432 | the `datetime` attribute becomes the duration built from the strings |
| DocTables.ToMsExamples | test/unit/conversion.js:1-27 | `sToMs`, `mToMs`, `hToMs` and `dToMs` of "0", "1" and "10" give the values the tests expect |
| DocTables.FieldExamples | test/unit/conversion.js:29-91 | a field added to 365 days is read back, and 365 days and 24 hours make 366 days |
| DocTables.DurationTenSeconds | jquery.countdown.js:214 | "PT00M10S" ends ten seconds after `now` |
| DocTables.DurationDaysAndHours | jquery.countdown.js:214 | "P2DT20H00M10S" ends two days, twenty hours and ten seconds after `now` |
| DocTables.DurationEmpty | jquery.countdown.js:225 | a bare "P" ends at `now` |
| DocTables.DateTimeCase | jquery.countdown.js:263-285 | a date-time string whose tail splits as its parse is matched as that parse and resolved from it |
| DocTables.DateTimeWithOffset | jquery.countdown.js:239-240 | "2012-12-08T13:30:39+0100" is 13:30:39 on 8 December 2012 (month index 11), one hour back |
| DocTables.DateTimeNoSeconds | jquery.countdown.js:241-242 | "2012-12-08T06:54-0800" has no seconds and is 06:54 on that day, eight hours on |
| DocTables.DateTimeUtc | jquery.countdown.js:243-244 | "2012-12-08 13:30Z" is 13:30 local on that day with no offset added |
| DocTables.DateTimeFraction | jquery.countdown.js:245-246 | "2013-12-08 06:54:39.929-10:30" drops the fraction and is ten and a half hours on |
| DocTables.DateTimeWithoutOffset | jquery.countdown.js:263-270 | "2012-12-08 13:30" is also human-readable, but the date-time pattern comes first and throws |
| DocTables.HumanCase | jquery.countdown.js:310-318 | a human-readable match that no earlier interpretation takes ends its offset after `now` |
| DocTables.HumanDaysAndClock | jquery.countdown.js:291 | "600 days, 3:59:12" captures "600", "3", "59", "12" |
| DocTables.HumanClock | jquery.countdown.js:292 | "3:59:12" captures no days and "3", "59", "12" |
| DocTables.HumanMinutesOnly | jquery.countdown.js:293 | "00:01" captures "00", "01" and no seconds, and ends one minute on |
| DocTables.HumanSecondsOnly | jquery.countdown.js:294 | "00:00:59" captures "00", "00", "59" |
| DocTables.HumanManyHours | jquery.countdown.js:295 | "240:00:59" captures "240" hours, not bounded by 24 |
| DocTables.HumanHoursMinutesSeconds | jquery.countdown.js:296 | "4h 18m 3s" captures "4", "18", "3" |
| DocTables.HumanDayLetters | jquery.countdown.js:297 | "1d 0h 00m 59s" captures "1", "0", "00", "59" |
| DocTables.HumanHoursMinutes | jquery.countdown.js:298 | "2h 0m" captures "2", "0" and no seconds |
| DocTables.HumanNoSpaces | jquery.countdown.js:299 | "24h00m59s" captures "24", "00", "59" |
| DocTables.HumanFraction | jquery.countdown.js:300 | "12:30:39.929" captures "12", "30", "39" and drops the fraction |
| DocTables.HumanOneDigitDay | jquery.countdown.js:304-310 | "2 3:45:00" matches no pattern and gives `undefined` |
| DocTables.UnresolvedCase | jquery.countdown.js:204-321 | a string that no interpretation takes gives `undefined` |
| DocTables.HumanDayWins | jquery.countdown.js:304-310 | "1h 2:30" also spells out 1h 2m 30s, but the greedy day prefix reads it as day "1" and "2:30" |

## Left out

- The DOM is not modelled: the element, its `children()`, the `<time>` element that `init` creates, the CSS class, and the HTML with labels and separators (jquery.countdown.js:142-147, 150, 367-433). Only the `datetime` attribute is kept, because it is the only output that the parser can read back.
- Plugin registration and the jQuery data store (jquery.countdown.js:439-447) are not modelled. They are host glue.
- Timers are left out. `setTimeout` and `set_timeout_delay` only decide when the next call runs. The rescheduled calls become loop iterations, and `setTimeoutDelay` is stored but drives nothing.
- The `onTimeElapsed` callback is left out. The `time.elapsed` trigger is recorded as a log event.
- `Date.parse` and the local-calendar assembly of `setDate`, `setMonth` and `setFullYear` are parameters (`Resolver.Host`). They depend on the host's time zone and date library.
- An invalid date from an out-of-range field is not modelled.
- The clock is a parameter. `parseEndDate` has one reading, `now`, for the whole call. `init` reads the clock again at jquery.countdown.js:152, so the constructor takes a second reading, `startNow`.
- `parseInt` of a non-digit string is not modelled. `SToMs` … `DToMs` require a digit string, because every caller passes a regex capture or "1".
- IEEE-754 arithmetic is not modelled. The `ms / 1000 …` chains of `msToS` … `msToD` are exact quotients truncated, which is what the code evidently intends. The exponent notation that `parseInt` misreads (see Findings) is modelled only in `Units.MsToDAsWritten` and `Units.MsToHAsWritten`. Rounding of the float quotients for very large counts is not modelled.
- Strings are sequences of UTF-16 code units, each a `char`; surrogate pairs are not told apart from other code units. `\s` is ECMAScript's white-space and line-terminator set.
- Countdown.CountDown.Call: its contract leaves out the attribute shown while time remains. `DoCountDown` states that attribute, and `Call` keeps the loop proof small.
- Countdown.CountDown.DoCountDown: the log records the remaining time `Tick(ms)`, not the strings shown. The strings are `Shown(ms)`, a function of `ms`, and the new attribute is stated in the ensures.
- Countdown.AttributeResumes: stated at the level of the duration pattern. Together with `Resolver.DurationMeaning` it gives the instant `parseEndDate` returns for the attribute.
- The QUnit tests under test/unit call a later API (`countDown('parseDuration', …)`, a `time.tick` event, the `always_show_days` option) and are not modelled as tests. Only their expected values that agree with this version are worked through:
  - test/unit/conversion.js: `DocTables.ToMsExamples` and `DocTables.FieldExamples`;
  - test/unit/parse_duration.js: `DocTables.DurationTenSeconds` and `DocTables.DurationDaysAndHours`;
  - test/unit/parse_human_readable_duration.js: "600 days, 3:59:12", "3:59:12", "00:01", "00:00:59", "4h 18m 3s", "1d 0h 00m 59s", "2h 0m" and "240:00:59" (the `DocTables.Human…` lemmas).
- That file expects "12:30:39.929" to add 929 ms. This version drops the fraction (jquery.countdown.js:310-318), and the model follows the code (`DocTables.HumanFraction`).
- The strings of test/unit/parse_date_time.js reach `Date.parse` first in this version, so their value depends on the host (`Resolver.DateParseFirst`).

Where the code and its comments differ, the model follows the code:

- `Date.parse` is tried before the three patterns (jquery.countdown.js:204-207).
- The countdown never reads the clock again. Each call subtracts `delay` (jquery.countdown.js:343), and the countdown stops once `ms <= 0`.
- The date-time fraction is matched and dropped (jquery.countdown.js:260). The date-time pattern also requires an offset group: without one, `time_array[7].match` throws (jquery.countdown.js:270, `Resolver.ThrownIff`).
- The comment at jquery.countdown.js:304 calls the day filler "any character 0 or more times", but the code's `.+` needs at least one character ("2 3:45:00", `HumanCases.OneDigitDayNeedsFiller`).
- The greedy day prefix makes "1h 2:30" one day, two hours and thirty minutes (`DocTables.HumanDayWins`).
- "12:30:39.929", which the header comment lists as a time string, is read as a human-readable duration (`DocTables.HumanFraction`).
- The comment at jquery.countdown.js:246 shows the matched text as "...-08:30". The input, and the offset capture on the same line, are "-10:30", and the model uses "-10:30".

## Findings

| source | as written | input that shows it | evidently intended | confidence | as-written member | corrected member |
|---|---|---|---|---|---|---|
| jquery.countdown.js:190-193 | `parseInt((ms / 1000 / 60 / 60 / 24), 10)` converts the quotient to a string first, and `toString` writes numbers below 10^-6 in exponent notation | ms = 50: the quotient is 5.787037037037037e-7 and `parseInt` reads 5 days. On the last tick of a countdown whose remaining time is 1 to 86 ms, the display shows days that are not there | the whole days in `ms`, here 0 | not executed | Units.MsToDAsWrittenOvercounts, Units.AsWrittenExamples | Units.MsToD |
| jquery.countdown.js:185-188 | `parseInt((ms / 1000 / 60 / 60) % 24, 10)` with the same conversion to a string | ms = 86400001: the remainder is about 2.78e-7 and `parseInt` reads 2 hours, so one day and 1 ms shows as "1 day 02:00:00" | the hours field, here 0 | not executed | Units.MsToHAsWrittenOvercounts, Units.AsWrittenExamples | Units.MsToH |
