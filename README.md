# Medicine tracker due-date scheduler, in Dafny

This project models the scheduling core of the Home Assistant "medicine
tracker" integration: the `MedicineSensor` entity in
`custom_components/medicine_tracker/sensor.py`. For each medicine the sensor
holds a daily dose time, an optional list of weekday tokens (`mon` … `sun`), a
time mode and an optional time-zone sensor. It also holds a history of "taken"
instants. Each update it does four things:

- it resolves the effective time zone;
- it decides whether today's dose has been taken;
- it computes the next due time (today at the dose time, or the dose time on
  the first scheduled day after today);
- it shows that as a state text and icon: "Overdue", "Due at 8 AM",
  "Due Tomorrow", "Due Wednesday", "Unknown" or "Error".

The history grows with `mark_taken` (append, sort, keep the newest ten) and is
emptied by `reset_history`. It is restored from the stored state when the
entity is added.

Modules, one per file:

- `Wrappers` (`wrappers.dfy`): `Option`.
- `Clock` (`clock.dfy`): wall-clock date-times with Python ordinal day numbers
  and `weekday = (day + 6) % 7`, Monday 0. Also aware instants (`Stamp`: UTC
  microseconds and a zone) and `Host`, the services the sensor reads: the
  default zone, entity states, the zone database, the wall-clock view of an
  instant in a zone, the instant of a naive value in a zone, and the recurrence
  library's answer for a weekly rule with no weekday.
- `TimeText` (`time_text.dfy`): the `"%H:%M:%S"` parse of the configured time
  with its 08:00 fallback, the `"%H:%M"` attribute, and the 12-hour "Due at"
  text with a parser that reads it back.
- `ZoneResolver` (`zone.dfy`): `_get_current_timezone`.
- `Schedule` (`schedule.dfy`): `WEEKDAY_MAP`, the weekday filter, `rule.after`,
  and the next-due case split.
- `Status` (`status.dfy`): the classification, state texts and icons.
- `History` (`history.dfy`): the stable sort by instant, the ten-entry cap,
  the persisted attributes and their restore.
- `Sensor` (`sensor.dfy`): the class `MedicineSensor`. Its fields are the ones
  the source updates (`history`, `state`, `icon`, `nextDue`). Its methods
  `UpdateState`, `MarkTaken`, `ResetHistory` and `RestoreHistory` state the
  whole new state. `UpdateState` builds the weekday list with a loop, as the
  source does. It stores the results of the pure functions `Evaluate`,
  `NextDue` and `StatusOf`.

How the code behaves in cases the comments do not spell out (the model follows
the code):

- Day tokens are compared as written. Today counts as scheduled when its
  lower-case abbreviation is in the raw token list; unrecognised tokens add
  nothing to the weekday filter.
- When no token is recognised, the outcome depends on the branch, not only on
  the token list. Suppose the recurrence library finds no occurrence. If the
  dose was taken today, the result is "Unknown". If it was not, the code reads
  a field of `None` and the result is "Error". In that case `next_due` keeps its
  previous value, because the exception comes before the assignment.
- Searching forward from `now` never returns today: the rule starts at `now`,
  and its occurrences keep `now`'s time of day with the microseconds dropped.
  So today's occurrence is not later than `now`, and never strictly after it.
- The two branches of `now_in_tz > today_due` compute the same value; the
  model has one.
- The parsed dose time keeps its seconds, but only the hour and minute are used.

## Model

| member | source | states |
|---|---|---|
| `TimeText.ScheduleTimeOf` | custom_components/medicine_tracker/sensor.py:46-52 | a missing or empty time string, or one `"%H:%M:%S"` does not accept, gives 08:00:00; otherwise the parsed time |
| `TimeText.ScheduleTimeRoundTrip` | custom_components/medicine_tracker/sensor.py:46-52 | every time of day stored as `"%H:%M:%S"` is parsed back to itself at setup |
| `TimeText.ParseHMS` | custom_components/medicine_tracker/sensor.py:50 | a time is read only from three colon-separated fields of one or two digits whose values are that hour, minute and second |
| `TimeText.ParseHMSComplete` | custom_components/medicine_tracker/sensor.py:50 | three fields of one or two digits that spell a valid time of day always parse, with or without leading zeros |
| `TimeText.Field` | custom_components/medicine_tracker/sensor.py:50 | a `strptime` field is accepted exactly when it is one or two digits and a two-digit field is within the pattern's bound; its value is the number the digits spell |
| `TimeText.Number` | custom_components/medicine_tracker/sensor.py:50 | a number is read exactly from a non-empty all-digit string |
| `TimeText.TwoDigits` | custom_components/medicine_tracker/sensor.py:119 | the zero-padded two-character text reads back as its value |
| `TimeText.HourMinuteText` | custom_components/medicine_tracker/sensor.py:119 | the `schedule_time` attribute is five characters, the `"%H:%M:%S"` form without its seconds (`08:00` for 08:00:00) |
| `TimeText.StripLeadingZeros` | custom_components/medicine_tracker/sensor.py:259 | `lstrip("0")` removes a prefix made only of '0' and leaves a suffix that does not start with '0' |
| `TimeText.Hour12` | custom_components/medicine_tracker/sensor.py:259 | the `%I` hour is in 1..12 and equals the hour modulo 12 (0 and 12 give 12) |
| `TimeText.Meridiem` | custom_components/medicine_tracker/sensor.py:261 | `%p` is AM exactly before noon and PM from noon on |
| `TimeText.HourText` | custom_components/medicine_tracker/sensor.py:259 | the hour text is one or two digits, has no leading zero, and reads as the 12-hour hour |
| `TimeText.MinuteTextZero` | custom_components/medicine_tracker/sensor.py:260-263 | `%M` prints `00` exactly for minute 0 |
| `TimeText.TwelveHourShape` | custom_components/medicine_tracker/sensor.py:259-268 | minutes are omitted exactly when they are 0, and the suffix is AM exactly before noon |
| `TimeText.TwelveHourText` | custom_components/medicine_tracker/sensor.py:259-266 | the time text ends in " AM" or " PM" as `%p` gives it, and holds a colon exactly when the minutes are not zero |
| `TimeText.TwelveHourRoundTrip` | custom_components/medicine_tracker/sensor.py:259-268 | the 12-hour text reads back to the hour and minute it came from, so it loses nothing |
| `Clock.WeekdayWithinAWeek` | custom_components/medicine_tracker/sensor.py:199 | every weekday occurs within the seven days after any day |
| `Clock.Before` | custom_components/medicine_tracker/sensor.py:250 | Python's `<` on two date-times in one zone, field by field; a strict total order by `BeforeIsStrictOrder`, and the overdue test by `ClassifyCases` |
| `Clock.BeforeIsStrictOrder` | custom_components/medicine_tracker/sensor.py:250 | the order is irreflexive, transitive and total: any two distinct date-times are ordered one way only |
| `Clock.At` | custom_components/medicine_tracker/sensor.py:201-205 | `replace(hour, minute, second=0, microsecond=0)`: the given day at the dose hour and minute, seconds and microseconds zero |
| `ZoneResolver.ResolveZone` | custom_components/medicine_tracker/sensor.py:170-179 | the sensor-named zone exactly when the mode is `local_time`, a sensor is configured, its state exists and is not `unknown`, and the name is known; otherwise the default zone; never fails |
| `Schedule.WeekdayMapInverse` | custom_components/medicine_tracker/sensor.py:25-29 | `WEEKDAY_MAP` maps exactly the seven lower-case abbreviations, each to its own weekday |
| `Schedule.ParsedDays` | custom_components/medicine_tracker/sensor.py:192-196 | the parsed weekdays are no more than the tokens, and each one's abbreviation is a configured token |
| `Schedule.ParsedDaysExact` | custom_components/medicine_tracker/sensor.py:190-196 | a weekday is in the filter exactly when its token is among the configured days; other tokens add nothing |
| `Schedule.RuleOf` | custom_components/medicine_tracker/sensor.py:187-199 | the rule is daily exactly when no days are configured; a weekly rule holds exactly the weekdays whose token is configured |
| `Schedule.ScheduledToday` | custom_components/medicine_tracker/sensor.py:235-237 | today's abbreviation is among the raw tokens exactly when days are configured and the weekday filter holds today; with no days, no day passes |
| `Schedule.FirstDayFrom` | custom_components/medicine_tracker/sensor.py:199 | the result is the first day after today, within a week, whose weekday is in the filter |
| `Schedule.After` | custom_components/medicine_tracker/sensor.py:199-240 | `rule.after(now)` is the least day strictly after today on which the rule occurs (the next day when daily); an empty weekly filter is answered by the library |
| `Schedule.NextDue` | custom_components/medicine_tracker/sensor.py:201-244 | a due time is always at the dose time with seconds zeroed, and within a week of today when the weekly filter holds a weekday (or the rule is daily); no due time only when taken today; an exception only when not taken and days are configured |
| `Schedule.DueTodayWhenNotTaken` | custom_components/medicine_tracker/sensor.py:201-232 | not taken, today scheduled or every day: due today at the dose time with seconds zeroed, whether that time is ahead or past |
| `Schedule.DueLaterWhenTakenOrUnscheduled` | custom_components/medicine_tracker/sensor.py:216-244 | taken today, or today unscheduled: due at the dose time on the first scheduled day after today, within a week |
| `Schedule.DailyTakenIsTomorrow` | custom_components/medicine_tracker/sensor.py:216-224 | a daily dose taken today is due tomorrow at the dose time |
| `Schedule.NoRecognisedDay` | custom_components/medicine_tracker/sensor.py:193-244 | with no recognised token and no occurrence from the library: no due time when taken, an exception when not |
| `Status.ClassifyCases` | custom_components/medicine_tracker/sensor.py:250-275 | Overdue iff strictly before now; "Due at" the 12-hour time iff not overdue and today; "Due Tomorrow" iff the next date; "Due <weekday>" iff two or more days ahead |
| `Status.DueAtText` | custom_components/medicine_tracker/sensor.py:257-269 | the "Due at" state text is "Due at " and the 12-hour time, which reads back to the due hour and minute |
| `Status.IconPerKind` | custom_components/medicine_tracker/sensor.py:254-283 | two statuses share an icon exactly when they are of the same kind |
| `Status.Classify` | custom_components/medicine_tracker/sensor.py:248-278 | "Unknown" exactly when there is no due time; never "Error"; a due status that is not overdue is never before today |
| `Status.StatusOf` | custom_components/medicine_tracker/sensor.py:276-283 | "Error" exactly when the calculation raised; "Unknown" exactly when it found no due time |
| `Status.Label` | custom_components/medicine_tracker/sensor.py:254-283 | the state text starts with "Due " exactly for the three due statuses |
| `Status.LabelInjective` | custom_components/medicine_tracker/sensor.py:254-283 | no two statuses show the same state text |
| `Status.Icon` | custom_components/medicine_tracker/sensor.py:254-283 | every icon is an `mdi:` icon |
| `History.Insert` | custom_components/medicine_tracker/sensor.py:295 | inserting adds exactly the one entry |
| `History.InsertSorted` | custom_components/medicine_tracker/sensor.py:295 | inserting into a sorted history keeps it sorted |
| `History.SortByInstant` | custom_components/medicine_tracker/sensor.py:295 | the sort result is ascending by instant and a permutation of its input |
| `History.InsertLatest` | custom_components/medicine_tracker/sensor.py:295 | an entry no earlier than all others is placed last |
| `History.SortSortedIsIdentity` | custom_components/medicine_tracker/sensor.py:295 | sorting a sorted history changes nothing |
| `History.SortIsStable` | custom_components/medicine_tracker/sensor.py:295 | the sort is stable: the entries at any one instant keep their relative order |
| `History.Newest` | custom_components/medicine_tracker/sensor.py:296 | `h[-n:]` for a positive `n` (the source uses 10) is the last `min(n, len h)` entries |
| `History.NewestOfSorted` | custom_components/medicine_tracker/sensor.py:296 | the newest entries of a sorted list are sorted and are some of its entries |
| `History.DroppedNoLater` | custom_components/medicine_tracker/sensor.py:296 | entries cut from the front of a sorted list are no later than those kept |
| `History.RecordedKeepsNewest` | custom_components/medicine_tracker/sensor.py:294-296 | after `mark_taken`: sorted; length min(old + 1, 10); exactly one entry more while there is room, even for a duplicate instant; dropped entries are no later than kept ones |
| `History.RecordedLatestIsLast` | custom_components/medicine_tracker/sensor.py:294-296 | recording an instant no earlier than every entry makes it the last entry, which is `last_taken` |
| `History.Recorded` | custom_components/medicine_tracker/sensor.py:294-296 | the history after `mark_taken` is sorted, holds 1 to 10 entries, and holds only old entries and the new one |
| `History.Restored` | custom_components/medicine_tracker/sensor.py:146-166 | no stored state leaves the history as it is; a non-empty stored list gives exactly its parsable entries in stored order (no sort, no cap), or the history unchanged when one entry raises; otherwise a legacy `last_taken` that parses gives a one-entry history, and anything else leaves it unchanged |
| `History.Persisted` | custom_components/medicine_tracker/sensor.py:124-131 | no attributes exactly for an empty history; otherwise a `history` list whose entry `i` is the rendering of entry `i`, and `last_taken` the rendering of the last entry |
| `History.KeepParsed` | custom_components/medicine_tracker/sensor.py:152-156 | restore keeps at most as many entries as were stored |
| `History.KeepParsedConcat` | custom_components/medicine_tracker/sensor.py:152-156 | restore works entry by entry and keeps stored order (no sort, no cap) |
| `History.KeepParsedMembers` | custom_components/medicine_tracker/sensor.py:152-156 | an instant is restored exactly when some stored entry parses to it |
| `History.RenderAll` | custom_components/medicine_tracker/sensor.py:131 | the `history` attribute has one text per entry, entry `i` rendered at position `i` |
| `History.RestoreRoundTrip` | custom_components/medicine_tracker/sensor.py:124-156 | persisting a history and restoring it into a fresh sensor gives the same instants back in the same order, when the parser reads every rendered entry back as its instant |
| `History.LegacyLastTaken` | custom_components/medicine_tracker/sensor.py:159-164 | a legacy `last_taken` that parses, with no stored history, becomes a one-entry history |
| `Sensor.DoneTime` | custom_components/medicine_tracker/sensor.py:287-292 | `mark_taken` records the current instant, or the given aware instant, or the given naive value placed in the default zone |
| `Sensor.LastOf` | custom_components/medicine_tracker/sensor.py:107-111 | `last_taken` is absent exactly for an empty history, otherwise its last entry |
| `Sensor.TakenToday` | custom_components/medicine_tracker/sensor.py:209-214 | taken today exactly when `last_taken` seen in the effective zone has today's date; specified by `TakenTodayByDate` and `RecordingNowIsTakenToday` |
| `Sensor.TakenTodayByDate` | custom_components/medicine_tracker/sensor.py:209-214 | the test depends only on today's date, not on the time of `now`, and is false with no history |
| `Sensor.Evaluate` | custom_components/medicine_tracker/sensor.py:181-283 | "Error" exactly when the calculation raised; a due time is at the dose time; with a weekday in the filter (or every day) neither "Unknown" nor "Error" |
| `Sensor.RecordingNowIsTakenToday` | custom_components/medicine_tracker/sensor.py:209-214 | after marking taken at a clock reading with no later entry, that instant is `last_taken`; it counts as taken today exactly when the update's own clock reading falls on the same date in the effective zone |
| `Sensor.MarkedNowIsDueLater` | custom_components/medicine_tracker/sensor.py:209-297 | right after marking taken now, when the update reads the clock on the same date, with a weekday in the filter: "Due Tomorrow" or "Due <weekday>" |
| `Sensor.BuildRule` | custom_components/medicine_tracker/sensor.py:187-199 | the loop over the tokens builds exactly the rule the days stand for |
| `Sensor.LaterDoseNeverOverdue` | custom_components/medicine_tracker/sensor.py:216-275 | taken today or today unscheduled, with a weekday in the filter: "Due Tomorrow" or "Due <weekday>", never overdue or due today |
| `Sensor.UnknownAndErrorCauses` | custom_components/medicine_tracker/sensor.py:216-283 | "Unknown" iff taken with an empty weekly filter and no occurrence; "Error" iff not taken, today unscheduled, empty filter and no occurrence |
| `Sensor.DailyUntakenIsToday` | custom_components/medicine_tracker/sensor.py:226-232 | a daily dose not taken today is always due on today's date |
| `Sensor.MorningScenario` | tests/test_sensor.py:68-71 | daily at 08:00, not taken, at 07:00: due 08:00 today, "Due at 8 AM" |
| `Sensor.OverdueScenario` | tests/test_sensor.py:73-81 | the same dose at 08:30 is "Overdue" |
| `Sensor.PillOverdueAtNine` | tests/test_sensor.py:105-107 | a daily dose at 08:00 with an empty history is "Overdue" at 09:00 |
| `Sensor.PillDueTomorrowOnceTaken` | tests/test_sensor.py:109-119 | once marked taken earlier the same day and updated at 09:00 it is "Due Tomorrow" |
| `Sensor.TakenScenario` | tests/test_sensor.py:105-120 | daily at 08:00, at 09:00: "Overdue" with an empty history; after marking taken with no time, one history entry and "Due Tomorrow" |
| `Sensor.WednesdayScenario` | tests/test_sensor.py:124-156 | Monday 2024-01-01, days `["wed"]`: due Wednesday 2024-01-03 at 08:00, "Due Wednesday" |
| `Sensor.MedicineSensor.constructor` | custom_components/medicine_tracker/sensor.py:74-92 | a new sensor shows "Unknown" with its configured icon, no next due time and an empty history |
| `Sensor.MedicineSensor.UpdateState` | custom_components/medicine_tracker/sensor.py:181-283 | state and icon are those of `Evaluate`; next due is replaced unless the update raised; history unchanged |
| `Sensor.MedicineSensor.MarkTaken` | custom_components/medicine_tracker/sensor.py:285-298 | history becomes the recorded list: sorted, 1..10 entries, `last_taken` its last entry; then the state is updated at a second reading of the clock |
| `Sensor.MedicineSensor.ResetHistory` | custom_components/medicine_tracker/sensor.py:300-304 | history empty, no `last_taken`, state of an empty history; so a second reset changes nothing |
| `Sensor.ResetTwice` | custom_components/medicine_tracker/sensor.py:300-304 | two resets leave the same history, state, icon and next due time as one |
| `Sensor.MedicineSensor.RestoreHistory` | custom_components/medicine_tracker/sensor.py:146-168 | history becomes the restored one, then the state is updated |

## Left out

- Home Assistant plumbing is not modelled: platform setup apart from the
  time-string fallback, entity registration, `async_write_ha_state`, the
  patient-name lookup, the dosage and patient attributes, and logging.
  `config_flow.py`, the service dispatch in `__init__.py` and `const.py` are
  not part of this model either.
- `async` is modelled as ordinary sequential calls; the host runs one call at
  a time.
- Real time zones are not modelled: UTC offsets, daylight saving, and the way
  `replace` behaves on a localized value. Conversions are the `Host` fields
  `local` and `attach`. The current instant is a parameter; `mark_taken`
  reads the clock twice (once to record, once in the update), so `MarkTaken`
  takes two instants.
- `strftime` names (`%a`, `%A`, `%p`) are taken in the C locale.
- `Schedule.After`: when the weekly filter is empty, the library's answer is
  the parameter `Host.emptyWeeklyAfter`, not a fixed value.
- `TimeText.ParseHMS` accepts ASCII digits only. Python's `\d` also matches
  other Unicode decimal digits. A configured time that is not a string raises
  `TypeError`, which the source does not catch; that case is not modelled.
- `dt_util.parse_datetime` is a parameter (`string -> Parsed`); ISO-8601
  rendering is a parameter too. Every restored instant is aware. A naive
  stored value would make a later sort raise `TypeError`; that is not modelled.
- Day numbers are unbounded. Python's `date + timedelta(days=1)` overflows on
  9999-12-31 and would give "Error"; that is not modelled.
- Stored attribute values are lists of strings and strings. Other types are
  not modelled.
- Two stamps are equal here when both the instant and the zone match. Python
  compares only the instant; sorting uses only the instant, as Python does.
- `nextDue` holds the wall-clock value in the effective zone, without its zone.
