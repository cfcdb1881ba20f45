/**
 * The medicine sensor entity: its configuration, its taken-history, and the
 * state, icon and next due time it derives from them at each update.
 */
module Sensor {
  import opened Wrappers
  import opened Clock
  import opened TimeText
  import opened ZoneResolver
  import opened Schedule
  import opened Status
  import opened History

  /** What `mark_taken` is given: nothing (the current time), an aware instant, or a naive wall-clock value. */
  datatype TakenAt = Aware(stamp: Stamp) | Naive(local: DateTime)

  /**
   * The instant `mark_taken` records: the current instant in the default
   * zone, the given aware instant, or the given naive value read in the
   * default zone.
   */
  function DoneTime(custom: Option<TakenAt>, host: Host, nowUtc: int): (r: Stamp)
    ensures custom == None ==> r.utc == nowUtc
    ensures (custom == None || custom.value.Naive?) ==> r.zone == host.defaultZone
    ensures custom.Some? && custom.value.Aware? ==> r == custom.value.stamp
    ensures custom.Some? && custom.value.Naive? ==> r.utc == host.attach(custom.value.local, host.defaultZone)
  {
    match custom
    case None => Stamp(nowUtc, host.defaultZone)
    case Some(Aware(stamp)) => stamp
    case Some(Naive(local)) => Stamp(host.attach(local, host.defaultZone), host.defaultZone)
  }

  /** The `last_taken` property: the last entry of the history, in list order. */
  function LastOf(h: seq<Stamp>): (r: Option<Stamp>)
    ensures r == None <==> h == []
    ensures r.Some? ==> r.value in h && r.value == h[|h| - 1]
  {
    if |h| > 0 then Some(h[|h| - 1]) else None
  }

  /** Taken today: the last entry, seen in the effective zone, falls on today's date. */
  predicate TakenToday(last: Option<Stamp>, tz: Zone, now: DateTime, host: Host)
  {
    last.Some? && host.local(last.value.utc, tz).day == now.day
  }

  /**
   * Whether the dose was taken today depends only on today's date, not on
   * the time of day of `now`; with no history it is never taken.
   */
  lemma TakenTodayByDate(last: Option<Stamp>, tz: Zone, now: DateTime, later: DateTime, host: Host)
    requires now.day == later.day
    ensures TakenToday(last, tz, now, host) <==> TakenToday(last, tz, later, host)
    ensures !TakenToday(None, tz, now, host)
  {
  }

  /** The result of one update: the next-due outcome and the status shown. */
  datatype Evaluation = Evaluation(due: Due, status: Status)

  /** `_update_state` as a function of the schedule, the history, the host and the current instant. */
  function Evaluate(s: Schedule, history: seq<Stamp>, host: Host, nowUtc: int): (r: Evaluation)
    ensures r.status.Error? <==> r.due.Raised?
    ensures r.due.Due? && r.due.next.Some? ==> r.due.next.value == At(r.due.next.value.day, s.time)
    ensures RuleOf(s.days) != Weekly({}) ==> !r.status.Unknown? && !r.status.Error?
  {
    var tz := ResolveZone(s.mode, s.tzSensor, host);
    var now := host.local(nowUtc, tz);
    var due := NextDue(RuleOf(s.days), s, TakenToday(LastOf(history), tz, now, host), now, host);
    Evaluation(due, StatusOf(due, now))
  }

  /**
   * When the dose was taken today, or today is not a scheduled day, and the
   * filter has a weekday, the status is "Due Tomorrow" or "Due <weekday>":
   * never overdue and never due today.
   */
  lemma LaterDoseNeverOverdue(s: Schedule, taken: bool, now: DateTime, host: Host)
    requires taken || (|s.days| > 0 && !ScheduledToday(s.days, now.day))
    requires RuleOf(s.days) != Weekly({})
    ensures var st := StatusOf(NextDue(RuleOf(s.days), s, taken, now, host), now);
      st == DueTomorrow || st.DueOn?
  {
    DueLaterWhenTakenOrUnscheduled(s, taken, now, host);
    var due := NextDue(RuleOf(s.days), s, taken, now, host);
    ClassifyCases(due.next.value, now);
  }

  /**
   * "Unknown" and "Error" arise only from a weekly filter with no weekday
   * that the recurrence library answers with no occurrence: "Unknown" when
   * the dose was taken today, "Error" when it was not.
   */
  lemma UnknownAndErrorCauses(s: Schedule, taken: bool, now: DateTime, host: Host)
    ensures var st := StatusOf(NextDue(RuleOf(s.days), s, taken, now, host), now);
      && (st == Unknown <==> taken && RuleOf(s.days) == Weekly({}) && host.emptyWeeklyAfter(now) == None)
      && (st == Error <==> !taken && |s.days| > 0 && !ScheduledToday(s.days, now.day) &&
                           RuleOf(s.days) == Weekly({}) && host.emptyWeeklyAfter(now) == None)
  {
    if RuleOf(s.days) != Weekly({}) {
      if taken || (|s.days| > 0 && !ScheduledToday(s.days, now.day)) {
        LaterDoseNeverOverdue(s, taken, now, host);
      }
    }
  }

  /** Every day, not yet taken today: due on today's date, within 24 hours of the start of `now`'s day. */
  lemma DailyUntakenIsToday(s: Schedule, now: DateTime, host: Host)
    requires |s.days| == 0
    ensures var due := NextDue(RuleOf(s.days), s, false, now, host);
      due.Due? && due.next.Some? && due.next.value.day == now.day
  {
    DueTodayWhenNotTaken(s, now, host);
  }

  /** A dose at 08:00 every day, not taken, at 07:00: "Due at 8 AM", due at 08:00 today. */
  lemma MorningScenario(host: Host, day: int)
    ensures var s := Schedule(TimeOfDay(8, 0, 0), [], None, None);
      var now := DateTime(day, 7, 0, 0, 0);
      var due := NextDue(RuleOf(s.days), s, false, now, host);
      && due == Due(Some(DateTime(day, 8, 0, 0, 0)))
      && Label(StatusOf(due, now)) == "Due at 8 AM"
      && Icon(StatusOf(due, now)) == "mdi:clock-outline"
  {
    var s := Schedule(TimeOfDay(8, 0, 0), [], None, None);
    var now := DateTime(day, 7, 0, 0, 0);
    var due := NextDue(RuleOf(s.days), s, false, now, host);
    DueTodayWhenNotTaken(s, now, host);
    assert due == Due(Some(DateTime(day, 8, 0, 0, 0)));
    assert HourText(8) == "8" by {
      assert Hour12(8) == 8;
      var t := TwoDigits(8);
      assert t == "08" && t[1..] == "8";
      assert HourText(8) == StripLeadingZeros(t);
      assert StripLeadingZeros(t) == StripLeadingZeros(t[1..]);
      assert StripLeadingZeros("8") == "8";
    }
    assert TwelveHourText(8, 0) == "8 AM" by {
      TwelveHourShape(8, 0);
      assert Meridiem(8) == "AM";
    }
    assert StatusOf(due, now) == DueAt("8 AM");
  }

  /** The same dose at 08:30: "Overdue". */
  lemma OverdueScenario(host: Host, day: int)
    ensures var s := Schedule(TimeOfDay(8, 0, 0), [], None, None);
      var now := DateTime(day, 8, 30, 0, 0);
      Label(StatusOf(NextDue(RuleOf(s.days), s, false, now, host), now)) == "Overdue"
  {
  }

  /**
   * Marking a dose with no given time, when no entry is later than that
   * reading of the clock, makes it `last_taken`.  The update that follows
   * reads the clock again, and the dose counts as taken today exactly when
   * both readings fall on the same date in the zone the schedule resolves to.
   */
  lemma RecordingNowIsTakenToday(h: seq<Stamp>, s: Schedule, host: Host, doneUtc: int, updateUtc: int)
    requires forall i :: 0 <= i < |h| ==> h[i].utc <= doneUtc
    ensures var done := DoneTime(None, host, doneUtc);
      var tz := ResolveZone(s.mode, s.tzSensor, host);
      && LastOf(Recorded(h, done)) == Some(done)
      && (TakenToday(LastOf(Recorded(h, done)), tz, host.local(updateUtc, tz), host) <==>
          host.local(doneUtc, tz).day == host.local(updateUtc, tz).day)
  {
    RecordedLatestIsLast(h, DoneTime(None, host, doneUtc));
  }

  /**
   * Right after such a marking, when the update reads the clock on the same
   * date, with a weekday in the filter (or every day), the dose is never
   * overdue and never due today.
   */
  lemma MarkedNowIsDueLater(h: seq<Stamp>, s: Schedule, host: Host, doneUtc: int, updateUtc: int)
    requires forall i :: 0 <= i < |h| ==> h[i].utc <= doneUtc
    requires var tz := ResolveZone(s.mode, s.tzSensor, host);
      host.local(doneUtc, tz).day == host.local(updateUtc, tz).day
    requires RuleOf(s.days) != Weekly({})
    ensures var st := Evaluate(s, Recorded(h, DoneTime(None, host, doneUtc)), host, updateUtc).status;
      st == DueTomorrow || st.DueOn?
  {
    RecordingNowIsTakenToday(h, s, host, doneUtc, updateUtc);
    var tz := ResolveZone(s.mode, s.tzSensor, host);
    LaterDoseNeverOverdue(s, true, host.local(updateUtc, tz), host);
  }

  /** The schedule of the mark-taken scenario: a daily dose at 08:00 in home-time mode. */
  const PillSchedule := Schedule(TimeOfDay(8, 0, 0), [], Some("home_time"), None)

  lemma PillOverdueAtNine(host: Host, nowUtc: int, day: int)
    requires host.local(nowUtc, host.defaultZone) == DateTime(day, 9, 0, 0, 0)
    ensures Evaluate(PillSchedule, [], host, nowUtc).status == Overdue
    ensures Label(Evaluate(PillSchedule, [], host, nowUtc).status) == "Overdue"
  {
    var s, now := PillSchedule, DateTime(day, 9, 0, 0, 0);
    assert ResolveZone(s.mode, s.tzSensor, host) == host.defaultZone;
    DueTodayWhenNotTaken(s, now, host);
    assert !TakenToday(LastOf([]), host.defaultZone, now, host);
    var e := Evaluate(s, [], host, nowUtc);
    assert e.due == Due(Some(At(day, s.time)));
    assert e.status == Overdue;
    assert Label(e.status) == "Overdue";
  }

  lemma PillDueTomorrowOnceTaken(h: seq<Stamp>, host: Host, doneUtc: int, updateUtc: int, day: int)
    requires forall i :: 0 <= i < |h| ==> h[i].utc <= doneUtc
    requires host.local(doneUtc, host.defaultZone).day == day
    requires host.local(updateUtc, host.defaultZone) == DateTime(day, 9, 0, 0, 0)
    ensures Evaluate(PillSchedule, Recorded(h, DoneTime(None, host, doneUtc)), host, updateUtc).status == DueTomorrow
    ensures Label(Evaluate(PillSchedule, Recorded(h, DoneTime(None, host, doneUtc)), host, updateUtc).status) == "Due Tomorrow"
  {
    var s, now := PillSchedule, DateTime(day, 9, 0, 0, 0);
    var r := Recorded(h, DoneTime(None, host, doneUtc));
    assert ResolveZone(s.mode, s.tzSensor, host) == host.defaultZone;
    RecordingNowIsTakenToday(h, s, host, doneUtc, updateUtc);
    assert TakenToday(LastOf(r), host.defaultZone, now, host);
    DailyTakenIsTomorrow(s, now, host);
    var e := Evaluate(s, r, host, updateUtc);
    assert e.due == Due(Some(At(day + 1, s.time)));
    assert e.status == DueTomorrow;
    assert Label(e.status) == "Due Tomorrow";
  }

  /**
   * A daily dose at 08:00 in home-time mode, at 09:00: "Overdue" with an
   * empty history; once marked taken, one history entry and "Due Tomorrow".
   * The clock is fixed, so the marking and the update read the same instant.
   * The empty history is a parameter rather than the literal `[]`: with the
   * literal, the solver unfolds the sort and the proof is unstable across seeds.
   */
  lemma TakenScenario(empty: seq<Stamp>, host: Host, nowUtc: int, day: int)
    requires |empty| == 0
    requires host.local(nowUtc, host.defaultZone) == DateTime(day, 9, 0, 0, 0)
    ensures var h := Recorded(empty, DoneTime(None, host, nowUtc));
      && Label(Evaluate(PillSchedule, empty, host, nowUtc).status) == "Overdue"
      && |h| == 1
      && Label(Evaluate(PillSchedule, h, host, nowUtc).status) == "Due Tomorrow"
  {
    assert empty == [];
    RecordedKeepsNewest(empty, DoneTime(None, host, nowUtc));
    PillOverdueAtNine(host, nowUtc, day);
    PillDueTomorrowOnceTaken(empty, host, nowUtc, nowUtc, day);
  }

  /** Monday 2024-01-01 at 07:00, a dose only on Wednesdays: due Wednesday 2024-01-03, "Due Wednesday". */
  lemma WednesdayScenario(host: Host)
    ensures var s := Schedule(TimeOfDay(8, 0, 0), ["wed"], None, None);
      var now := DateTime(738886, 7, 0, 0, 0);
      var due := NextDue(RuleOf(s.days), s, false, now, host);
      && Weekday(now.day) == 0
      && due == Due(Some(DateTime(738888, 8, 0, 0, 0)))
      && Weekday(due.next.value.day) == 2
      && Label(StatusOf(due, now)) == "Due Wednesday"
  {
    assert RuleOf(["wed"]) == Weekly({2}) by {
      assert ParsedDays(["wed"]) == [2] by {
        assert ["wed"][..0] == [];
      }
    }
    assert !ScheduledToday(["wed"], 738886);
  }

  /**
   * The recurrence rule `_update_state` builds: every day when no days are
   * configured, otherwise weekly on the weekdays of the recognised tokens,
   * collected one token at a time.
   */
  method BuildRule(days: seq<string>) returns (rule: Rule)
    ensures rule == RuleOf(days)
  {
    rule := Daily;
    if |days| > 0 {
      var parsed: seq<DayOfWeek> := [];
      var i := 0;
      while i < |days|
        invariant 0 <= i <= |days|
        invariant parsed == ParsedDays(days[..i])
      {
        var d := days[i];
        assert days[..i + 1][..i] == days[..i];
        assert ParsedDays(days[..i + 1]) ==
          ParsedDays(days[..i]) + if d in WeekdayMap then [WeekdayMap[d]] else [];
        if d in WeekdayMap {
          parsed := parsed + [WeekdayMap[d]];
        }
        i := i + 1;
      }
      assert days[..i] == days;
      rule := Weekly(set w | w in parsed);
    }
  }

  class MedicineSensor {
    const name: string
    const iconDefault: string
    const schedule: Schedule
    var icon: string
    var state: string
    var nextDue: Option<DateTime>
    var history: seq<Stamp>

    /** A new sensor shows "Unknown" with its configured icon and has no history. */
    constructor (name: string, icon: string, schedule: Schedule)
      ensures this.name == name && iconDefault == icon && this.schedule == schedule
      ensures this.icon == icon && state == "Unknown" && nextDue == None && history == []
    {
      this.name := name;
      iconDefault := icon;
      this.schedule := schedule;
      this.icon := icon;
      state := "Unknown";
      nextDue := None;
      history := [];
    }

    function LastTaken(): Option<Stamp>
      reads this
    {
      LastOf(history)
    }

    /** The `schedule_time` attribute. */
    function ScheduleTimeAttribute(): string
    {
      HourMinuteText(schedule.time)
    }

    /**
     * Recomputes the state, icon and next due time.  On an exception the
     * state is "Error" and the next due time keeps its previous value.
     */
    method UpdateState(host: Host, nowUtc: int)
      modifies this
      ensures history == old(history)
      ensures var e := Evaluate(schedule, history, host, nowUtc);
        && state == Label(e.status) && icon == Icon(e.status)
        && nextDue == (if e.due.Due? then e.due.next else old(nextDue))
    {
      var tz := ResolveZone(schedule.mode, schedule.tzSensor, host);
      var now := host.local(nowUtc, tz);
      var rule := BuildRule(schedule.days);
      var due := NextDue(rule, schedule, TakenToday(LastTaken(), tz, now, host), now, host);
      if due.Due? {
        nextDue := due.next;
      }
      var status := StatusOf(due, now);
      state := Label(status);
      icon := Icon(status);
    }

    /**
     * Records a dose: appends the instant, sorts, keeps the newest ten and
     * updates.  The history is then sorted with at most ten entries, and
     * `last_taken` is its newest entry.  The clock is read twice: `nowUtc`
     * when no instant is given, `updateUtc` by the update that follows.
     */
    method MarkTaken(custom: Option<TakenAt>, host: Host, nowUtc: int, updateUtc: int)
      modifies this
      ensures history == Recorded(old(history), DoneTime(custom, host, nowUtc))
      ensures SortedByInstant(history) && 0 < |history| <= HistoryCap
      ensures LastTaken() == Some(history[|history| - 1])
      ensures var e := Evaluate(schedule, history, host, updateUtc);
        && state == Label(e.status) && icon == Icon(e.status)
        && nextDue == (if e.due.Due? then e.due.next else old(nextDue))
    {
      var done := DoneTime(custom, host, nowUtc);
      history := history + [done];
      history := SortByInstant(history);
      history := Newest(history, HistoryCap);
      assert history == Recorded(old(history), done);
      UpdateState(host, updateUtc);
    }

    /** Clears the history and updates; doing it again changes nothing further. */
    method ResetHistory(host: Host, nowUtc: int)
      modifies this
      ensures history == [] && LastTaken() == None
      ensures var e := Evaluate(schedule, [], host, nowUtc);
        && state == Label(e.status) && icon == Icon(e.status)
        && nextDue == (if e.due.Due? then e.due.next else old(nextDue))
    {
      history := [];
      UpdateState(host, nowUtc);
    }

    /** Restores the history from the last stored state, then updates. */
    method RestoreHistory(stored: Option<Stored>, parse: string -> Parsed, host: Host, nowUtc: int)
      modifies this
      ensures history == Restored(old(history), stored, parse)
      ensures var e := Evaluate(schedule, history, host, nowUtc);
        && state == Label(e.status) && icon == Icon(e.status)
        && nextDue == (if e.due.Due? then e.due.next else old(nextDue))
    {
      history := Restored(history, stored, parse);
      UpdateState(host, nowUtc);
    }
  }

  /** Resetting twice leaves the same history, state, icon and next due time as resetting once. */
  method ResetTwice(sensor: MedicineSensor, host: Host, nowUtc: int)
    modifies sensor
    ensures sensor.history == []
    ensures var e := Evaluate(sensor.schedule, [], host, nowUtc);
      && sensor.state == Label(e.status) && sensor.icon == Icon(e.status)
      && sensor.nextDue == (if e.due.Due? then e.due.next else old(sensor.nextDue))
  {
    sensor.ResetHistory(host, nowUtc);
    sensor.ResetHistory(host, nowUtc);
  }
}
