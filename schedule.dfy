/**
 * The next-due calculation of a medicine sensor: the weekday filter built
 * from the configured day tokens, the recurrence lookup "first occurrence
 * after now", and the case split between today's dose and a later one.
 */
module Schedule {
  import opened Wrappers
  import opened Clock

  /** The recognised day tokens and the weekday each stands for. */
  const WeekdayMap: map<string, DayOfWeek> :=
    map["mon" := 0, "tue" := 1, "wed" := 2, "thu" := 3, "fri" := 4, "sat" := 5, "sun" := 6]

  /** `strftime("%a").lower()` of each weekday. */
  const DayAbbrev: seq<string> := ["mon", "tue", "wed", "thu", "fri", "sat", "sun"]

  /** A medicine's schedule as the sensor holds it. */
  datatype Schedule = Schedule(time: TimeOfDay, days: seq<string>, mode: Option<string>, tzSensor: Option<string>)

  /** The recurrence rule: every day, or weekly on a set of weekdays. */
  datatype Rule = Daily | Weekly(weekdays: set<DayOfWeek>)

  /** The outcome of the next-due calculation: a due time (or none), or an exception. */
  datatype Due = Due(next: Option<DateTime>) | Raised

  lemma WeekdayMapInverse()
    ensures forall w: DayOfWeek :: DayAbbrev[w] in WeekdayMap && WeekdayMap[DayAbbrev[w]] == w
    ensures forall t :: t in WeekdayMap ==> DayAbbrev[WeekdayMap[t]] == t
  {
  }

  /** The weekdays of the recognised tokens among the first days, in order; the others add nothing. */
  function ParsedDays(days: seq<string>): (r: seq<DayOfWeek>)
    ensures |r| <= |days|
    ensures forall i :: 0 <= i < |r| ==> DayAbbrev[r[i]] in days
  {
    if |days| == 0 then []
    else
      var init, last := days[..|days| - 1], days[|days| - 1];
      WeekdayMapInverse();
      assert forall d :: d in init ==> d in days;
      ParsedDays(init) + if last in WeekdayMap then [WeekdayMap[last]] else []
  }

  /** A weekday is in the filter exactly when its token is among the configured days. */
  lemma {:induction false} ParsedDaysExact(days: seq<string>, w: DayOfWeek)
    ensures w in ParsedDays(days) <==> DayAbbrev[w] in days
  {
    WeekdayMapInverse();
    if |days| > 0 {
      ParsedDaysExact(days[..|days| - 1], w);
      assert days == days[..|days| - 1] + [days[|days| - 1]];
    }
  }

  /** Empty `days` is a daily rule; otherwise a weekly rule over the recognised tokens. */
  function RuleOf(days: seq<string>): (r: Rule)
    ensures r.Daily? <==> |days| == 0
    ensures r.Weekly? ==> forall w: DayOfWeek :: w in r.weekdays <==> DayAbbrev[w] in days
  {
    if |days| == 0 then Daily
    else
      assert forall w: DayOfWeek :: w in ParsedDays(days) <==> DayAbbrev[w] in days by {
        forall w: DayOfWeek ensures w in ParsedDays(days) <==> DayAbbrev[w] in days {
          ParsedDaysExact(days, w);
        }
      }
      Weekly(set w | w in ParsedDays(days))
  }

  predicate OccursOn(rule: Rule, day: int)
  {
    rule.Daily? || Weekday(day) in rule.weekdays
  }

  /**
   * Today is a scheduled day when its abbreviation is one of the configured
   * tokens, as written.  This raw-token test agrees with the weekday filter
   * on every day when days are configured; with no days, no day passes it.
   */
  predicate ScheduledToday(days: seq<string>, today: int)
    ensures ScheduledToday(days, today) <==> |days| > 0 && OccursOn(RuleOf(days), today)
  {
    DayAbbrev[Weekday(today)] in days
  }

  lemma SomeDayWithinAWeek(weekdays: set<DayOfWeek>, today: int)
    requires weekdays != {}
    ensures exists e :: today < e <= today + 7 && Weekday(e) in weekdays
  {
    var w :| w in weekdays;
    WeekdayWithinAWeek(today, w);
  }

  /** The first day from `today + k` on, and at most a week after `today`, whose weekday is in the set. */
  function FirstDayFrom(weekdays: set<DayOfWeek>, today: int, k: int): (d: int)
    requires 1 <= k <= 7
    requires exists e :: today + k <= e <= today + 7 && Weekday(e) in weekdays
    requires forall e :: today < e < today + k ==> Weekday(e) !in weekdays
    ensures today + k <= d <= today + 7 && Weekday(d) in weekdays
    ensures forall e :: today < e < d ==> Weekday(e) !in weekdays
    decreases 7 - k
  {
    if Weekday(today + k) in weekdays then today + k
    else FirstDayFrom(weekdays, today, k + 1)
  }

  /**
   * `rule.after(now)` for a rule that starts at `now`: the day of the first
   * occurrence strictly after `now`.  Occurrences keep the time of day of
   * the rule's start, which is `now` with its microseconds dropped, so
   * today's own occurrence is not later than `now` and never strictly after it.
   * A weekly rule with no weekday at all is answered by the host.
   */
  function After(rule: Rule, now: DateTime, host: Host): (r: Option<int>)
    ensures rule == Weekly({}) ==> r == host.emptyWeeklyAfter(now)
    ensures rule != Weekly({}) ==> r.Some? && now.day < r.value <= now.day + 7 && OccursOn(rule, r.value)
    ensures rule != Weekly({}) ==> forall e :: now.day < e < r.value ==> !OccursOn(rule, e)
  {
    match rule
    case Daily => Some(now.day + 1)
    case Weekly(weekdays) =>
      if weekdays == {} then host.emptyWeeklyAfter(now)
      else
        SomeDayWithinAWeek(weekdays, now.day);
        Some(FirstDayFrom(weekdays, now.day, 1))
  }

  /**
   * The next-due case split of `_update_state`, given the rule built from
   * `days`, whether a dose was taken today, and `now` in the effective zone.
   * Taken today: the first occurrence after now, at the dose time, or none.
   * Not taken: today at the dose time, unless days are configured and today
   * is not one of them; then the first occurrence after now, whose absence
   * is an exception (the code reads a field of None).
   */
  function NextDue(rule: Rule, s: Schedule, taken: bool, now: DateTime, host: Host): (r: Due)
    ensures r.Due? && r.next.Some? ==> r.next.value == At(r.next.value.day, s.time)
    ensures rule != Weekly({}) ==> r.Due? && r.next.Some? && now.day <= r.next.value.day <= now.day + 7
    ensures r == Due(None) ==> taken
    ensures r == Raised ==> !taken && |s.days| > 0
  {
    if taken then
      match After(rule, now, host)
      case Some(d) => Due(Some(At(d, s.time)))
      case None => Due(None)
    else if |s.days| > 0 && !ScheduledToday(s.days, now.day) then
      match After(rule, now, host)
      case Some(d) => Due(Some(At(d, s.time)))
      case None => Raised
    else Due(Some(At(now.day, s.time)))
  }

  /**
   * Not taken today, and today is scheduled (or every day is): the dose is
   * due today at the dose time, whether that time is still ahead or already past.
   */
  lemma DueTodayWhenNotTaken(s: Schedule, now: DateTime, host: Host)
    requires |s.days| == 0 || ScheduledToday(s.days, now.day)
    ensures NextDue(RuleOf(s.days), s, false, now, host) == Due(Some(At(now.day, s.time)))
  {
  }

  /**
   * Taken today, or not taken and today is not a scheduled day: when the
   * filter has a weekday, the dose is due at the dose time on the first
   * scheduled day strictly after today, within a week.
   */
  lemma DueLaterWhenTakenOrUnscheduled(s: Schedule, taken: bool, now: DateTime, host: Host)
    requires taken || (|s.days| > 0 && !ScheduledToday(s.days, now.day))
    requires RuleOf(s.days) != Weekly({})
    ensures var due := NextDue(RuleOf(s.days), s, taken, now, host);
      && due.Due? && due.next.Some?
      && due.next.value == At(due.next.value.day, s.time)
      && now.day < due.next.value.day <= now.day + 7
      && OccursOn(RuleOf(s.days), due.next.value.day)
      && forall e :: now.day < e < due.next.value.day ==> !OccursOn(RuleOf(s.days), e)
  {
  }

  /** A daily dose taken today is next due tomorrow at the dose time. */
  lemma DailyTakenIsTomorrow(s: Schedule, now: DateTime, host: Host)
    requires |s.days| == 0
    ensures NextDue(RuleOf(s.days), s, true, now, host) == Due(Some(At(now.day + 1, s.time)))
  {
  }

  /**
   * When no configured token is recognised, the filter is empty and today is
   * never a scheduled day.  If the recurrence library then finds no
   * occurrence, a dose taken today has no due time, and an untaken one raises.
   */
  lemma {:induction false} NoRecognisedDay(s: Schedule, taken: bool, now: DateTime, host: Host)
    requires |s.days| > 0
    requires forall i :: 0 <= i < |s.days| ==> s.days[i] !in WeekdayMap
    requires host.emptyWeeklyAfter(now) == None
    ensures RuleOf(s.days) == Weekly({})
    ensures NextDue(RuleOf(s.days), s, taken, now, host) == if taken then Due(None) else Raised
  {
    WeekdayMapInverse();
    forall w: DayOfWeek ensures w !in ParsedDays(s.days) {
      ParsedDaysExact(s.days, w);
    }
    assert !ScheduledToday(s.days, now.day);
  }
}
