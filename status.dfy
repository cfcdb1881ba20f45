/** The state text and icon of a medicine sensor, derived from its next due time. */
module Status {
  import opened Wrappers
  import opened Clock
  import opened TimeText
  import opened Schedule

  /** `strftime("%A")` of each weekday. */
  const DayName: seq<string> := ["Monday", "Tuesday", "Wednesday", "Thursday", "Friday", "Saturday", "Sunday"]

  /** The sensor's status; `DueAt` carries the 12-hour time text. */
  datatype Status = Overdue | DueAt(time: string) | DueTomorrow | DueOn(weekday: DayOfWeek) | Unknown | Error

  /** Maps the next due time against `now`, first match wins: overdue, today, tomorrow, a later weekday. */
  function Classify(next: Option<DateTime>, now: DateTime): (r: Status)
    ensures r.Unknown? <==> next.None?
    ensures !r.Error?
    ensures r.DueAt? || r.DueTomorrow? || r.DueOn? ==> next.value.day >= now.day
  {
    match next
    case None => Unknown
    case Some(due) =>
      if Before(due, now) then Overdue
      else if due.day == now.day then DueAt(TwelveHourText(due.hour, due.minute))
      else if due.day == now.day + 1 then DueTomorrow
      else DueOn(Weekday(due.day))
  }

  /** The whole `_update_state` outcome: an exception anywhere becomes `Error`. */
  function StatusOf(due: Due, now: DateTime): (r: Status)
    ensures r.Error? <==> due.Raised?
    ensures r.Unknown? <==> due == Due(None)
  {
    match due
    case Raised => Error
    case Due(next) => Classify(next, now)
  }

  /** The sensor's state text. */
  function Label(st: Status): (r: string)
    ensures |r| >= 5
    ensures r[..4] == "Due " <==> st.DueAt? || st.DueTomorrow? || st.DueOn?
  {
    match st
    case Overdue => assert "Overdue"[..4][0] != "Due "[0]; "Overdue"
    case DueAt(time) => assert ("Due at " + time)[..4] == "Due "; "Due at " + time
    case DueTomorrow => assert "Due Tomorrow"[..4] == "Due "; "Due Tomorrow"
    case DueOn(w) => assert ("Due " + DayName[w])[..4] == "Due "; "Due " + DayName[w]
    case Unknown => assert "Unknown"[..4][0] != "Due "[0]; "Unknown"
    case Error => assert "Error"[..4][0] != "Due "[0]; "Error"
  }

  /** The sensor's icon for each kind of status. */
  function Icon(st: Status): (r: string)
    ensures |r| > 4 && r[..4] == "mdi:"
  {
    match st
    case Overdue => "mdi:alert-circle"
    case DueAt(_) => "mdi:clock-outline"
    case DueTomorrow => "mdi:calendar-arrow-right"
    case DueOn(_) => "mdi:calendar"
    case Unknown => "mdi:help-circle"
    case Error => "mdi:alert"
  }

  /** The state text determines the status: no two statuses show the same text. */
  lemma LabelInjective(a: Status, b: Status)
    requires Label(a) == Label(b)
    ensures a == b
  {
    var l := Label(a);
    if a.DueAt? || b.DueAt? {
      assert l[4] == 'a';
    }
    if a.DueTomorrow? || b.DueTomorrow? {
      assert l[5] == 'o';
    }
    if a.DueAt? && b.DueAt? {
      assert a.time == l[7..] == b.time;
    } else if a.DueOn? && b.DueOn? {
      assert DayName[a.weekday] == l[4..] == DayName[b.weekday];
    }
  }

  /** Two statuses share an icon exactly when they are of the same kind. */
  lemma IconPerKind(a: Status, b: Status)
    ensures Icon(a) == Icon(b) <==>
      (a.Overdue? && b.Overdue?) || (a.DueAt? && b.DueAt?) || (a.DueTomorrow? && b.DueTomorrow?) ||
      (a.DueOn? && b.DueOn?) || (a.Unknown? && b.Unknown?) || (a.Error? && b.Error?)
  {
  }

  /**
   * The classification for a due time, as conditions on the due time alone:
   * overdue exactly when strictly before now (so a due time equal to now is
   * "Due at"), "Due at" the 12-hour time exactly when not overdue and on
   * today's date, "Due Tomorrow" exactly on the next date, and "Due <weekday>"
   * exactly from two days ahead.
   */
  lemma {:induction false} ClassifyCases(due: DateTime, now: DateTime)
    ensures Classify(Some(due), now) == Overdue <==> Before(due, now)
    ensures Classify(Some(due), now) == DueAt(TwelveHourText(due.hour, due.minute)) <==>
      !Before(due, now) && due.day == now.day
    ensures Classify(Some(due), now) == DueTomorrow <==> due.day == now.day + 1
    ensures Classify(Some(due), now).DueOn? <==> due.day >= now.day + 2
    ensures Classify(Some(due), now).DueOn? ==> Classify(Some(due), now).weekday == Weekday(due.day)
  {
    if !Before(due, now) {
      assert due.day >= now.day;
    }
  }

  /** The state text of a "Due at" status is "Due at" and the 12-hour time, and that time reads back. */
  lemma DueAtText(due: DateTime, now: DateTime)
    requires !Before(due, now) && due.day == now.day
    ensures Label(Classify(Some(due), now)) == "Due at " + TwelveHourText(due.hour, due.minute)
    ensures ParseTwelveHour(Classify(Some(due), now).time) == Some((due.hour, due.minute))
  {
    TwelveHourRoundTrip(due.hour, due.minute);
  }
}
