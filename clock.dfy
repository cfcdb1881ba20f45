/**
 * Calendar values as the scheduler sees them, and the host services
 * (time zones, clock conversions, entity states) it reads but does not own.
 *
 * A local date-time is a day number plus the wall-clock fields.  Day numbers
 * are proleptic Gregorian ordinals, as Python's `date.toordinal()` gives them:
 * day 1 is 0001-01-01, a Monday.
 */
module Clock {
  import opened Wrappers

  type Hour = h: int | 0 <= h < 24
  type Minute = m: int | 0 <= m < 60
  type Second = s: int | 0 <= s < 60
  type Micro = u: int | 0 <= u < 1000000
  /** A weekday number: Monday is 0, Sunday is 6, as in Python's `date.weekday()`. */
  type DayOfWeek = w: int | 0 <= w < 7

  /** A wall-clock date-time in one zone. */
  datatype DateTime = DateTime(day: int, hour: Hour, minute: Minute, second: Second, micro: Micro)

  /** A `datetime.time` value. */
  datatype TimeOfDay = TimeOfDay(hour: Hour, minute: Minute, second: Second)

  /** A time zone, known by its identifier. */
  datatype Zone = Zone(name: string)

  /** A timezone-aware instant: microseconds since the epoch (UTC) and the zone it carries. */
  datatype Stamp = Stamp(utc: int, zone: Zone)

  /**
   * The services the sensor reads from its surroundings:
   *  - `defaultZone`: the host's configured time zone;
   *  - `stateOf`: the state string of an entity, or None when there is no such entity;
   *  - `zoneNamed`: the zone database lookup, None for an unknown identifier;
   *  - `local`: the wall-clock view of an instant in a zone (`astimezone`, `now(time_zone=...)`);
   *  - `attach`: the instant that a naive wall-clock value denotes once given a zone;
   *  - `emptyWeeklyAfter`: what the recurrence library answers for a weekly rule
   *    whose weekday list is empty, asked for the first occurrence after `now`.
   *    Its behaviour is not part of this model, so it stays a parameter.
   */
  datatype Host = Host(
    defaultZone: Zone,
    stateOf: string -> Option<string>,
    zoneNamed: string -> Option<Zone>,
    local: (int, Zone) -> DateTime,
    attach: (DateTime, Zone) -> int,
    emptyWeeklyAfter: DateTime -> Option<int>)

  function Weekday(day: int): (w: DayOfWeek)
  {
    (day + 6) % 7
  }

  /** Python's ordering of two date-times that carry the same zone: the wall-clock fields, in order. */
  predicate Before(a: DateTime, b: DateTime)
  {
    a.day < b.day || (a.day == b.day &&
    (a.hour < b.hour || (a.hour == b.hour &&
    (a.minute < b.minute || (a.minute == b.minute &&
    (a.second < b.second || (a.second == b.second && a.micro < b.micro)))))))
  }

  /** `Before` is a strict total order: irreflexive, transitive, and any two distinct date-times are ordered. */
  lemma BeforeIsStrictOrder(a: DateTime, b: DateTime, c: DateTime)
    ensures !Before(a, a)
    ensures Before(a, b) && Before(b, c) ==> Before(a, c)
    ensures a == b || Before(a, b) || Before(b, a)
    ensures !(Before(a, b) && Before(b, a))
  {
  }

  /** Day `day` at the hour and minute of `t`, with seconds and microseconds zeroed. */
  function At(day: int, t: TimeOfDay): (r: DateTime)
    ensures r.day == day && r.hour == t.hour && r.minute == t.minute
    ensures r.second == 0 && r.micro == 0
  {
    DateTime(day, t.hour, t.minute, 0, 0)
  }

  /** Every weekday occurs once within the seven days that follow `today`. */
  lemma {:induction false} WeekdayWithinAWeek(today: int, w: DayOfWeek)
    ensures exists e :: today < e <= today + 7 && Weekday(e) == w
  {
    var j := (Weekday(today) - w) % 7;
    var e := today + 7 - j;
    assert Weekday(today) - j == w + 7 * ((Weekday(today) - w) / 7);
    assert (today + 6) % 7 == Weekday(today);
    calc {
      Weekday(e);
      (today + 6 + 7 - j) % 7;
      { assert today + 6 == 7 * ((today + 6) / 7) + Weekday(today); }
      (Weekday(today) - j + 7 + 7 * ((today + 6) / 7)) % 7;
      (w + 7 * ((Weekday(today) - w) / 7 + 1 + (today + 6) / 7)) % 7;
      w;
    }
    assert today < e <= today + 7 && Weekday(e) == w;
  }
}
