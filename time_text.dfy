/**
 * Text forms of times of day: the `"%H:%M:%S"` parse of the configured dose
 * time (with its fallback to 08:00), the `"%H:%M"` attribute, and the
 * 12-hour "8 AM" / "8:30 PM" text of the "Due at" state.
 */
module TimeText {
  import opened Wrappers
  import opened Clock

  predicate IsDigit(c: char)
  {
    '0' <= c <= '9'
  }

  function DigitChar(n: int): (c: char)
    requires 0 <= n < 10
    ensures IsDigit(c) && DigitValue(c) == n
  {
    ('0' as int + n) as char
  }

  function DigitValue(c: char): int
    requires IsDigit(c)
  {
    c as int - '0' as int
  }

  /** The value of a non-empty string of decimal digits; None if any character is not a digit. */
  function Number(s: string): (r: Option<nat>)
    ensures r.Some? <==> |s| > 0 && forall i :: 0 <= i < |s| ==> IsDigit(s[i])
  {
    if |s| == 0 || !IsDigit(s[|s| - 1]) then None
    else if |s| == 1 then Some(DigitValue(s[0]))
    else match Number(s[..|s| - 1])
      case None => None
      case Some(n) => Some(10 * n + DigitValue(s[|s| - 1]))
  }

  /** Zero-padded two-digit text, as `%H`, `%M`, `%S` and `%I` print. */
  function TwoDigits(n: int): (s: string)
    requires 0 <= n < 100
    ensures |s| == 2 && Number(s) == Some(n)
  {
    [DigitChar(n / 10), DigitChar(n % 10)]
  }

  /** Splits a string at every ':'. */
  function SplitColons(s: string): (parts: seq<string>)
    ensures |parts| >= 1
  {
    if |s| == 0 then [""]
    else
      var rest := SplitColons(s[1..]);
      if s[0] == ':' then [""] + rest else [[s[0]] + rest[0]] + rest[1..]
  }

  /**
   * One numeric field of `strptime`: one digit, or two digits whose value is
   * at most `bound` (the two-digit alternatives of the `%H`, `%M` and `%S`
   * patterns accept 00-23, 00-59 and 00-61).
   */
  function Field(s: string, bound: nat): (r: Option<nat>)
    ensures r.Some? ==> 1 <= |s| <= 2 && Number(s) == r
    ensures r.Some? && |s| == 2 ==> r.value <= bound
    ensures 1 <= |s| <= 2 && Number(s).Some? && (|s| == 2 ==> Number(s).value <= bound) ==> r == Number(s)
  {
    if |s| == 1 || |s| == 2 then
      match Number(s)
      case None => None
      case Some(n) => if |s| == 2 && n > bound then None else Some(n)
    else None
  }

  /**
   * The time that `strptime` with format `"%H:%M:%S"` reads from `s`; None
   * where it raises ValueError (no match, or a leap second 60/61 that
   * `datetime` refuses).
   */
  function ParseHMS(s: string): (r: Option<TimeOfDay>)
    ensures r.Some? ==> var p := SplitColons(s);
      && |p| == 3 && 1 <= |p[0]| <= 2 && 1 <= |p[1]| <= 2 && 1 <= |p[2]| <= 2
      && Number(p[0]) == Some(r.value.hour)
      && Number(p[1]) == Some(r.value.minute)
      && Number(p[2]) == Some(r.value.second)
  {
    var parts := SplitColons(s);
    if |parts| != 3 then None
    else match (Field(parts[0], 23), Field(parts[1], 59), Field(parts[2], 61))
      case (Some(h), Some(m), Some(sec)) =>
        if h < 24 && m < 60 && sec < 60 then Some(TimeOfDay(h, m, sec)) else None
      case _ => None
  }

  /**
   * Conversely, three colon-free fields of one or two digits whose values
   * are a valid time of day always parse, with or without leading zeros.
   */
  lemma ParseHMSComplete(a: string, b: string, c: string, t: TimeOfDay)
    requires forall i :: 0 <= i < |a| ==> a[i] != ':'
    requires forall i :: 0 <= i < |b| ==> b[i] != ':'
    requires forall i :: 0 <= i < |c| ==> c[i] != ':'
    requires 1 <= |a| <= 2 && 1 <= |b| <= 2 && 1 <= |c| <= 2
    requires Number(a) == Some(t.hour) && Number(b) == Some(t.minute) && Number(c) == Some(t.second)
    ensures ParseHMS(a + ":" + b + ":" + c) == Some(t)
  {
    SplitAtColon(a, b + ":" + c);
    SplitAtColon(b, c);
    SplitNoColon(c);
    assert a + ":" + b + ":" + c == a + ":" + (b + ":" + c);
    assert SplitColons(a + ":" + b + ":" + c) == [a, b, c];
  }

  /** The dose time used when the configured one is missing or does not parse. */
  const DefaultDoseTime := TimeOfDay(8, 0, 0)

  /**
   * The dose time built at platform setup from the configured string:
   * a missing or empty string, or one that does not parse, gives 08:00.
   */
  function ScheduleTimeOf(raw: Option<string>): (t: TimeOfDay)
    ensures raw == None || raw == Some("") ==> t == DefaultDoseTime
    ensures raw.Some? && ParseHMS(raw.value).None? ==> t == DefaultDoseTime
    ensures raw.Some? && ParseHMS(raw.value).Some? ==> t == ParseHMS(raw.value).value
  {
    if raw.Some? && raw.value != "" then
      match ParseHMS(raw.value)
      case Some(t) => t
      case None => DefaultDoseTime
    else DefaultDoseTime
  }

  /** `t.strftime("%H:%M:%S")`: the form in which the configuration stores the time. */
  function HMSText(t: TimeOfDay): string
  {
    TwoDigits(t.hour) + ":" + TwoDigits(t.minute) + ":" + TwoDigits(t.second)
  }

  /** `t.strftime("%H:%M")`: the `schedule_time` attribute. */
  function HourMinuteText(t: TimeOfDay): (s: string)
    ensures |s| == 5 && s == HMSText(t)[..5]
  {
    TwoDigits(t.hour) + ":" + TwoDigits(t.minute)
  }

  lemma {:induction false} SplitAtColon(a: string, b: string)
    requires forall i :: 0 <= i < |a| ==> a[i] != ':'
    ensures SplitColons(a + ":" + b) == [a] + SplitColons(b)
  {
    if |a| == 0 {
      assert (a + ":" + b)[1..] == b;
    } else {
      assert (a + ":" + b)[1..] == a[1..] + ":" + b;
      SplitAtColon(a[1..], b);
      assert [a[0]] + a[1..] == a;
    }
  }

  lemma {:induction false} SplitNoColon(a: string)
    requires forall i :: 0 <= i < |a| ==> a[i] != ':'
    ensures SplitColons(a) == [a]
  {
    if |a| > 0 {
      SplitNoColon(a[1..]);
      assert [a[0]] + a[1..] == a;
    }
  }

  /** Every time of day survives being stored as `"%H:%M:%S"` and parsed back at setup. */
  lemma ScheduleTimeRoundTrip(t: TimeOfDay)
    ensures ScheduleTimeOf(Some(HMSText(t))) == t
  {
    var h, m, s := TwoDigits(t.hour), TwoDigits(t.minute), TwoDigits(t.second);
    SplitAtColon(h, m + ":" + s);
    SplitAtColon(m, s);
    SplitNoColon(s);
    assert h + ":" + m + ":" + s == h + ":" + (m + ":" + s);
    assert SplitColons(HMSText(t)) == [h, m, s];
  }

  /** `"%I".lstrip("0")`: drops every leading '0'. */
  function StripLeadingZeros(s: string): (r: string)
    ensures |r| <= |s| && r == s[|s| - |r|..]
    ensures |r| > 0 ==> r[0] != '0'
    ensures forall i :: 0 <= i < |s| - |r| ==> s[i] == '0'
  {
    if |s| > 0 && s[0] == '0' then StripLeadingZeros(s[1..]) else s
  }

  /** The hour on a 12-hour clock, as `%I` numbers it: 0 and 12 are both 12. */
  function Hour12(h: Hour): (r: int)
    ensures 1 <= r <= 12 && r % 12 == h % 12
  {
    if h % 12 == 0 then 12 else h % 12
  }

  /** The `%p` suffix. */
  function Meridiem(h: Hour): (r: string)
    ensures |r| == 2 && r[1] == 'M' && (r[0] == 'A' <==> h < 12) && (r[0] == 'P' <==> h >= 12)
  {
    if h < 12 then "AM" else "PM"
  }

  /** `strftime("%I").lstrip("0")`: the 12-hour hour without its leading zero. */
  function HourText(h: Hour): (r: string)
    ensures 1 <= |r| <= 2 && r[0] != '0' && Number(r) == Some(Hour12(h))
  {
    StrippedHour(Hour12(h));
    StripLeadingZeros(TwoDigits(Hour12(h)))
  }

  /** A 12-hour hour printed with two digits and stripped of its leading zero still reads as that hour. */
  lemma StrippedHour(n: int)
    requires 1 <= n <= 12
    ensures var r := StripLeadingZeros(TwoDigits(n));
      1 <= |r| <= 2 && r[0] != '0' && Number(r) == Some(n)
  {
    var d := TwoDigits(n);
    if n < 10 {
      assert d[0] == '0' && d[1..] == [DigitChar(n)];
      assert StripLeadingZeros(d[1..]) == d[1..];
    } else {
      assert d[0] == '1';
    }
  }

  /** The text after "Due at ": hour without a leading zero, minutes only when not `00`, then AM or PM. */
  function TwelveHourText(h: Hour, m: Minute): (r: string)
    ensures 4 <= |r| <= 8 && r[|r| - 3..] == " " + Meridiem(h)
    ensures ':' in r <==> m != 0
  {
    TwelveHourPieces(h, m);
    if TwoDigits(m) == "00" then HourText(h) + " " + Meridiem(h)
    else HourText(h) + ":" + TwoDigits(m) + " " + Meridiem(h)
  }

  lemma TwelveHourPieces(h: Hour, m: Minute)
    ensures var hour, minute, ampm := HourText(h), TwoDigits(m), Meridiem(h);
      var r := if minute == "00" then hour + " " + ampm else hour + ":" + minute + " " + ampm;
      4 <= |r| <= 8 && r[|r| - 3..] == " " + ampm && (':' in r <==> m != 0)
  {
    var hour, minute, ampm := HourText(h), TwoDigits(m), Meridiem(h);
    MinuteTextZero(m);
    ColonFreeDigits(hour);
    assert ':' !in ampm;
    TwelveHourForm(hour, minute, ampm);
  }

  lemma ColonFreeDigits(s: string)
    requires forall i :: 0 <= i < |s| ==> IsDigit(s[i])
    ensures ':' !in s
  {
  }

  /** Both 12-hour forms end in the suffix; only the one with minutes holds a colon. */
  lemma TwelveHourForm(hour: string, minute: string, ampm: string)
    requires 1 <= |hour| <= 2 && |minute| == 2 && |ampm| == 2
    requires ':' !in hour && ':' !in ampm
    ensures var r := hour + " " + ampm;
      4 <= |r| <= 8 && r[|r| - 3..] == " " + ampm && ':' !in r
    ensures var r := hour + ":" + minute + " " + ampm;
      4 <= |r| <= 8 && r[|r| - 3..] == " " + ampm && ':' in r
  {
    var r := hour + ":" + minute + " " + ampm;
    assert r[|hour|] == ':';
    var q := hour + " " + ampm;
    assert q == hour + (" " + ampm);
    assert ':' !in " " + ampm;
  }

  /** Splits off the " AM" / " PM" suffix; the flag is true for PM. */
  function SplitMeridiem(s: string): Option<(string, bool)>
  {
    if |s| >= 4 && s[|s| - 3..] == " AM" then Some((s[..|s| - 3], false))
    else if |s| >= 4 && s[|s| - 3..] == " PM" then Some((s[..|s| - 3], true))
    else None
  }

  /** Splits "H:MM" into its hour and minute texts; a text without ":MM" has minutes "00". */
  function SplitMinutes(body: string): (string, string, bool)
  {
    if |body| >= 3 && body[|body| - 3] == ':' then (body[..|body| - 3], body[|body| - 2..], true)
    else (body, "00", false)
  }

  /** The 24-hour hour and minute of a 12-hour hour text, a minute text and the PM flag. */
  function ReadClock(hourText: string, minuteText: string, split: bool, pm: bool): Option<(Hour, Minute)>
  {
    if |hourText| == 0 || hourText[0] == '0' then None
    else match (Number(hourText), Number(minuteText))
      case (Some(h12), Some(m)) =>
        if 1 <= h12 <= 12 && m < 60 && (split ==> m != 0)
        then Some((h12 % 12 + (if pm then 12 else 0), m))
        else None
      case _ => None
  }

  /** Reads a 12-hour text back into the 24-hour hour and minute it came from. */
  function ParseTwelveHour(s: string): Option<(Hour, Minute)>
  {
    match SplitMeridiem(s)
    case None => None
    case Some((body, pm)) =>
      var (hourText, minuteText, split) := SplitMinutes(body);
      ReadClock(hourText, minuteText, split, pm)
  }

  /** `%M` prints `00` exactly for minute zero. */
  lemma MinuteTextZero(m: Minute)
    ensures TwoDigits(m) == "00" <==> m == 0
  {
    assert Number("00") == Some(0);
  }

  /**
   * The minutes are left out exactly when they are zero, and the suffix is AM
   * exactly before noon.
   */
  lemma TwelveHourShape(h: Hour, m: Minute)
    ensures m == 0 ==> TwelveHourText(h, m) == HourText(h) + " " + Meridiem(h)
    ensures m != 0 ==> TwelveHourText(h, m) == HourText(h) + ":" + TwoDigits(m) + " " + Meridiem(h)
    ensures var s := TwelveHourText(h, m); |s| >= 4 && (s[|s| - 2..] == "AM" <==> h < 12)
  {
    MinuteTextZero(m);
    var s := TwelveHourText(h, m);
    assert s[|s| - 2..] == Meridiem(h);
  }

  lemma SplitMeridiemOf(body: string, h: Hour)
    requires |body| > 0
    ensures SplitMeridiem(body + " " + Meridiem(h)) == Some((body, h >= 12))
  {
    var s := body + " " + Meridiem(h);
    assert s[|s| - 3..] == " " + Meridiem(h);
    assert s[..|s| - 3] == body;
    if h >= 12 {
      assert s[|s| - 3..][1] == 'P';
      assert s[|s| - 3..] != " AM";
    }
  }

  lemma SplitMinutesOf(h: Hour, m: Minute)
    ensures SplitMinutes(HourText(h)) == (HourText(h), "00", false)
    ensures SplitMinutes(HourText(h) + ":" + TwoDigits(m)) == (HourText(h), TwoDigits(m), true)
  {
    var body := HourText(h) + ":" + TwoDigits(m);
    assert body[|body| - 3] == ':';
    assert body[..|body| - 3] == HourText(h);
    assert body[|body| - 2..] == TwoDigits(m);
  }

  lemma ReadClockOf(h: Hour, m: Minute)
    ensures ReadClock(HourText(h), TwoDigits(m), m != 0, h >= 12) == Some((h, m))
  {
    ReadClockFrom(HourText(h), TwoDigits(m), h, m);
  }

  lemma ReadClockFrom(hourText: string, minuteText: string, h: Hour, m: Minute)
    requires |hourText| > 0 && hourText[0] != '0' && Number(hourText) == Some(Hour12(h))
    requires Number(minuteText) == Some(m)
    ensures ReadClock(hourText, minuteText, m != 0, h >= 12) == Some((h, m))
  {
    assert Hour12(h) % 12 + (if h >= 12 then 12 else 0) == h;
  }

  /** The 12-hour text loses nothing: it reads back to the hour and minute it was made from. */
  lemma TwelveHourRoundTrip(h: Hour, m: Minute)
    ensures ParseTwelveHour(TwelveHourText(h, m)) == Some((h, m))
  {
    TwelveHourShape(h, m);
    SplitMinutesOf(h, m);
    ReadClockOf(h, m);
    if m == 0 {
      SplitMeridiemOf(HourText(h), h);
      assert Number("00") == Some(0);
      assert TwoDigits(m) == "00";
    } else {
      SplitMeridiemOf(HourText(h) + ":" + TwoDigits(m), h);
    }
  }
}
