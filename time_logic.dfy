/**
 * controller/time_logic.py: the weekday formula, the US daylight-saving rule,
 * the clock-string formatting, and the three ways the controller's clocks get
 * set (network time with host fallback, restore from the battery-backed
 * DS3231, manual set).
 */
module TimeLogic {
  import opened Wrappers
  import opened Text
  import Calendar

  /** A `time.gmtime()` / DS3231 tuple, in that tuple's field order. */
  datatype DateTime = DateTime(year: int, month: int, mday: int, hour: int, minute: int,
                               second: int, weekday: int, yearday: int)

  /** The tuple `machine.RTC().datetime(...)` takes, in its own field order. */
  datatype RtcDateTime = RtcDateTime(year: int, month: int, day: int, weekday: int, hour: int,
                                     minute: int, second: int, subsecond: int)

  // ---------------------------------------------------------------------------
  // Weekdays

  /**
   * `t[month - 1]` of Sakamoto's month table, with Python's reading of a
   * negative index as counted from the end (month 0 reads the last entry).
   */
  function MonthKey(month: int): int
    requires -11 <= month <= 12
  {
    [0, 3, 2, 5, 0, 3, 5, 1, 4, 6, 2, 4][(month - 1) % 12]
  }

  /** Everything in Sakamoto's sum except the day of the month. */
  function WeekdayBase(year: int, month: int): int
    requires -11 <= month <= 12
  {
    var y := if month < 3 then year - 1 else year;
    y + y / 4 - y / 100 + y / 400 + MonthKey(month)
  }

  /**
   * `weekday(year, month, day)`: Sakamoto's formula, 0 = Sunday. Python's
   * `//` and `%` floor, which for these positive divisors is Dafny's `/` and `%`.
   * Months outside -11..12 make the table lookup raise `IndexError`.
   */
  function Weekday(year: int, month: int, day: int): (w: int)
    requires -11 <= month <= 12
    ensures 0 <= w < 7
  {
    (WeekdayBase(year, month) + day) % 7
  }

  /**
   * Sakamoto's formula names the real weekday of every valid calendar date:
   * the day count from 0001-01-01, a Monday, shifted so that 0 is Sunday.
   */
  lemma WeekdayIsCalendarWeekday(d: Calendar.Date)
    requires 1 <= d.month <= 12
    ensures Weekday(d.year, d.month, d.day) == (Calendar.DayCount(d) + 1) % 7
  {
    var y, m := d.year, d.month;
    var count := Calendar.DayCount(d) + 1;
    var cum := Calendar.DaysBeforeMonth(y, m) - (if m > 2 && Calendar.IsLeapYear(y) then 1 else 0);
    MonthKeyAgainstTable(m);
    // The two sums differ by a multiple of 7.
    var k;
    if m < 3 {
      var leaps := (y - 1) / 4 - (y - 1) / 100 + (y - 1) / 400;
      assert WeekdayBase(y, m) == (y - 1) + leaps + MonthKey(m);
      assert count == 365 * (y - 1) + leaps + cum + d.day;
      k := -52 * (y - 1) + MonthWeeks(m);
    } else {
      var leaps := (y - 1) / 4 - (y - 1) / 100 + (y - 1) / 400;
      LeapDays(y);
      assert WeekdayBase(y, m) == y + leaps + (if Calendar.IsLeapYear(y) then 1 else 0) + MonthKey(m);
      assert count == 365 * (y - 1) + leaps + cum + (if Calendar.IsLeapYear(y) then 1 else 0) + d.day;
      k := -52 * y + MonthWeeks(m);
    }
    assert WeekdayBase(y, m) + d.day == count + 7 * k;
    ModShift(count, k);
  }

  /** Whole weeks between Sakamoto's month key and the cumulative month lengths. */
  function MonthWeeks(m: int): int
    requires 1 <= m <= 12
  {
    [0, -4, 44, 40, 35, 31, 27, 22, 18, 14, 9, 5][m - 1]
  }

  lemma MonthKeyAgainstTable(m: int)
    requires 1 <= m <= 12
    ensures var cum := [0, 31, 59, 90, 120, 151, 181, 212, 243, 273, 304, 334][m - 1];
      MonthKey(m) == cum + 7 * MonthWeeks(m) - (if m < 3 then 0 else 365)
  {
  }

  /** The leap-day count of the years before `y + 1` exceeds that before `y` by one exactly in leap years. */
  lemma LeapDays(y: int)
    ensures y / 4 - y / 100 + y / 400
         == (y - 1) / 4 - (y - 1) / 100 + (y - 1) / 400 + (if Calendar.IsLeapYear(y) then 1 else 0)
  {
    Calendar.DivStep(y, 4);
    Calendar.DivStep(y, 100);
    Calendar.DivStep(y, 400);
    assert y % 400 == 0 ==> y % 100 == 0 && y % 4 == 0;
    assert y % 100 == 0 ==> y % 4 == 0;
  }

  lemma ModShift(a: int, k: int)
    ensures (a + 7 * k) % 7 == a % 7
  {
  }

  /** Two numbers less than a week apart leave different remainders. */
  lemma ModDistinct(a: int, i: int, j: int)
    requires 0 < j - i < 7
    ensures (a + i) % 7 != (a + j) % 7
  {
    var qi, qj := (a + i) / 7, (a + j) / 7;
    assert a + i == 7 * qi + (a + i) % 7;
    assert a + j == 7 * qj + (a + j) % 7;
    assert (a + j) % 7 - (a + i) % 7 == (j - i) - 7 * (qj - qi);
  }

  /** Reducing an addend first does not change the remainder. */
  lemma ModAddend(x: int, y: int)
    ensures (x + y % 7) % 7 == (x + y) % 7
  {
    assert y == 7 * (y / 7) + y % 7;
    ModShift(x + y % 7, y / 7);
  }

  /** Seven days later is the same weekday; `k` days later is `k` weekdays later. */
  lemma WeekdayShift(year: int, month: int, day: int, k: int)
    requires -11 <= month <= 12
    ensures Weekday(year, month, day + k) == (Weekday(year, month, day) + k) % 7
  {
    ModAddend(k, WeekdayBase(year, month) + day);
  }

  // ---------------------------------------------------------------------------
  // n-th weekday of a month

  /** The first day in `d`..7 of the month that falls on `target`, as the loop finds it. */
  function FirstWeekdayFrom(year: int, month: int, target: int, d: int): Option<int>
    requires -11 <= month <= 12 && 1 <= d <= 8
    decreases 8 - d
  {
    if d == 8 then None
    else if Weekday(year, month, d) == target then Some(d)
    else FirstWeekdayFrom(year, month, target, d + 1)
  }

  /** `nth_weekday_of_month`: the first `target` weekday among days 1..7, plus `n - 1` weeks. */
  function NthWeekdayOfMonth(year: int, month: int, target: int, n: int): Option<int>
    requires -11 <= month <= 12
  {
    match FirstWeekdayFrom(year, month, target, 1)
    case Some(d) => Some(d + (n - 1) * 7)
    case None => None
  }

  /** The scan over days 1..7 with its early return, as the source writes it. */
  method FindNthWeekdayOfMonth(year: int, month: int, target: int, n: int) returns (r: Option<int>)
    requires -11 <= month <= 12
    ensures r == NthWeekdayOfMonth(year, month, target, n)
  {
    for d := 1 to 8
      invariant FirstWeekdayFrom(year, month, target, d) == FirstWeekdayFrom(year, month, target, 1)
    {
      if Weekday(year, month, d) == target {
        return Some(d + (n - 1) * 7);
      }
    }
    return None;
  }

  lemma {:induction false} FirstWeekdayReached(year: int, month: int, target: int, d: int, first: int)
    requires -11 <= month <= 12 && 1 <= d <= first <= 7
    requires Weekday(year, month, first) == target
    requires forall e :: d <= e < first ==> Weekday(year, month, e) != target
    ensures FirstWeekdayFrom(year, month, target, d) == Some(first)
    decreases first - d
  {
    if d < first {
      FirstWeekdayReached(year, month, target, d + 1, first);
    }
  }

  lemma {:induction false} NoWeekdayFrom(year: int, month: int, target: int, d: int)
    requires -11 <= month <= 12 && 1 <= d <= 8
    requires !(0 <= target < 7)
    ensures FirstWeekdayFrom(year, month, target, d) == None
    decreases 8 - d
  {
    if d < 8 {
      NoWeekdayFrom(year, month, target, d + 1);
    }
  }

  /**
   * For a weekday 0..6 the search never fails: its result falls on `target`,
   * is `n - 1` weeks after the first such day of the month, and that first
   * day lies in 1..7 with no earlier day on `target`. Any other target finds nothing.
   */
  lemma NthWeekdayFound(year: int, month: int, target: int, n: int)
    requires -11 <= month <= 12
    ensures 0 <= target < 7 <==> NthWeekdayOfMonth(year, month, target, n).Some?
    ensures NthWeekdayOfMonth(year, month, target, n).Some? ==>
      var r := NthWeekdayOfMonth(year, month, target, n).value;
      var first := r - 7 * (n - 1);
      && 1 <= first <= 7
      && Weekday(year, month, first) == target
      && Weekday(year, month, r) == target
      && (forall e :: 1 <= e < first ==> Weekday(year, month, e) != target)
  {
    if 0 <= target < 7 {
      var first := FirstWeekdayOfMonth(year, month, target);
      assert NthWeekdayOfMonth(year, month, target, n) == Some(first + (n - 1) * 7);
      WeekdayShift(year, month, first, 7 * (n - 1));
      ModShift(target, n - 1);
    } else {
      NoWeekdayFrom(year, month, target, 1);
    }
  }

  /** Every weekday occurs among the first seven days of a month. */
  lemma FirstWeekdayOfMonth(year: int, month: int, target: int) returns (first: int)
    requires -11 <= month <= 12 && 0 <= target < 7
    ensures 1 <= first <= 7 && Weekday(year, month, first) == target
    ensures forall e :: 1 <= e < first ==> Weekday(year, month, e) != target
    ensures FirstWeekdayFrom(year, month, target, 1) == Some(first)
  {
    var base := WeekdayBase(year, month);
    first := 1 + (target - base - 1) % 7;
    ModAddend(base + 1, target - base - 1);
    assert Weekday(year, month, first) == target;
    forall e | 1 <= e < first
      ensures Weekday(year, month, e) != target
    {
      ModDistinct(base, e, first);
    }
    FirstWeekdayReached(year, month, target, 1, first);
  }

  // ---------------------------------------------------------------------------
  // US daylight-saving time

  /** Day of the second Sunday of March: DST starts there at 02:00. */
  function DstStartDay(year: int): (d: int)
    ensures 8 <= d <= 14 && Weekday(year, 3, d) == 0
    ensures forall e :: 8 <= e < d ==> Weekday(year, 3, e) != 0
  {
    NthWeekdayFound(year, 3, 0, 2);
    var d := NthWeekdayOfMonth(year, 3, 0, 2).value;
    assert forall e :: 8 <= e < d ==> Weekday(year, 3, e) != 0 by {
      forall e | 8 <= e < d
        ensures Weekday(year, 3, e) != 0
      {
        WeekdayShift(year, 3, e - 7, 7);
      }
    }
    d
  }

  /** Day of the first Sunday of November: DST ends there. */
  function DstEndDay(year: int): (d: int)
    ensures 1 <= d <= 7 && Weekday(year, 11, d) == 0
    ensures forall e :: 1 <= e < d ==> Weekday(year, 11, e) != 0
  {
    NthWeekdayFound(year, 11, 0, 1);
    NthWeekdayOfMonth(year, 11, 0, 1).value
  }

  /** `year * 1000000 + month * 10000 + day * 100 + hour`. */
  function Pack(year: int, month: int, day: int, hour: int): int {
    year * 1000000 + month * 10000 + day * 100 + hour
  }

  /**
   * `is_dst_us`, on standard-time fields: the fall-back hour 1 on the first
   * Sunday of November is answered `false` explicitly, and everything else
   * by one comparison of packed integers.
   */
  function IsDstUs(year: int, month: int, day: int, hour: int): bool {
    var startDay := DstStartDay(year);
    var endDay := DstEndDay(year);
    if month == 11 && day == endDay && hour == 1 then false
    else Pack(year, 3, startDay, 2) <= Pack(year, month, day, hour) < Pack(year, 11, endDay, 2)
  }

  /** Lexicographic order on (month, day, hour). */
  predicate LexLess(m1: int, d1: int, h1: int, m2: int, d2: int, h2: int) {
    m1 < m2 || (m1 == m2 && (d1 < d2 || (d1 == d2 && h1 < h2)))
  }

  /**
   * The rule of section 110 of the Energy Policy Act of 2005 read on standard
   * time: daylight time runs from 02:00 on the second Sunday of March up to
   * 01:00 standard time (02:00 daylight time) on the first Sunday of November.
   */
  predicate InDaylightPeriod(year: int, month: int, day: int, hour: int) {
    var s := DstStartDay(year);
    var e := DstEndDay(year);
    !LexLess(month, day, hour, 3, s, 2) && LexLess(month, day, hour, 11, e, 1)
  }

  /** With a day field and hour field of two digits the packed test is that lexicographic test. */
  lemma PackOrdersLexicographically(year: int, m1: int, d1: int, h1: int, m2: int, d2: int, h2: int)
    requires 0 <= d1 < 100 && 0 <= h1 < 100 && 0 <= d2 < 100 && 0 <= h2 < 100
    ensures Pack(year, m1, d1, h1) < Pack(year, m2, d2, h2) <==> LexLess(m1, d1, h1, m2, d2, h2)
  {
    var lo1, lo2 := d1 * 100 + h1, d2 * 100 + h2;
    assert 0 <= lo1 < 10000 && 0 <= lo2 < 10000;
    assert Pack(year, m1, d1, h1) - Pack(year, m2, d2, h2) == (m1 - m2) * 10000 + (lo1 - lo2);
    if m1 < m2 {
      assert (m1 - m2) * 10000 <= -10000;
    } else if m1 > m2 {
      assert (m1 - m2) * 10000 >= 10000;
    }
  }

  /** `is_dst_us` agrees with the statute's rule at every hour of every day (both directions). */
  lemma IsDstUsMatchesRule(year: int, month: int, day: int, hour: int)
    requires 0 <= day < 100 && 0 <= hour < 100
    ensures IsDstUs(year, month, day, hour) <==> InDaylightPeriod(year, month, day, hour)
  {
    var s, e := DstStartDay(year), DstEndDay(year);
    PackOrdersLexicographically(year, month, day, hour, 3, s, 2);
    PackOrdersLexicographically(year, month, day, hour, 11, e, 2);
  }

  /** Spring forward: 01:xx on the second Sunday of March is standard time, 02:xx and 03:xx daylight. */
  lemma SpringForward(year: int)
    ensures !IsDstUs(year, 3, DstStartDay(year), 1)
    ensures IsDstUs(year, 3, DstStartDay(year), 2)
    ensures IsDstUs(year, 3, DstStartDay(year), 3)
  {
  }

  /**
   * Fall back: on the first Sunday of November standard hour 0 is still
   * daylight time; hour 1 (also the repeated 01:xx) and hour 2 are not.
   */
  lemma FallBack(year: int)
    ensures IsDstUs(year, 11, DstEndDay(year), 0)
    ensures !IsDstUs(year, 11, DstEndDay(year), 1)
    ensures !IsDstUs(year, 11, DstEndDay(year), 2)
  {
  }

  /** No January or December hour is daylight time; every April to October hour is. */
  lemma DstBySeason(year: int, month: int, day: int, hour: int)
    requires 1 <= day <= 31 && 0 <= hour <= 23
    ensures month == 1 || month == 12 ==> !IsDstUs(year, month, day, hour)
    ensures 4 <= month <= 10 ==> IsDstUs(year, month, day, hour)
  {
    IsDstUsMatchesRule(year, month, day, hour);
  }

  // ---------------------------------------------------------------------------
  // Local time and formatting

  /**
   * `localtime_with_optional_dst`: the clock reading `ts` shifted by the
   * fixed offset, and by another hour when DST applies to the shifted
   * (standard-time) fields. `localtime` is the library's seconds-to-fields
   * conversion, supplied by the caller.
   */
  function LocalTimeWithOptionalDst(ts: int, utcOffset: int, enableDst: bool,
                                    localtime: int -> DateTime): (t: DateTime)
    ensures t == localtime(ts + utcOffset) || t == localtime(ts + utcOffset + 3600)
  {
    var base := localtime(ts + utcOffset);
    if !enableDst then base
    else if IsDstUs(base.year, base.month, base.mday, base.hour) then localtime(ts + utcOffset + 3600)
    else base
  }

  /**
   * The adjusted local time is the standard local time one hour later exactly
   * when DST is enabled and the standard-time reading lies in the statute's
   * daylight period; otherwise it is the standard local time.
   */
  lemma LocalTimeFollowsRule(ts: int, utcOffset: int, enableDst: bool, localtime: int -> DateTime)
    requires var base := localtime(ts + utcOffset); 0 <= base.mday < 100 && 0 <= base.hour < 100
    ensures var base := localtime(ts + utcOffset);
      LocalTimeWithOptionalDst(ts, utcOffset, enableDst, localtime)
        == if enableDst && InDaylightPeriod(base.year, base.month, base.mday, base.hour)
           then localtime(ts + utcOffset + 3600) else base
  {
    var base := localtime(ts + utcOffset);
    IsDstUsMatchesRule(base.year, base.month, base.mday, base.hour);
  }

  /** `get_current_minutes_past_midnight`: `hour * 60 + minute` of the DST-adjusted local time. */
  function MinutesPastMidnight(t: DateTime): (m: int)
    ensures 0 <= t.hour <= 23 && 0 <= t.minute <= 59 ==> 0 <= m <= 1439
    ensures 0 <= t.minute <= 59 ==> m / 60 == t.hour && m % 60 == t.minute
  {
    t.hour * 60 + t.minute
  }

  /**
   * `get_current_minutes_past_midnight`: for a valid adjusted local time, a
   * minute of the day from which its hour and minute are recovered.
   */
  function CurrentMinutesPastMidnight(ts: int, utcOffset: int, enableDst: bool,
                                      localtime: int -> DateTime): (m: int)
    ensures var t := LocalTimeWithOptionalDst(ts, utcOffset, enableDst, localtime);
      0 <= t.hour <= 23 && 0 <= t.minute <= 59 ==> 0 <= m <= 1439 && m / 60 == t.hour && m % 60 == t.minute
  {
    MinutesPastMidnight(LocalTimeWithOptionalDst(ts, utcOffset, enableDst, localtime))
  }

  /** Python's `f"{n:02d}"`: at least two characters, zero-padded after any sign. */
  function Pad2(n: int): string {
    if n < 0 then "-" + Decimal(-n)
    else if n < 10 then "0" + Decimal(n)
    else Decimal(n)
  }

  /** A two-digit field: exactly two digits that read back as `n`. */
  lemma Pad2Digits(n: int)
    requires 0 <= n <= 99
    ensures |Pad2(n)| == 2 && AllDigits(Pad2(n)) && DigitsValue(Pad2(n)) == n
  {
    DecimalDigits(n);
    if n < 10 {
      var s := Pad2(n);
      assert s[..1] == "0";
    } else {
      DecimalDigits(n / 10);
    }
  }

  /** `format_time_str`: `HH:MM:SS`. */
  function FormatTimeStr(t: DateTime): string {
    Pad2(t.hour) + ":" + Pad2(t.minute) + ":" + Pad2(t.second)
  }

  /** `format_date_str`: `MM/DD/YYYY`, the year unpadded. */
  function FormatDateStr(t: DateTime): string {
    Pad2(t.month) + "/" + Pad2(t.mday) + "/" + IntString(t.year)
  }

  /** For fields 0..59 the time string is 8 characters whose digit pairs read back as the fields. */
  lemma FormatTimeShape(t: DateTime)
    requires 0 <= t.hour <= 59 && 0 <= t.minute <= 59 && 0 <= t.second <= 59
    ensures var s := FormatTimeStr(t);
      && |s| == 8 && s[2] == ':' && s[5] == ':'
      && AllDigits(s[0..2]) && AllDigits(s[3..5]) && AllDigits(s[6..8])
      && DigitsValue(s[0..2]) == t.hour
      && DigitsValue(s[3..5]) == t.minute
      && DigitsValue(s[6..8]) == t.second
  {
    Pad2Digits(t.hour);
    Pad2Digits(t.minute);
    Pad2Digits(t.second);
    var s := FormatTimeStr(t);
    assert s[0..2] == Pad2(t.hour);
    assert s[3..5] == Pad2(t.minute);
    assert s[6..8] == Pad2(t.second);
  }

  /** For a month and day of two digits and a four-digit year: `MM/DD/YYYY`, reading back. */
  lemma FormatDateShape(t: DateTime)
    requires 0 <= t.month <= 99 && 0 <= t.mday <= 99 && 1000 <= t.year <= 9999
    ensures var s := FormatDateStr(t);
      && |s| == 10 && s[2] == '/' && s[5] == '/'
      && AllDigits(s[0..2]) && AllDigits(s[3..5]) && AllDigits(s[6..10])
      && DigitsValue(s[0..2]) == t.month
      && DigitsValue(s[3..5]) == t.mday
      && DigitsValue(s[6..10]) == t.year
  {
    Pad2Digits(t.month);
    Pad2Digits(t.mday);
    DecimalDigits(t.year);
    DecimalDigits(t.year / 10);
    DecimalDigits(t.year / 100);
    DecimalDigits(t.year / 1000);
    var s := FormatDateStr(t);
    assert s[0..2] == Pad2(t.month);
    assert s[3..5] == Pad2(t.mday);
    assert s[6..10] == IntString(t.year);
  }

  // ---------------------------------------------------------------------------
  // The clocks

  /** What `time.gmtime()` reports for an RTC set to `r`: weekday 0 = Monday, yearday from 1. */
  function GmTime(r: RtcDateTime): (t: DateTime)
    requires 1 <= r.month <= 12
    ensures 0 <= t.weekday < 7
  {
    var d := Calendar.Date(r.year, r.month, r.day);
    DateTime(r.year, r.month, r.day, r.hour, r.minute, r.second,
             Calendar.DayCount(d) % 7, Calendar.DaysBeforeMonth(r.year, r.month) + r.day)
  }

  /**
   * The first host, in list order, whose time request succeeds; `reachable`
   * stands for the network's answer to `ntptime.settime()`.
   */
  function FirstReachable(hosts: seq<string>, reachable: string -> bool): (r: Option<nat>)
    ensures r.Some? ==> r.value < |hosts| && reachable(hosts[r.value])
                        && forall j :: 0 <= j < r.value ==> !reachable(hosts[j])
    ensures r.None? ==> forall j :: 0 <= j < |hosts| ==> !reachable(hosts[j])
  {
    if hosts == [] then None
    else if reachable(hosts[0]) then Some(0)
    else match FirstReachable(hosts[1..], reachable)
      case Some(k) => Some(k + 1)
      case None => None
  }

  /** The tuple `get_rtc_time_and_set_internal_rtc` hands the RTC: the DS3231 weekday less one. */
  function RestoredTime(ds: DateTime): RtcDateTime {
    RtcDateTime(ds.year, ds.month, ds.mday, ds.weekday - 1, ds.hour, ds.minute, ds.second, ds.yearday)
  }

  /** The DS3231 tuple `set_manual_time` writes: weekday 1 = Sunday .. 7 = Saturday, yearday 0. */
  function ManualDurableTime(year: int, month: int, day: int, hour: int, minute: int, second: int): (t: DateTime)
    requires -11 <= month <= 12
    ensures 1 <= t.weekday <= 7 && t.yearday == 0
    ensures (t.year, t.month, t.mday, t.hour, t.minute, t.second) == (year, month, day, hour, minute, second)
    ensures 1 <= month <= 12 ==>
      t.weekday == (Calendar.DayCount(Calendar.Date(year, month, day)) + 1) % 7 + 1
  {
    assert 1 <= month <= 12 ==>
      Weekday(year, month, day) == (Calendar.DayCount(Calendar.Date(year, month, day)) + 1) % 7 by {
      if 1 <= month <= 12 {
        WeekdayIsCalendarWeekday(Calendar.Date(year, month, day));
      }
    }
    DateTime(year, month, day, hour, minute, second, Weekday(year, month, day) + 1, 0)
  }

  /** The RTC tuple `set_manual_time` writes: weekday `(wd - 1) % 7`, 0 = Monday. */
  function ManualRtcTime(year: int, month: int, day: int, hour: int, minute: int, second: int): (r: RtcDateTime)
    requires -11 <= month <= 12
    ensures 0 <= r.weekday <= 6 && r.subsecond == 0
    ensures (r.year, r.month, r.day, r.hour, r.minute, r.second) == (year, month, day, hour, minute, second)
    ensures 1 <= month <= 12 ==> r.weekday == GmTime(r).weekday
  {
    assert 1 <= month <= 12 ==>
      (Weekday(year, month, day) - 1) % 7 == Calendar.DayCount(Calendar.Date(year, month, day)) % 7 by {
      if 1 <= month <= 12 {
        WeekdayIsCalendarWeekday(Calendar.Date(year, month, day));
        ModAddend(-1, Calendar.DayCount(Calendar.Date(year, month, day)) + 1);
      }
    }
    RtcDateTime(year, month, day, (Weekday(year, month, day) - 1) % 7, hour, minute, second, 0)
  }

  /**
   * Restoring what `set_manual_time` wrote to the DS3231 gives the RTC back
   * the date and time that were set, but with the weekday counted from
   * Sunday: one day later than the Monday-based weekday `set_manual_time`
   * gives the RTC directly.
   */
  lemma ManualTimeRestored(year: int, month: int, day: int, hour: int, minute: int, second: int)
    requires 1 <= month <= 12
    ensures var r := RestoredTime(ManualDurableTime(year, month, day, hour, minute, second));
      var direct := ManualRtcTime(year, month, day, hour, minute, second);
      && (r.year, r.month, r.day, r.hour, r.minute, r.second) == (year, month, day, hour, minute, second)
      && r.subsecond == 0
      && r.weekday == (Calendar.DayCount(Calendar.Date(year, month, day)) + 1) % 7
      && r.weekday == (direct.weekday + 1) % 7
      && r.weekday != direct.weekday
  {
    var n := Calendar.DayCount(Calendar.Date(year, month, day));
    ModAddend(1, n);
    ModDistinct(n, 0, 1);
  }

  /**
   * Restoring what `sync_ntp_time` wrote to the DS3231 gives the RTC back the
   * date and time, but the Monday-based weekday less one: a Monday comes back
   * as -1, and `subsecond` receives the day of the year.
   */
  lemma SyncedTimeRestored(network: RtcDateTime)
    requires 1 <= network.month <= 12
    ensures var r := RestoredTime(GmTime(network));
      && (r.year, r.month, r.day, r.hour, r.minute, r.second)
         == (network.year, network.month, network.day, network.hour, network.minute, network.second)
      && r.weekday == GmTime(network).weekday - 1
      && -1 <= r.weekday <= 5
      && r.subsecond == Calendar.DaysBeforeMonth(network.year, network.month) + network.day
  {
  }

  /**
   * The controller's two clocks: the internal RTC (volatile) and the DS3231
   * (battery-backed), with `ntptime.host`, the host the NTP client talks to.
   */
  class Clocks {
    var host: string
    var internal: RtcDateTime
    var durable: DateTime
    /** Every host `sync_ntp_time` has tried, in order. */
    ghost var tried: seq<string>

    constructor (host0: string, internal0: RtcDateTime, durable0: DateTime)
      ensures host == host0 && internal == internal0 && durable == durable0 && tried == []
    {
      host, internal, durable := host0, internal0, durable0;
      tried := [];
    }

    /**
     * `sync_ntp_time`: try the hosts in order; at the first that answers,
     * set the RTC from the network and copy `time.gmtime()` into the DS3231,
     * and stop. `network` is the time the network reports.
     */
    method SyncNtpTime(hosts: seq<string>, reachable: string -> bool, network: RtcDateTime)
      returns (ok: bool)
      requires 1 <= network.month <= 12
      modifies this
      ensures ok == FirstReachable(hosts, reachable).Some?
      ensures ok ==>
        var k := FirstReachable(hosts, reachable).value;
        && host == hosts[k]
        && tried == old(tried) + hosts[..k + 1]
        && internal == network
        && durable == GmTime(network)
      ensures !ok ==>
        && tried == old(tried) + hosts
        && host == (if hosts == [] then old(host) else hosts[|hosts| - 1])
        && internal == old(internal) && durable == old(durable)
    {
      var i := 0;
      while i < |hosts|
        invariant 0 <= i <= |hosts|
        invariant forall j :: 0 <= j < i ==> !reachable(hosts[j])
        invariant tried == old(tried) + hosts[..i]
        invariant host == (if i == 0 then old(host) else hosts[i - 1])
        invariant internal == old(internal) && durable == old(durable)
      {
        host := hosts[i];
        tried := tried + [hosts[i]];
        if reachable(hosts[i]) {
          internal := network;
          durable := GmTime(internal);
          assert hosts[..i + 1] == hosts[..i] + [hosts[i]];
          FirstReachableAt(hosts, reachable, i);
          return true;
        }
        i := i + 1;
      }
      assert hosts[..i] == hosts;
      return false;
    }

    /**
     * `get_rtc_time_and_set_internal_rtc`: read the DS3231 (`readable` is
     * false when the bus read raises) and accept it only for a year after 2024.
     */
    method RestoreFromDurable(readable: bool) returns (ok: bool)
      modifies this`internal
      ensures ok == (readable && durable.year > 2024)
      ensures ok ==> internal == RestoredTime(durable)
      ensures !ok ==> internal == old(internal)
    {
      if !readable {
        return false;
      }
      var ds := durable;
      if !(ds.year > 2024) {
        return false;
      }
      internal := RestoredTime(ds);
      return true;
    }

    /**
     * `set_manual_time`: the DS3231 first, then the RTC. A month outside
     * -11..12 raises in `weekday` before anything is written; `dsWrites`
     * and `rtcWrites` say whether each device write succeeds.
     */
    method SetManualTime(year: int, month: int, day: int, hour: int, minute: int, second: int,
                         dsWrites: bool, rtcWrites: bool) returns (ok: bool)
      modifies this`internal, this`durable
      ensures ok == (-11 <= month <= 12 && dsWrites && rtcWrites)
      ensures durable == if -11 <= month <= 12 && dsWrites
                         then ManualDurableTime(year, month, day, hour, minute, second) else old(durable)
      ensures internal == if ok then ManualRtcTime(year, month, day, hour, minute, second) else old(internal)
    {
      if !(-11 <= month <= 12) {
        return false;
      }
      if !dsWrites {
        return false;
      }
      durable := ManualDurableTime(year, month, day, hour, minute, second);
      if !rtcWrites {
        return false;
      }
      internal := ManualRtcTime(year, month, day, hour, minute, second);
      return true;
    }
  }

  lemma {:induction false} FirstReachableAt(hosts: seq<string>, reachable: string -> bool, i: nat)
    requires i < |hosts| && reachable(hosts[i])
    requires forall j :: 0 <= j < i ==> !reachable(hosts[j])
    ensures FirstReachable(hosts, reachable) == Some(i)
  {
    if i > 0 {
      FirstReachableAt(hosts[1..], reachable, i - 1);
    }
  }
}
