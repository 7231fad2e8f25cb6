/**
 * audio_monitor.py: the desktop recorder's once-a-second loop. Each of five
 * daily events (07:55, 08:00, five minutes before sunset, sunset, 22:00)
 * starts a recording when the clock is inside a window opening ten seconds
 * early and lasting until one minute after the target, at most once per
 * calendar date; a change of date clears every flag and reloads the sunset.
 */
module AudioMonitor {
  import opened Wrappers
  import opened Text
  import Calendar
  import SunsetTable
  import opened Logs

  /** `START_DATE`. */
  const StartDate := Calendar.Date(2025, 1, 1)

  /** `get_day_number`: `(date - START_DATE).days`, negative before the start. */
  function DayNumber(d: Calendar.Date): int
    requires 1 <= d.month <= 12
  {
    Calendar.DayCount(d) - Calendar.DayCount(StartDate)
  }

  /** The start date is day 0, and each following date is one more. */
  lemma DayNumberNext(d: Calendar.Date)
    requires Calendar.ValidDate(d)
    ensures DayNumber(StartDate) == 0
    ensures DayNumber(Calendar.NextDate(d)) == DayNumber(d) + 1
  {
    Calendar.NextDateCount(d);
  }

  /** Earlier dates have smaller day numbers; so every date before 2025-01-01 has a negative one. */
  lemma DayNumberOrder(d: Calendar.Date, e: Calendar.Date)
    requires Calendar.ValidDate(d) && Calendar.ValidDate(e)
    requires d.year < e.year
          || (d.year == e.year && d.month < e.month)
          || (d.year == e.year && d.month == e.month && d.day < e.day)
    ensures DayNumber(d) < DayNumber(e)
  {
    Calendar.DayCountMonotone(d, e);
  }

  /**
   * `get_sunset_minutes` over what `csv.reader` yields for the file (`None`
   * when it cannot be opened). `next(reader, None)` skips the header, and an
   * empty file simply has no rows.
   */
  function SunsetMinutes(file: Option<seq<seq<string>>>, day: int): Option<int> {
    match file
    case None => None
    case Some(rows) => if rows == [] then None else SunsetTable.ScanResult(SunsetTable.ScanRows(rows[1..], day))
  }

  /** The loop over the rows after the header, with its early returns. */
  method GetSunsetMinutes(file: Option<seq<seq<string>>>, day: int) returns (r: Option<int>)
    ensures r == SunsetMinutes(file, day)
  {
    if file.None? || file.value == [] {
      return None;
    }
    var rows := file.value;
    ghost var scan := SunsetTable.ScanRows(rows[1..], day);
    var i := 1;
    while i < |rows|
      invariant 1 <= i <= |rows|
      invariant SunsetTable.ScanRows(rows[i..], day) == scan
    {
      var row := rows[i];
      assert rows[i..][0] == row && rows[i..][1..] == rows[i + 1..];
      if |row| == 2 {
        var first := ParseInt(row[0]);
        if first.None? {
          return None;
        }
        if first.value == day {
          return ParseInt(row[1]);
        }
      }
      i := i + 1;
    }
    return None;
  }

  // ---------------------------------------------------------------------------
  // Events and their windows

  /** The keys of `triggered_events`: '0755', '0800', 'sunset_minus_5', 'sunset', '2200'. */
  datatype Event = At0755 | At0800 | SunsetMinus5 | AtSunset | At2200

  const AllEvents: set<Event> := {At0755, At0800, SunsetMinus5, AtSunset, At2200}

  /** Target second of the day; the sunset events have none when the sunset is unknown. */
  function Target(e: Event, sunsetMins: Option<int>): Option<int> {
    match e
    case At0755 => Some((7 * 60 + 55) * 60)
    case At0800 => Some(8 * 3600)
    case SunsetMinus5 => if sunsetMins.Some? then Some(sunsetMins.value * 60 - 5 * 60) else None
    case AtSunset => if sunsetMins.Some? then Some(sunsetMins.value * 60) else None
    case At2200 => Some(22 * 3600)
  }

  predicate InWindow(secs: int, target: int) {
    target - 10 <= secs < target + 60
  }

  predicate IsFixed(e: Event) {
    e == At0755 || e == At0800 || e == At2200
  }

  lemma EveryEvent(e: Event)
    ensures e in AllEvents
  {
    match e
    case At0755 =>
    case At0800 =>
    case SunsetMinus5 =>
    case AtSunset =>
    case At2200 =>
  }

  /** Every flag down. */
  function AllCleared(): (f: map<Event, bool>)
    ensures forall e :: e in f && !f[e]
  {
    assert forall e :: e in AllEvents by {
      forall e: Event ensures e in AllEvents {
        EveryEvent(e);
      }
    }
    map e | e in AllEvents :: false
  }

  /** An event fires on a tick when its flag is down and the tick is inside its window. */
  predicate Fires(triggered: map<Event, bool>, sunsetMins: Option<int>, secs: int, e: Event)
    requires e in triggered
  {
    !triggered[e] && Target(e, sunsetMins).Some? && InWindow(secs, Target(e, sunsetMins).value)
  }

  /** The seven-times-a-day picture: 07:55 is 28500 s, the sunset-5 window for sunset 18:00 opens at 64490 s. */
  lemma Windows()
    ensures Target(At0755, None) == Some(28500) && Target(At0800, None) == Some(28800)
    ensures Target(At2200, None) == Some(79200)
    ensures Target(SunsetMinus5, Some(1080)) == Some(1075 * 60)
    ensures InWindow(1075 * 60 - 10, 1075 * 60) && !InWindow(1075 * 60 - 11, 1075 * 60)
    ensures InWindow(1075 * 60 + 59, 1075 * 60) && !InWindow(1075 * 60 + 60, 1075 * 60)
  {
  }

  /** The fixed events do not depend on the sunset: a missing sunset never blocks them. */
  lemma FixedEventsIgnoreSunset(triggered: map<Event, bool>, s1: Option<int>, s2: Option<int>, secs: int, e: Event)
    requires e in triggered && IsFixed(e)
    ensures Fires(triggered, s1, secs, e) == Fires(triggered, s2, secs, e)
    ensures Fires(triggered, None, secs, e) <==> !triggered[e] && InWindow(secs, Target(e, None).value)
  {
  }

  /** The sunset events never fire without a sunset for the day. */
  lemma SunsetEventsNeedSunset(triggered: map<Event, bool>, secs: int, e: Event)
    requires e in triggered && !IsFixed(e)
    ensures !Fires(triggered, None, secs, e)
  {
  }

  /** `now.hour * 3600 + now.minute * 60 + now.second`. */
  function CurrentSeconds(hour: int, minute: int, second: int): (secs: int)
    ensures 0 <= hour <= 23 && 0 <= minute <= 59 && 0 <= second <= 59 ==>
      && 0 <= secs <= 86399
      && secs / 3600 == hour && (secs % 3600) / 60 == minute && secs % 60 == second
  {
    hour * 3600 + minute * 60 + second
  }

  // ---------------------------------------------------------------------------
  // One tick of the loop

  /** A reading of `datetime.datetime.now()`. */
  datatype Now = Now(date: Calendar.Date, hour: int, minute: int, second: int)

  /** `current_date`, `sunset_mins` and `triggered_events`. */
  datatype MonitorState = MonitorState(date: Calendar.Date, sunsetMins: Option<int>, triggered: map<Event, bool>)

  predicate ValidState(st: MonitorState) {
    (forall e :: e in st.triggered) && Calendar.ValidDate(st.date)
  }

  /** The start of `main`: today's date, its sunset (as looked up for today), every flag down. */
  function Initial(today: Calendar.Date, sunsetToday: Option<int>): (st: MonitorState)
    requires Calendar.ValidDate(today)
    ensures ValidState(st)
  {
    MonitorState(today, sunsetToday, AllCleared())
  }

  /**
   * The new-day block: a different date is adopted with its sunset and all
   * flags down. `sunsetToday` is what the lookup gives for `today`.
   */
  function NewDay(st: MonitorState, today: Calendar.Date, sunsetToday: Option<int>): (st': MonitorState)
    requires ValidState(st) && Calendar.ValidDate(today)
    ensures ValidState(st')
  {
    if today != st.date then Initial(today, sunsetToday) else st
  }

  function IfFires(t: map<Event, bool>, sunsetMins: Option<int>, secs: int, e: Event): seq<Event>
    requires e in t
  {
    if Fires(t, sunsetMins, secs, e) then [e] else []
  }

  /** The events a tick records, in the source's order. */
  function FiredEvents(t: map<Event, bool>, sunsetMins: Option<int>, secs: int): seq<Event>
    requires forall e :: e in t
  {
    IfFires(t, sunsetMins, secs, At0755) + IfFires(t, sunsetMins, secs, At0800)
      + IfFires(t, sunsetMins, secs, SunsetMinus5) + IfFires(t, sunsetMins, secs, AtSunset)
      + IfFires(t, sunsetMins, secs, At2200)
  }

  /** One event's check: its flag goes up when it fires. */
  function Raise(t: map<Event, bool>, sunsetMins: Option<int>, secs: int, e: Event): (t': map<Event, bool>)
    requires e in t
    ensures t'.Keys == t.Keys
  {
    t[e := t[e] || Fires(t, sunsetMins, secs, e)]
  }

  /** The five checks in the source's order. */
  function RaiseAll(t: map<Event, bool>, s: Option<int>, secs: int): (t': map<Event, bool>)
    requires forall e :: e in t
    ensures forall e :: e in t'
  {
    var t1 := Raise(t, s, secs, At0755);
    var t2 := Raise(t1, s, secs, At0800);
    var t3 := Raise(t2, s, secs, SunsetMinus5);
    var t4 := Raise(t3, s, secs, AtSunset);
    Raise(t4, s, secs, At2200)
  }

  /** One pass of the `while True` body: new-day check, then each event once. */
  function Step(st: MonitorState, now: Now, sunsetToday: Option<int>): (r: (MonitorState, seq<Event>))
    requires ValidState(st) && Calendar.ValidDate(now.date)
    ensures ValidState(r.0)
  {
    var s1 := NewDay(st, now.date, sunsetToday);
    var secs := CurrentSeconds(now.hour, now.minute, now.second);
    (s1.(triggered := RaiseAll(s1.triggered, s1.sunsetMins, secs)), FiredEvents(s1.triggered, s1.sunsetMins, secs))
  }

  /** The checks do not interfere: each flag ends up as its own check leaves it. */
  lemma RaiseAllFlags(t: map<Event, bool>, s: Option<int>, secs: int, e: Event)
    requires forall e :: e in t
    ensures RaiseAll(t, s, secs)[e] == (t[e] || Fires(t, s, secs, e))
  {
  }

  lemma FiredEventsMembers(t: map<Event, bool>, s: Option<int>, secs: int, e: Event)
    requires forall e :: e in t
    ensures Count(FiredEvents(t, s, secs), e) == if Fires(t, s, secs, e) then 1 else 0
    ensures e in FiredEvents(t, s, secs) <==> Fires(t, s, secs, e)
  {
    var a, b, c := IfFires(t, s, secs, At0755), IfFires(t, s, secs, At0800), IfFires(t, s, secs, SunsetMinus5);
    var d, f := IfFires(t, s, secs, AtSunset), IfFires(t, s, secs, At2200);
    CountAppend(a, b, e);
    CountAppend(a + b, c, e);
    CountAppend(a + b + c, d, e);
    CountAppend(a + b + c + d, f, e);
    IfFiresCount(t, s, secs, At0755, e);
    IfFiresCount(t, s, secs, At0800, e);
    IfFiresCount(t, s, secs, SunsetMinus5, e);
    IfFiresCount(t, s, secs, AtSunset, e);
    IfFiresCount(t, s, secs, At2200, e);
    CountMember(FiredEvents(t, s, secs), e);
  }

  lemma IfFiresCount(t: map<Event, bool>, s: Option<int>, secs: int, x: Event, e: Event)
    requires x in t && e in t
    ensures Count(IfFires(t, s, secs, x), e) == if x == e && Fires(t, s, secs, e) then 1 else 0
  {
    var r := IfFires(t, s, secs, x);
    if r != [] {
      assert r[1..] == [];
    }
  }

  /** A check reads only its own flag. */
  lemma IfFiresFrame(t: map<Event, bool>, t': map<Event, bool>, s: Option<int>, secs: int, e: Event)
    requires e in t && e in t' && t[e] == t'[e]
    ensures IfFires(t, s, secs, e) == IfFires(t', s, secs, e)
  {
  }

  /**
   * An event is recorded on a tick exactly when, after any new-day reset,
   * its flag was down and the tick lies in its window; afterwards its flag is
   * up, and on a tick of the same date no raised flag is recorded again.
   */
  lemma TickFiresOnlyInWindow(st: MonitorState, now: Now, sunsetToday: Option<int>, e: Event)
    requires ValidState(st) && Calendar.ValidDate(now.date)
    ensures var s1 := NewDay(st, now.date, sunsetToday);
      var secs := CurrentSeconds(now.hour, now.minute, now.second);
      var (st', fired) := Step(st, now, sunsetToday);
      && (e in fired <==>
            !s1.triggered[e] && Target(e, s1.sunsetMins).Some? && InWindow(secs, Target(e, s1.sunsetMins).value))
      && Count(fired, e) <= 1
      && (st'.triggered[e] <==> s1.triggered[e] || e in fired)
      && (now.date == st.date && st.triggered[e] ==> e !in fired && st'.triggered[e])
      && st'.date == now.date
      && st'.sunsetMins == (if now.date == st.date then st.sunsetMins else sunsetToday)
  {
    var s1 := NewDay(st, now.date, sunsetToday);
    var secs := CurrentSeconds(now.hour, now.minute, now.second);
    FiredEventsMembers(s1.triggered, s1.sunsetMins, secs, e);
    RaiseAllFlags(s1.triggered, s1.sunsetMins, secs, e);
  }

  /**
   * A change of date adopts the new date and its sunset and lowers every flag
   * before the events are checked: afterwards exactly the events fired on
   * this tick are up.
   */
  lemma DateChangeResets(st: MonitorState, now: Now, sunsetToday: Option<int>)
    requires ValidState(st) && Calendar.ValidDate(now.date) && now.date != st.date
    ensures var (st', fired) := Step(st, now, sunsetToday);
      && st'.date == now.date
      && st'.sunsetMins == sunsetToday
      && forall e :: st'.triggered[e] <==> e in fired
  {
    var s1 := NewDay(st, now.date, sunsetToday);
    var secs := CurrentSeconds(now.hour, now.minute, now.second);
    forall e
      ensures Step(st, now, sunsetToday).0.triggered[e] <==> e in Step(st, now, sunsetToday).1
    {
      FiredEventsMembers(s1.triggered, s1.sunsetMins, secs, e);
      RaiseAllFlags(s1.triggered, s1.sunsetMins, secs, e);
    }
  }

  // ---------------------------------------------------------------------------
  // Runs of ticks

  predicate AllValid(nows: seq<Now>) {
    forall i :: 0 <= i < |nows| ==> Calendar.ValidDate(nows[i].date)
  }

  predicate AllOn(nows: seq<Now>, d: Calendar.Date) {
    forall i :: 0 <= i < |nows| ==> nows[i].date == d
  }

  /** What the sunset file gives for each date. */
  function SunsetOf(file: Option<seq<seq<string>>>, d: Calendar.Date): Option<int> {
    if 1 <= d.month <= 12 then SunsetMinutes(file, DayNumber(d)) else None
  }

  /** Successive ticks: the final state and every event recorded, in order. */
  function Run(st: MonitorState, nows: seq<Now>, sunsetOf: Calendar.Date -> Option<int>): (r: (MonitorState, seq<Event>))
    requires ValidState(st) && AllValid(nows)
    ensures ValidState(r.0)
    decreases |nows|
  {
    if nows == [] then (st, [])
    else
      var (s1, f1) := Step(st, nows[0], sunsetOf(nows[0].date));
      var (s2, f2) := Run(s1, nows[1..], sunsetOf);
      (s2, f1 + f2)
  }

  /**
   * Over any run of ticks on one date each event is recorded at most once,
   * and not at all when that date is already current with the event's flag up.
   */
  lemma {:induction false} AtMostOncePerDate(st: MonitorState, nows: seq<Now>, sunsetOf: Calendar.Date -> Option<int>,
                                             d: Calendar.Date, e: Event)
    requires ValidState(st) && AllValid(nows) && AllOn(nows, d)
    ensures Count(Run(st, nows, sunsetOf).1, e) <= if st.date == d && st.triggered[e] then 0 else 1
    decreases |nows|
  {
    if nows != [] {
      assert nows[0].date == d;
      var r1 := Step(st, nows[0], sunsetOf(d));
      var s1, f1 := r1.0, r1.1;
      TickFiresOnlyInWindow(st, nows[0], sunsetOf(d), e);
      CountMember(f1, e);
      assert s1.date == d;
      assert e in f1 ==> s1.triggered[e];
      assert AllOn(nows[1..], d) && AllValid(nows[1..]);
      assert Run(st, nows, sunsetOf).1 == f1 + Run(s1, nows[1..], sunsetOf).1;
      AtMostOncePerDate(s1, nows[1..], sunsetOf, d, e);
      CountAppend(f1, Run(s1, nows[1..], sunsetOf).1, e);
    }
  }

  /**
   * And it is recorded at least once when one tick of the run falls in its
   * window, provided the run starts on another date (or on this date with
   * its sunset loaded and the flag down).
   */
  lemma {:induction false} FiresWhenWindowHit(st: MonitorState, nows: seq<Now>, sunsetOf: Calendar.Date -> Option<int>,
                                              d: Calendar.Date, e: Event, k: nat)
    requires ValidState(st) && AllValid(nows) && AllOn(nows, d)
    requires st.date != d || (st.sunsetMins == sunsetOf(d) && !st.triggered[e])
    requires k < |nows|
    requires var target := Target(e, sunsetOf(d));
      target.Some? && InWindow(CurrentSeconds(nows[k].hour, nows[k].minute, nows[k].second), target.value)
    ensures Count(Run(st, nows, sunsetOf).1, e) >= 1
    decreases k
  {
    assert nows[0].date == d;
    var (s1, f1) := Step(st, nows[0], sunsetOf(d));
    TickFiresOnlyInWindow(st, nows[0], sunsetOf(d), e);
    assert AllOn(nows[1..], d) && AllValid(nows[1..]);
    CountAppend(f1, Run(s1, nows[1..], sunsetOf).1, e);
    CountMember(f1, e);
    if e !in f1 {
      assert k > 0;
      assert nows[1..][k - 1] == nows[k];
      FiresWhenWindowHit(s1, nows[1..], sunsetOf, d, e, k - 1);
    }
  }

  /** So a run over one date whose ticks reach an event's window records that event exactly once. */
  lemma ExactlyOncePerDate(st: MonitorState, nows: seq<Now>, sunsetOf: Calendar.Date -> Option<int>,
                           d: Calendar.Date, e: Event, k: nat)
    requires ValidState(st) && AllValid(nows) && AllOn(nows, d) && st.date != d
    requires k < |nows|
    requires var target := Target(e, sunsetOf(d));
      target.Some? && InWindow(CurrentSeconds(nows[k].hour, nows[k].minute, nows[k].second), target.value)
    ensures Count(Run(st, nows, sunsetOf).1, e) == 1
  {
    AtMostOncePerDate(st, nows, sunsetOf, d, e);
    FiresWhenWindowHit(st, nows, sunsetOf, d, e, k);
  }

  /**
   * The monitor's own state: `current_date`, `sunset_mins` and the
   * `triggered_events` dictionary, which the loop updates in place.
   */
  class Monitor {
    var currentDate: Calendar.Date
    var sunsetMins: Option<int>
    var triggered: map<Event, bool>

    ghost predicate Valid()
      reads this
    {
      ValidState(State())
    }

    function State(): MonitorState
      reads this
    {
      MonitorState(currentDate, sunsetMins, triggered)
    }

    /** The set-up part of `main`. */
    constructor (today: Calendar.Date, file: Option<seq<seq<string>>>)
      requires Calendar.ValidDate(today)
      ensures Valid() && State() == Initial(today, SunsetMinutes(file, DayNumber(today)))
    {
      triggered := map[At0755 := false, At0800 := false, SunsetMinus5 := false, AtSunset := false, At2200 := false];
      currentDate := today;
      var sunset := GetSunsetMinutes(file, DayNumber(today));
      sunsetMins := sunset;
      new;
      assert triggered == AllCleared();
    }

    /** `for k in triggered_events: triggered_events[k] = False`. */
    method ClearFlags()
      modifies this`triggered
      ensures triggered == map e | e in old(triggered) :: false
    {
      var keys := triggered.Keys;
      while keys != {}
        invariant keys <= triggered.Keys == old(triggered).Keys
        invariant forall e :: e in triggered && e !in keys ==> !triggered[e]
        decreases keys
      {
        var k :| k in keys;
        triggered := triggered[k := false];
        keys := keys - {k};
      }
    }

    /** Raises the flag of an event whose window the tick is in and whose flag is down. */
    method Check(e: Event, secs: int, fired: seq<Event>) returns (fired': seq<Event>)
      requires e in triggered
      modifies this`triggered
      ensures fired' == fired + IfFires(old(triggered), sunsetMins, secs, e)
      ensures triggered == Raise(old(triggered), sunsetMins, secs, e)
    {
      fired' := fired;
      var target := Target(e, sunsetMins);
      if target.Some? && !triggered[e] && secs >= target.value - 10 && secs < target.value + 60 {
        fired' := fired + [e];
        triggered := triggered[e := true];
      }
    }

    /** The new-day block: adopt the date, reload its sunset, lower every flag. */
    method StartNewDay(today: Calendar.Date, file: Option<seq<seq<string>>>)
      requires Valid() && Calendar.ValidDate(today)
      modifies this
      ensures State() == Initial(today, SunsetMinutes(file, DayNumber(today)))
    {
      currentDate := today;
      var day := DayNumber(currentDate);
      sunsetMins := GetSunsetMinutes(file, day);
      ClearFlags();
      assert forall e :: e in AllEvents by {
        forall e: Event ensures e in AllEvents {
          EveryEvent(e);
        }
      }
      assert triggered == AllCleared();
    }

    /** The five event checks of one pass, in the source's order. */
    method CheckAll(secs: int) returns (fired: seq<Event>)
      requires forall e :: e in triggered
      modifies this`triggered
      ensures triggered == RaiseAll(old(triggered), sunsetMins, secs)
      ensures fired == FiredEvents(old(triggered), sunsetMins, secs)
    {
      ghost var t0 := triggered;
      fired := Check(At0755, secs, []);
      IfFiresFrame(t0, triggered, sunsetMins, secs, At0800);
      fired := Check(At0800, secs, fired);
      IfFiresFrame(t0, triggered, sunsetMins, secs, SunsetMinus5);
      IfFiresFrame(t0, triggered, sunsetMins, secs, AtSunset);
      fired := CheckSunsetEvents(secs, fired);
      IfFiresFrame(t0, triggered, sunsetMins, secs, At2200);
      fired := Check(At2200, secs, fired);
    }

    /** The two sunset checks, made only when the day's sunset is known. */
    method CheckSunsetEvents(secs: int, fired: seq<Event>) returns (fired': seq<Event>)
      requires forall e :: e in triggered
      modifies this`triggered
      ensures triggered == Raise(Raise(old(triggered), sunsetMins, secs, SunsetMinus5), sunsetMins, secs, AtSunset)
      ensures fired' == fired + IfFires(old(triggered), sunsetMins, secs, SunsetMinus5)
                              + IfFires(old(triggered), sunsetMins, secs, AtSunset)
    {
      fired' := fired;
      ghost var t0 := triggered;
      if sunsetMins.Some? {
        fired' := Check(SunsetMinus5, secs, fired');
        IfFiresFrame(t0, triggered, sunsetMins, secs, AtSunset);
        fired' := Check(AtSunset, secs, fired');
      } else {
        assert Raise(t0, sunsetMins, secs, SunsetMinus5) == t0;
        assert Raise(t0, sunsetMins, secs, AtSunset) == t0;
      }
    }

    /** One pass of the `while True` body, recording the events it would record. */
    method Tick(now: Now, file: Option<seq<seq<string>>>) returns (fired: seq<Event>)
      requires Valid() && Calendar.ValidDate(now.date)
      modifies this
      ensures Valid()
      ensures (State(), fired) == Step(old(State()), now, SunsetMinutes(file, DayNumber(now.date)))
    {
      ghost var st := State();
      ghost var sunsetToday := SunsetMinutes(file, DayNumber(now.date));
      if now.date != currentDate {
        StartNewDay(now.date, file);
      }
      ghost var s1 := State();
      assert s1 == NewDay(st, now.date, sunsetToday);
      var secs := now.hour * 3600 + now.minute * 60 + now.second;
      assert secs == CurrentSeconds(now.hour, now.minute, now.second);
      fired := CheckAll(secs);
      assert State() == s1.(triggered := RaiseAll(s1.triggered, s1.sunsetMins, secs));
    }
  }
}
