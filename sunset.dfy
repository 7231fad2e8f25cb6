/**
 * controller/sunset.py: today's day number counted from 2025-01-01, the
 * lookup of that day's sunset (minutes past midnight) in the header-plus-rows
 * CSV file, and the sunset time tuple built from it. The clock and
 * `utime.mktime` are parameters; the file is its sequence of lines.
 */
module SunsetTable {
  import opened Wrappers
  import opened Text
  import TimeLogic

  const SecondsInDay := 86400

  /** `START_DATE_TUPLE`: midnight of 2025-01-01. */
  const StartDateTuple := TimeLogic.DateTime(2025, 1, 1, 0, 0, 0, 0, 0)

  /**
   * `get_day_number`: whole days from `startSeconds` to `todaySeconds`,
   * with Python's floor division, so instants before the start count negative.
   */
  function DayNumber(todaySeconds: int, startSeconds: int): (n: int)
    ensures startSeconds + n * SecondsInDay <= todaySeconds < startSeconds + (n + 1) * SecondsInDay
  {
    (todaySeconds - startSeconds) / SecondsInDay
  }

  /** The bounds above determine the day number. */
  lemma DayNumberUnique(todaySeconds: int, startSeconds: int, n: int)
    requires startSeconds + n * SecondsInDay <= todaySeconds < startSeconds + (n + 1) * SecondsInDay
    ensures DayNumber(todaySeconds, startSeconds) == n
  {
  }

  /** Day 0 is the whole first day, starting at the start instant itself. */
  lemma DayNumberAtStart(todaySeconds: int, startSeconds: int)
    requires startSeconds <= todaySeconds < startSeconds + SecondsInDay
    ensures DayNumber(todaySeconds, startSeconds) == 0
  {
    DayNumberUnique(todaySeconds, startSeconds, 0);
  }

  /** A further 86400 seconds is exactly one more day. */
  lemma DayNumberStep(todaySeconds: int, startSeconds: int)
    ensures DayNumber(todaySeconds + SecondsInDay, startSeconds) == DayNumber(todaySeconds, startSeconds) + 1
  {
    var n := DayNumber(todaySeconds, startSeconds);
    DayNumberUnique(todaySeconds + SecondsInDay, startSeconds, n + 1);
  }

  // ---------------------------------------------------------------------------
  // The CSV lookup

  /** How a scan of the data rows ends: a sunset, no matching row, or an exception (`ValueError`). */
  datatype Scan = Found(minutes: int) | NoMatch | Raised

  /** A row the scan passes over: not two fields, or two fields whose first is another day. */
  predicate Skippable(row: seq<string>, day: int) {
    |row| != 2 || (ParseInt(row[0]).Some? && ParseInt(row[0]).value != day)
  }

  /** A row the scan stops at without raising because of its first field. */
  predicate Matches(row: seq<string>, day: int) {
    |row| == 2 && ParseInt(row[0]) == Some(day)
  }

  /**
   * The loop body over data rows: rows without two fields are skipped; the
   * first field of every two-field row is parsed, and the second of the matching one.
   */
  function ScanRows(rows: seq<seq<string>>, day: int): Scan
    decreases |rows|
  {
    if rows == [] then NoMatch
    else if |rows[0]| != 2 then ScanRows(rows[1..], day)
    else match ParseInt(rows[0][0])
      case None => Raised
      case Some(k) =>
        if k != day then ScanRows(rows[1..], day)
        else match ParseInt(rows[0][1])
          case None => Raised
          case Some(m) => Found(m)
  }

  /** Both the missing row and the exception come back as `None`. */
  function ScanResult(s: Scan): Option<int> {
    if s.Found? then Some(s.minutes) else None
  }

  /** `line.strip().split(',')`. */
  function LineFields(line: string): seq<string> {
    Split(Strip(line), ',')
  }

  function LineRows(lines: seq<string>): (rows: seq<seq<string>>)
    ensures |rows| == |lines|
    decreases |lines|
  {
    if lines == [] then [] else [LineFields(lines[0])] + LineRows(lines[1..])
  }

  /**
   * `get_sunset_minutes(day)` on the file's lines; `None` for a file that
   * cannot be opened, and for an empty one (`next(csvfile)` raises).
   */
  function SunsetMinutes(file: Option<seq<string>>, day: int): Option<int> {
    match file
    case None => None
    case Some(lines) => if lines == [] then None else ScanResult(ScanRows(LineRows(lines[1..]), day))
  }

  /** The source's loop over the lines after the header, with its early returns. */
  method GetSunsetMinutes(file: Option<seq<string>>, day: int) returns (r: Option<int>)
    ensures r == SunsetMinutes(file, day)
  {
    if file.None? {
      return None;
    }
    var lines := file.value;
    if lines == [] {
      return None;
    }
    ghost var scan := ScanRows(LineRows(lines[1..]), day);
    assert SunsetMinutes(file, day) == ScanResult(scan);
    var i := 1;
    while i < |lines|
      invariant 1 <= i <= |lines|
      invariant ScanRows(LineRows(lines[i..]), day) == scan
    {
      var parts := LineFields(lines[i]);
      ScanStep(lines, i, day);
      if |parts| == 2 {
        var first := ParseInt(parts[0]);
        if first.None? {
          assert scan == Raised;
          return None;
        }
        if first.value == day {
          var second := ParseInt(parts[1]);
          assert ScanResult(scan) == second;
          return second;
        }
      }
      i := i + 1;
    }
    assert lines[i..] == [];
    return None;
  }

  /** One turn of the loop: the scan from line `i` is the first row's verdict, or the scan from line `i + 1`. */
  lemma ScanStep(lines: seq<string>, i: nat, day: int)
    requires i < |lines|
    ensures var row := LineFields(lines[i]);
      var rest := ScanRows(LineRows(lines[i + 1..]), day);
      ScanRows(LineRows(lines[i..]), day) ==
        if |row| != 2 then rest
        else if ParseInt(row[0]).None? then Raised
        else if ParseInt(row[0]).value != day then rest
        else if ParseInt(row[1]).None? then Raised
        else Found(ParseInt(row[1]).value)
  {
    assert lines[i..][0] == lines[i] && lines[i..][1..] == lines[i + 1..];
    var rows := LineRows(lines[i..]);
    assert rows[0] == LineFields(lines[i]) && rows[1..] == LineRows(lines[i + 1..]);
  }

  /** The first line is the header: whatever it holds, the lookup is the same. */
  lemma HeaderIgnored(header: string, header': string, rest: seq<string>, day: int)
    ensures SunsetMinutes(Some([header] + rest), day) == SunsetMinutes(Some([header'] + rest), day)
  {
    assert ([header] + rest)[1..] == rest == ([header'] + rest)[1..];
  }

  /** Where the scan stops: the first row that is not skippable, or the end. */
  function FirstStop(rows: seq<seq<string>>, day: int): (i: nat)
    ensures i <= |rows|
    ensures forall j :: 0 <= j < i ==> Skippable(rows[j], day)
    ensures i < |rows| ==> !Skippable(rows[i], day)
    decreases |rows|
  {
    if rows == [] || !Skippable(rows[0], day) then 0 else FirstStop(rows[1..], day) + 1
  }

  /**
   * The three ways a scan ends, decided by the first row that is not
   * skippable: none, so no match; a row for the day with an integer second
   * field, so that sunset; anything else (a first field that is not an
   * integer, or a second field that is not) raises.
   */
  lemma {:induction false} ScanRowsMeaning(rows: seq<seq<string>>, day: int)
    ensures var i := FirstStop(rows, day);
      ScanRows(rows, day) ==
        if i == |rows| then NoMatch
        else if Matches(rows[i], day) && ParseInt(rows[i][1]).Some? then Found(ParseInt(rows[i][1]).value)
        else Raised
    decreases |rows|
  {
    if rows != [] && Skippable(rows[0], day) {
      ScanRowsMeaning(rows[1..], day);
    }
  }

  // ---------------------------------------------------------------------------
  // A table written as integers reads back as the table

  /** A data line as a table generator writes it: `day,minutes` and a newline. */
  function TableLine(day: int, minutes: int): string {
    IntString(day) + "," + IntString(minutes) + "\n"
  }

  function TableLines(entries: seq<(int, int)>): (lines: seq<string>)
    ensures |lines| == |entries|
    decreases |entries|
  {
    if entries == [] then [] else [TableLine(entries[0].0, entries[0].1)] + TableLines(entries[1..])
  }

  /** The first entry for `day`, if any: the reference the CSV lookup is measured against. */
  function FirstEntry(entries: seq<(int, int)>, day: int): Option<int>
    decreases |entries|
  {
    if entries == [] then None
    else if entries[0].0 == day then Some(entries[0].1)
    else FirstEntry(entries[1..], day)
  }

  lemma IntStringShape(i: int)
    ensures IntString(i) != [] && ',' !in IntString(i)
    ensures !IsSpace(IntString(i)[0]) && !IsSpace(IntString(i)[|IntString(i)| - 1])
  {
    DecimalDigits(if i < 0 then -i else i);
    var s := IntString(i);
    if i < 0 {
      assert s[1..] == Decimal(-i);
      assert forall k :: 1 <= k < |s| ==> s[k] == Decimal(-i)[k - 1];
    }
  }

  /** `line.strip().split(',')` gives back the two integers' texts. */
  lemma TableLineFields(day: int, minutes: int)
    ensures LineFields(TableLine(day, minutes)) == [IntString(day), IntString(minutes)]
  {
    var a, b := IntString(day), IntString(minutes);
    IntStringShape(day);
    IntStringShape(minutes);
    var body := a + "," + b;
    var line := body + "\n";
    assert TableLine(day, minutes) == line;
    assert TrimLeft(line, IsSpace) == line;
    assert line[..|line| - 1] == body;
    assert TrimRight(line, IsSpace) == TrimRight(body, IsSpace);
    StripByUnchanged(body, IsSpace);
    assert Strip(line) == body;
    SplitAtSeparator(a, b, ',');
    SplitNoSeparator(b, ',');
  }

  /** Looking a day up in a file of integer rows finds that day's first entry, or `None`. */
  lemma {:induction false} TableLookup(entries: seq<(int, int)>, day: int)
    ensures ScanResult(ScanRows(LineRows(TableLines(entries)), day)) == FirstEntry(entries, day)
    decreases |entries|
  {
    if entries != [] {
      var lines := TableLines(entries);
      assert lines[0] == TableLine(entries[0].0, entries[0].1) && lines[1..] == TableLines(entries[1..]);
      TableLineFields(entries[0].0, entries[0].1);
      ParseIntString(entries[0].0);
      ParseIntString(entries[0].1);
      TableLookup(entries[1..], day);
    }
  }

  /** The same for the whole file, header included. */
  lemma TableFileLookup(header: string, entries: seq<(int, int)>, day: int)
    ensures SunsetMinutes(Some([header] + TableLines(entries)), day) == FirstEntry(entries, day)
  {
    assert ([header] + TableLines(entries))[1..] == TableLines(entries);
    TableLookup(entries, day);
  }

  // ---------------------------------------------------------------------------
  // The sunset time tuple

  /**
   * `get_sunset_time_tuple`: today's local date with the sunset's hour and
   * minute, seconds and the two trailing fields zero. The day number is
   * taken from the UTC clock reading `now`, the date from the local time.
   */
  function SunsetTimeTuple(now: int, utcOffset: int, localtime: int -> TimeLogic.DateTime,
                           mktime: TimeLogic.DateTime -> int,
                           file: Option<seq<string>>): (r: Option<TimeLogic.DateTime>)
    ensures var minutes := SunsetMinutes(file, DayNumber(now, mktime(StartDateTuple)));
      && (r.None? <==> minutes.None?)
      && (r.Some? ==>
        var today := localtime(now + utcOffset);
        && (r.value.year, r.value.month, r.value.mday) == (today.year, today.month, today.mday)
        && r.value.hour * 60 + r.value.minute == minutes.value
        && 0 <= r.value.minute < 60
        && r.value.second == 0 && r.value.weekday == 0 && r.value.yearday == 0)
  {
    var today := localtime(now + utcOffset);
    var day := DayNumber(now, mktime(StartDateTuple));
    match SunsetMinutes(file, day)
    case Some(m) => Some(TimeLogic.DateTime(today.year, today.month, today.mday, m / 60, m % 60, 0, 0, 0))
    case None => None
  }
}
