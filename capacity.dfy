/**
  The table interpreter of `get_capacity_data` (capacity.py, lines 38-130): every
  day table of one week's schedule page becomes one record per operating hour,
  `[date, weekday, "HH:00:00", max_occupancy]`, and the records of all days are
  sorted by date and hour.

  The page itself is not fetched or parsed here: the input is the list of tables as
  the HTML parser yields them (caption text, and the `td` cells of each `tr`).
 */
module Capacity {

  import opened Wrappers
  import opened Text
  import opened Caption
  import opened Lanes
  import opened Sorting

  /** A `table` element: the text of its `caption`, if it has one, and its `tr` rows. */
  datatype Table = Table(caption: Option<string>, rows: seq<Row>)

  /** One output row: `[formatted_date, day_of_week, time, max_occupancy]`. */
  datatype HourRecord = HourRecord(date: string, dayOfWeek: string, time: string, maxOccupancy: int)

  /** `range(6, 22)`: the first operating hour and the hour after the last. */
  const FirstHour: nat := 6
  const EndHour: nat := 22

  /** 135 swimmers in all, spread over 6 lanes. */
  const TotalCapacity: nat := 135
  const LaneCount: nat := 6

  /** Weekends skip 06:00, 07:00 and 21:00 (capacity.py, line 74). */
  predicate SkippedHour(dayOfWeek: string, hour: nat) {
    IsWeekend(dayOfWeek) && (hour == 6 || hour == 7 || hour == 21)
  }

  /** `(available_lanes * 135) // 6`. */
  function Occupancy(available: nat): nat {
    available * TotalCapacity / LaneCount
  }

  /** `f"{hour:02d}:00:00"`. */
  function TimeField(hour: nat): string {
    ZeroPad2(hour) + ":00:00"
  }

  /** The record emitted for `hour` of a day whose lane rows are `laneRows`. */
  function HourRecordFor(date: string, dayOfWeek: string, laneRows: seq<Row>, hour: nat): HourRecord {
    HourRecord(date, dayOfWeek, TimeField(hour), Occupancy(FreeCount(laneRows, ZeroPad2(hour))))
  }

  /** The records of the hours from `FirstHour` up to (not including) `hour`, in order. */
  function RecordsBefore(date: string, dayOfWeek: string, laneRows: seq<Row>, hour: nat): seq<HourRecord>
    requires FirstHour <= hour <= EndHour
    decreases hour
  {
    if hour == FirstHour then []
    else
      RecordsBefore(date, dayOfWeek, laneRows, hour - 1)
      + (if SkippedHour(dayOfWeek, hour - 1) then [] else [HourRecordFor(date, dayOfWeek, laneRows, hour - 1)])
  }

  /** The date groups found in a caption, or None when there is no caption or no date in it. */
  function CaptionDate(caption: Option<string>): (g: Option<DateGroups>)
    ensures g.Some? ==> WellFormed(g.value)
  {
    if caption.None? then None
    else
      var text := Strip(caption.value);
      match SearchDate(text, 0)
      case None => None
      case Some(pos) => Some(Groups(text, DateAt(text, pos).value))
  }

  /** The weekday token after the en dash, or "" when there is none (capacity.py, lines 55-56). */
  function CaptionWeekday(text: string): string {
    match SearchWeekday(text, 0)
    case None => ""
    case Some(pos) => WordGroup(text, WeekdayAt(text, pos).value)
  }

  /** The records one table contributes. */
  function DayRecords(t: Table): seq<HourRecord> {
    match CaptionDate(t.caption)
    case None => []
    case Some(g) =>
      if |t.rows| < 7 then []
      else
        var dayOfWeek := Translate(CaptionWeekday(Strip(t.caption.value)));
        RecordsBefore(FormatDate(g), dayOfWeek, t.rows[1..7], EndHour)
  }

  /** `f(xs[0]) + f(xs[1]) + ...`: the lists `f` gives for the elements of `xs`, one after another. */
  function ConcatMap<T, U>(f: T -> seq<U>, xs: seq<T>): seq<U> {
    if xs == [] then []
    else ConcatMap(f, xs[..|xs| - 1]) + f(xs[|xs| - 1])
  }

  /** The records of all tables, in emission order (before sorting). */
  function Emitted(tables: seq<Table>): seq<HourRecord> {
    ConcatMap(DayRecords, tables)
  }

  predicate IsLeapYear(y: int) {
    y % 4 == 0 && (y % 100 != 0 || y % 400 == 0)
  }

  function DaysInMonth(y: int, m: int): int
    requires 1 <= m <= 12
  {
    if m == 2 then (if IsLeapYear(y) then 29 else 28)
    else if m == 4 || m == 6 || m == 9 || m == 11 then 30
    else 31
  }

  /** The arguments `datetime(year, month, day, hour)` accepts without raising. */
  predicate ValidDateTime(y: int, m: int, d: int, h: int) {
    1 <= y <= 9999 && 1 <= m <= 12 && 1 <= d <= DaysInMonth(y, m) && 0 <= h <= 23
  }

  /**
    `sort_key`: the date field split on '.', the hour taken from the time field, and
    the datetime they make. None stands for the exception `int`, the unpacking or
    `datetime` raises.
   */
  function SortKey(r: HourRecord): Option<Key> {
    var dateParts := Split(r.date, '.');
    if |dateParts| != 3 then None
    else
      var d, m, y := ParseInt(dateParts[0]), ParseInt(dateParts[1]), ParseInt(dateParts[2]);
      var h := ParseInt(Split(r.time, ':')[0]);
      if d.None? || m.None? || y.None? || h.None? then None
      else if !ValidDateTime(y.value, m.value, d.value, h.value) then None
      else Some((y.value, m.value, d.value, h.value))
  }

  /** Every record paired with its sort key; None when some key cannot be computed. */
  function Decorate(rs: seq<HourRecord>): (r: Option<seq<(Key, HourRecord)>>)
    ensures r.Some? <==> forall i :: 0 <= i < |rs| ==> SortKey(rs[i]).Some?
    ensures r.Some? ==> |r.value| == |rs| && forall i :: 0 <= i < |rs| ==> r.value[i] == (SortKey(rs[i]).value, rs[i])
  {
    if forall i :: 0 <= i < |rs| ==> SortKey(rs[i]).Some? then
      Some(seq(|rs|, i requires 0 <= i < |rs| => (SortKey(rs[i]).value, rs[i])))
    else None
  }

  /**
    `results.sort(key=sort_key)` inside the blanket `except`: the stably sorted
    records, or the empty list when a key raises.
   */
  function SortResults(rs: seq<HourRecord>): seq<HourRecord> {
    match Decorate(rs)
    case None => []
    case Some(keyed) => Values(StableSort(keyed))
  }

  /** One step of `RecordsBefore`: the hour `hour` adds its record unless it is skipped. */
  lemma RecordsBeforeNext(date: string, dayOfWeek: string, laneRows: seq<Row>, hour: nat)
    requires FirstHour <= hour < EndHour
    ensures RecordsBefore(date, dayOfWeek, laneRows, hour + 1)
            == RecordsBefore(date, dayOfWeek, laneRows, hour)
               + (if SkippedHour(dayOfWeek, hour) then [] else [HourRecordFor(date, dayOfWeek, laneRows, hour)])
  {
  }

  /** The record of one operating hour (lines 78-120): its time field and the occupancy of the free lanes. */
  method MakeHourRecord(date: string, dayOfWeek: string, laneRows: seq<Row>, hour: nat) returns (record: HourRecord)
    ensures record == HourRecordFor(date, dayOfWeek, laneRows, hour)
  {
    var hourStr := ZeroPad2(hour);
    var time := hourStr + ":00:00";
    var available := CountFreeLanes(laneRows, hourStr);
    var maxOccupancy := (available * TotalCapacity) / LaneCount;
    record := HourRecord(date, dayOfWeek, time, maxOccupancy);
  }

  /** The hour loop of lines 70-120 for one day table: one record per hour the day is open. */
  method HourlyRecords(date: string, dayOfWeek: string, laneRows: seq<Row>) returns (records: seq<HourRecord>)
    ensures records == RecordsBefore(date, dayOfWeek, laneRows, EndHour)
  {
    records := [];
    for hour := FirstHour to EndHour
      invariant records == RecordsBefore(date, dayOfWeek, laneRows, hour)
    {
      RecordsBeforeNext(date, dayOfWeek, laneRows, hour);
      if SkippedHour(dayOfWeek, hour) {
        continue;
      }
      var record := MakeHourRecord(date, dayOfWeek, laneRows, hour);
      records := records + [record];
    }
  }

  /**
    The body of the table loop of lines 42-120 for one table: the records it adds, or
    none when it has no caption, no date in its caption or fewer than seven rows.
   */
  method TableRecords(table: Table) returns (dayResults: seq<HourRecord>)
    ensures dayResults == DayRecords(table)
  {
    dayResults := [];
    if table.caption.None? {
      return;
    }
    var captionText := Strip(table.caption.value);
    var dateMatch := SearchDate(captionText, 0);
    if dateMatch.None? {
      return;
    }
    var g := Groups(captionText, DateAt(captionText, dateMatch.value).value);
    var formattedDate := FormatDate(g);
    var dayMatch := SearchWeekday(captionText, 0);
    var czechDay := if dayMatch.Some? then WordGroup(captionText, WeekdayAt(captionText, dayMatch.value).value) else "";
    var dayOfWeek := Translate(czechDay);
    var rows := table.rows;
    if |rows| < 7 {
      return;
    }
    var laneRows := rows[1..7];
    dayResults := HourlyRecords(formattedDate, dayOfWeek, laneRows);
  }

  /** `get_capacity_data` after the page has been fetched and parsed into `tables`. */
  method GetCapacityData(tables: seq<Table>) returns (results: seq<HourRecord>)
    ensures results == SortResults(Emitted(tables))
  {
    results := [];
    for ti := 0 to |tables|
      invariant results == Emitted(tables[..ti])
    {
      assert tables[..ti + 1][..ti] == tables[..ti];
      var dayResults := TableRecords(tables[ti]);
      results := results + dayResults;
    }
    assert tables[..|tables|] == tables;
    var keyed := Decorate(results);
    if keyed.None? {
      return [];
    }
    results := Values(StableSort(keyed.value));
  }
}
