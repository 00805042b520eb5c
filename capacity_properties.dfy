/**
  What `get_capacity_data` promises about the records it returns: which hours a
  day table yields, the occupancy values, which tables contribute nothing, the
  sort key every record gets back from its own fields, and the order of the
  final list.
 */
module CapacityProperties {

  import opened Wrappers
  import opened Text
  import opened Caption
  import opened Lanes
  import opened Sorting
  import opened Capacity

  // ---------------------------------------------------------------------------
  // The hours of a day

  /** The hours from `FirstHour` up to (not including) `hour` that get a record. */
  function HoursBefore(dayOfWeek: string, hour: nat): seq<nat>
    requires FirstHour <= hour <= EndHour
    decreases hour
  {
    if hour == FirstHour then []
    else HoursBefore(dayOfWeek, hour - 1) + (if SkippedHour(dayOfWeek, hour - 1) then [] else [hour - 1])
  }

  /** The operating hours: 06 to 21 on weekdays, 08 to 20 on Saturday and Sunday. */
  function DayHours(dayOfWeek: string): seq<nat> {
    if IsWeekend(dayOfWeek) then seq(13, i => i + 8) else seq(16, i => i + 6)
  }

  lemma DayHoursBound(dayOfWeek: string, i: nat)
    requires i < |DayHours(dayOfWeek)|
    ensures FirstHour <= DayHours(dayOfWeek)[i] < EndHour
  {
  }

  lemma {:induction false} HoursBeforeWeekday(dayOfWeek: string, hour: nat)
    requires !IsWeekend(dayOfWeek) && FirstHour <= hour <= EndHour
    ensures HoursBefore(dayOfWeek, hour) == seq(hour - 6, i => i + 6)
    decreases hour
  {
    if hour > FirstHour {
      HoursBeforeWeekday(dayOfWeek, hour - 1);
    }
  }

  lemma {:induction false} HoursBeforeWeekend(dayOfWeek: string, hour: nat)
    requires IsWeekend(dayOfWeek) && FirstHour <= hour <= EndHour
    ensures HoursBefore(dayOfWeek, hour) == seq(if hour <= 8 then 0 else if hour <= 21 then hour - 8 else 13, i => i + 8)
    decreases hour
  {
    if hour > FirstHour {
      HoursBeforeWeekend(dayOfWeek, hour - 1);
    }
  }

  /** The hour loop emits exactly the operating hours, in increasing order. */
  lemma OperatingHours(dayOfWeek: string)
    ensures HoursBefore(dayOfWeek, EndHour) == DayHours(dayOfWeek)
  {
    if IsWeekend(dayOfWeek) {
      HoursBeforeWeekend(dayOfWeek, EndHour);
    } else {
      HoursBeforeWeekday(dayOfWeek, EndHour);
    }
  }

  /** The records of the hours `hs`, in order. */
  function RecordsOf(date: string, dayOfWeek: string, laneRows: seq<Row>, hs: seq<nat>): (rs: seq<HourRecord>)
    ensures |rs| == |hs|
  {
    if hs == [] then []
    else RecordsOf(date, dayOfWeek, laneRows, hs[..|hs| - 1]) + [HourRecordFor(date, dayOfWeek, laneRows, hs[|hs| - 1])]
  }

  lemma RecordsOfSnoc(date: string, dayOfWeek: string, laneRows: seq<Row>, hs: seq<nat>, h: nat)
    ensures RecordsOf(date, dayOfWeek, laneRows, hs + [h])
            == RecordsOf(date, dayOfWeek, laneRows, hs) + [HourRecordFor(date, dayOfWeek, laneRows, h)]
  {
    assert (hs + [h])[..|hs|] == hs;
  }

  /** The records before `hour` are those of the emitted hours, one each, in order. */
  lemma {:induction false} RecordsMatchHours(date: string, dayOfWeek: string, laneRows: seq<Row>, hour: nat)
    requires FirstHour <= hour <= EndHour
    ensures RecordsBefore(date, dayOfWeek, laneRows, hour) == RecordsOf(date, dayOfWeek, laneRows, HoursBefore(dayOfWeek, hour))
    decreases hour
  {
    if hour > FirstHour {
      var h := hour - 1;
      var rs0, hs0 := RecordsBefore(date, dayOfWeek, laneRows, h), HoursBefore(dayOfWeek, h);
      RecordsMatchHours(date, dayOfWeek, laneRows, h);
      if SkippedHour(dayOfWeek, h) {
        assert RecordsBefore(date, dayOfWeek, laneRows, hour) == rs0 + [];
        assert HoursBefore(dayOfWeek, hour) == hs0 + [];
        assert rs0 + [] == rs0 && hs0 + [] == hs0;
      } else {
        var r := HourRecordFor(date, dayOfWeek, laneRows, h);
        assert RecordsBefore(date, dayOfWeek, laneRows, hour) == rs0 + [r];
        assert HoursBefore(dayOfWeek, hour) == hs0 + [h];
        RecordsOfSnoc(date, dayOfWeek, laneRows, hs0, h);
      }
    }
  }

  /** The record at each position is the record of the hour at that position. */
  lemma {:induction false} RecordsOfAt(date: string, dayOfWeek: string, laneRows: seq<Row>, hs: seq<nat>, i: nat)
    requires i < |hs|
    ensures RecordsOf(date, dayOfWeek, laneRows, hs)[i] == HourRecordFor(date, dayOfWeek, laneRows, hs[i])
  {
    if i < |hs| - 1 {
      var init := hs[..|hs| - 1];
      RecordsOfAt(date, dayOfWeek, laneRows, init, i);
    }
  }

  /** The day and date fields a table's records carry. */
  function TableDay(t: Table): string
    requires t.caption.Some?
  {
    Translate(CaptionWeekday(Strip(t.caption.value)))
  }

  /** A table is used when its caption holds a date and it has a header row and six lane rows. */
  predicate Accepted(t: Table) {
    CaptionDate(t.caption).Some? && |t.rows| >= 7
  }

  /**
    An accepted table yields the records of its operating hours, in hour order, each
    with the formatted caption date, the translated weekday, the hour's time field
    and the occupancy computed from lane rows 1 to 6.
   */
  lemma DayRecordsShape(t: Table)
    requires Accepted(t)
    ensures DayRecords(t)
            == RecordsOf(FormatDate(CaptionDate(t.caption).value), TableDay(t), t.rows[1..7], DayHours(TableDay(t)))
  {
    var date, day := FormatDate(CaptionDate(t.caption).value), TableDay(t);
    DayRecordsAccepted(t);
    RecordsMatchHours(date, day, t.rows[1..7], EndHour);
    OperatingHours(day);
  }

  /** The records of an accepted table are those of the hour loop over its date, weekday and lane rows. */
  lemma DayRecordsAccepted(t: Table)
    requires Accepted(t)
    ensures DayRecords(t) == RecordsBefore(FormatDate(CaptionDate(t.caption).value), TableDay(t), t.rows[1..7], EndHour)
  {
  }

  /** The record at position `i` of an accepted table is the record of its `i`-th operating hour. */
  lemma DayRecordAt(t: Table, i: nat)
    requires Accepted(t) && i < |DayRecords(t)|
    ensures |DayRecords(t)| == |DayHours(TableDay(t))|
    ensures DayRecords(t)[i]
            == HourRecordFor(FormatDate(CaptionDate(t.caption).value), TableDay(t), t.rows[1..7], DayHours(TableDay(t))[i])
  {
    DayRecordsShape(t);
    RecordsOfAt(FormatDate(CaptionDate(t.caption).value), TableDay(t), t.rows[1..7], DayHours(TableDay(t)), i);
  }

  /** `f"{hour:02d}:00:00"` keeps the hour apart: different hours have different time fields. */
  lemma TimeFieldInjective(a: nat, b: nat)
    requires TimeField(a) == TimeField(b)
    ensures a == b
  {
    var pa, pb := ZeroPad2(a), ZeroPad2(b);
    assert |pa| == |pb|;
    assert TimeField(a)[..|pa|] == pa;
    assert TimeField(b)[..|pb|] == pb;
  }

  /** The time fields of the three hours weekends skip. */
  lemma SkippedTimeFields()
    ensures TimeField(6) == "06:00:00" && TimeField(7) == "07:00:00" && TimeField(21) == "21:00:00"
  {
    assert DigitChar(0) == '0' && DigitChar(6) == '6' && DigitChar(7) == '7';
    assert DigitChar(2) == '2' && DigitChar(1) == '1';
    assert ZeroPad2(6) == "06" && ZeroPad2(7) == "07" && ZeroPad2(21) == "21";
  }

  /**
    Sixteen records on a weekday and thirteen on Saturday and Sunday, where the
    06:00, 07:00 and 21:00 records are never produced.
   */
  lemma DayRecordCount(t: Table)
    requires Accepted(t)
    ensures |DayRecords(t)| == if IsWeekend(TableDay(t)) then 13 else 16
    ensures IsWeekend(TableDay(t)) ==>
              forall i :: 0 <= i < |DayRecords(t)| ==>
                DayRecords(t)[i].time != "06:00:00" && DayRecords(t)[i].time != "07:00:00"
                && DayRecords(t)[i].time != "21:00:00"
  {
    DayRecordsShape(t);
    var rs, hours := DayRecords(t), DayHours(TableDay(t));
    if IsWeekend(TableDay(t)) {
      SkippedTimeFields();
      forall i | 0 <= i < |rs|
        ensures rs[i].time != "06:00:00" && rs[i].time != "07:00:00" && rs[i].time != "21:00:00"
      {
        DayRecordAt(t, i);
        var h := hours[i];
        assert 8 <= h <= 20;
        assert rs[i].time == TimeField(h);
        if rs[i].time == "06:00:00" { TimeFieldInjective(h, 6); }
        if rs[i].time == "07:00:00" { TimeFieldInjective(h, 7); }
        if rs[i].time == "21:00:00" { TimeFieldInjective(h, 21); }
      }
    }
  }

  // ---------------------------------------------------------------------------
  // Occupancy

  /** The seven occupancies six lanes allow: `(n * 135) // 6` for n = 0..6. */
  const OccupancyLevels: set<int> := {0, 22, 45, 67, 90, 112, 135}

  /** With six lanes the occupancy is one of the seven multiples of 135/6, rounded down. */
  lemma OccupancyValues(date: string, dayOfWeek: string, laneRows: seq<Row>, hour: nat)
    requires |laneRows| == LaneCount
    ensures HourRecordFor(date, dayOfWeek, laneRows, hour).maxOccupancy in OccupancyLevels
  {
    var n := FreeCount(laneRows, ZeroPad2(hour));
    assert n <= 6;
    if n == 0 {} else if n == 1 {} else if n == 2 {} else if n == 3 {} else if n == 4 {} else if n == 5 {} else {}
  }

  /** An hour for which no lane is free is still reported, with occupancy 0. */
  lemma NoFreeLaneZero(date: string, dayOfWeek: string, laneRows: seq<Row>, hour: nat)
    requires forall k :: 0 <= k < |laneRows| ==> !LaneFree(laneRows[k], ZeroPad2(hour))
    ensures HourRecordFor(date, dayOfWeek, laneRows, hour).maxOccupancy == 0
  {
    FreeCountZero(laneRows, ZeroPad2(hour));
  }

  /** When all six lanes are free the occupancy is the full 135. */
  lemma AllLanesFreeFull(date: string, dayOfWeek: string, laneRows: seq<Row>, hour: nat)
    requires |laneRows| == LaneCount
    requires forall k :: 0 <= k < |laneRows| ==> LaneFree(laneRows[k], ZeroPad2(hour))
    ensures HourRecordFor(date, dayOfWeek, laneRows, hour).maxOccupancy == TotalCapacity
  {
    FreeCountAll(laneRows, ZeroPad2(hour));
  }

  /** Every record has one of the seven occupancies. */
  predicate AllowedOccupancies(rs: seq<HourRecord>) {
    forall i :: 0 <= i < |rs| ==> rs[i].maxOccupancy in OccupancyLevels
  }

  /** Every record a table yields has one of the seven occupancies. */
  lemma TableOccupancies(t: Table)
    ensures AllowedOccupancies(DayRecords(t))
  {
    if Accepted(t) {
      AcceptedTableOccupancies(t);
    } else {
      SkippedTableIff(t);
    }
  }

  /** An accepted table's records are those of a full hour loop over six lane rows. */
  lemma AcceptedTableOccupancies(t: Table)
    requires Accepted(t)
    ensures AllowedOccupancies(DayRecords(t))
  {
    DayRecordsAccepted(t);
    LoopOccupancies(DayRecords(t), FormatDate(CaptionDate(t.caption).value), TableDay(t), t.rows[1..7]);
  }

  /** The records of a full hour loop over six lane rows have one of the seven occupancies. */
  lemma LoopOccupancies(rs: seq<HourRecord>, date: string, dayOfWeek: string, laneRows: seq<Row>)
    requires |laneRows| == LaneCount && rs == RecordsBefore(date, dayOfWeek, laneRows, EndHour)
    ensures AllowedOccupancies(rs)
  {
    RecordsBeforeOccupancies(date, dayOfWeek, laneRows, EndHour);
  }

  /** With six lane rows, every record the hour loop builds has one of the seven occupancies. */
  lemma {:induction false} RecordsBeforeOccupancies(date: string, dayOfWeek: string, laneRows: seq<Row>, hour: nat)
    requires |laneRows| == LaneCount && FirstHour <= hour <= EndHour
    ensures AllowedOccupancies(RecordsBefore(date, dayOfWeek, laneRows, hour))
    decreases hour
  {
    if hour > FirstHour {
      var h := hour - 1;
      var step := if SkippedHour(dayOfWeek, h) then [] else [HourRecordFor(date, dayOfWeek, laneRows, h)];
      RecordsBeforeOccupancies(date, dayOfWeek, laneRows, h);
      RecordsBeforeNext(date, dayOfWeek, laneRows, h);
      OccupancyValues(date, dayOfWeek, laneRows, h);
      assert AllowedOccupancies(step);
      AllowedOccupanciesConcat(RecordsBefore(date, dayOfWeek, laneRows, h), step);
    }
  }

  lemma AllowedOccupanciesConcat(a: seq<HourRecord>, b: seq<HourRecord>)
    requires AllowedOccupancies(a) && AllowedOccupancies(b)
    ensures AllowedOccupancies(a + b)
  {
    forall i | 0 <= i < |a + b| ensures (a + b)[i].maxOccupancy in OccupancyLevels {
      if i < |a| {
        assert (a + b)[i] == a[i];
      } else {
        assert (a + b)[i] == b[i - |a|];
      }
    }
  }

  /** Every record the table loop emits has one of the seven occupancies. */
  lemma {:induction false} EmittedOccupancies(tables: seq<Table>)
    ensures AllowedOccupancies(Emitted(tables))
  {
    if tables != [] {
      var init, t := tables[..|tables| - 1], tables[|tables| - 1];
      EmittedOccupancies(init);
      TableOccupancies(t);
      AllowedOccupanciesConcat(Emitted(init), DayRecords(t));
    }
  }

  /** Every record `get_capacity_data` returns has one of the seven occupancies. */
  lemma ResultOccupancies(tables: seq<Table>)
    ensures forall r :: r in SortResults(Emitted(tables)) ==> r.maxOccupancy in OccupancyLevels
  {
    var rs := Emitted(tables);
    EmittedOccupancies(tables);
    if Decorate(rs).Some? {
      SortResultsOrdered(rs);
      forall r | r in SortResults(rs) ensures r.maxOccupancy in OccupancyLevels {
        assert r in multiset(SortResults(rs));
        assert r in multiset(rs);
        var i :| 0 <= i < |rs| && rs[i] == r;
      }
    }
  }

  // ---------------------------------------------------------------------------
  // Which tables contribute

  lemma {:induction false} ConcatMapConcat<T, U>(f: T -> seq<U>, a: seq<T>, b: seq<T>)
    ensures ConcatMap(f, a + b) == ConcatMap(f, a) + ConcatMap(f, b)
    decreases |b|
  {
    if b == [] {
      assert a + b == a;
    } else {
      var init := b[..|b| - 1];
      assert (a + b)[..|a + b| - 1] == a + init;
      ConcatMapConcat(f, a, init);
    }
  }

  /** The records of two lists of tables, one after the other, are those of each list in turn. */
  lemma EmittedConcat(a: seq<Table>, b: seq<Table>)
    ensures Emitted(a + b) == Emitted(a) + Emitted(b)
  {
    ConcatMapConcat(DayRecords, a, b);
  }

  /**
    A table without a caption, without a date in its caption, or with fewer than
    seven rows contributes nothing, and every other table contributes records.
   */
  lemma SkippedTableIff(t: Table)
    ensures DayRecords(t) == [] <==> !Accepted(t)
  {
    if Accepted(t) {
      DayRecordCount(t);
    }
  }

  /** `CaptionDate` is absent exactly when there is no caption or no position where the date pattern matches. */
  lemma CaptionDateNone(caption: Option<string>)
    ensures CaptionDate(caption).None? <==>
            caption.None? || forall j :: 0 <= j <= |Strip(caption.value)| ==> DateAt(Strip(caption.value), j).None?
  {
    if caption.Some? {
      var text := Strip(caption.value);
      var pos := SearchDate(text, 0);
      SearchDateLeftmost(text, 0);
      if pos.Some? {
        assert DateAt(text, pos.value).Some?;
      }
    }
  }

  /** A skipped table leaves the emitted records of the others as they are. */
  lemma SkippedTableContributesNothing(before: seq<Table>, t: Table, after: seq<Table>)
    requires !Accepted(t)
    ensures Emitted(before + [t] + after) == Emitted(before) + Emitted(after)
  {
    SkippedTableIff(t);
    assert Emitted(before + [t]) == Emitted(before) by {
      assert (before + [t])[..|before|] == before;
    }
    EmittedConcat(before + [t], after);
  }

  /** Only the rows 1 to 6 matter: the header row and any rows after the sixth lane are ignored. */
  lemma OnlyLaneRowsMatter(caption: Option<string>, rows: seq<Row>, rows': seq<Row>)
    requires |rows| >= 7 && |rows'| >= 7 && rows[1..7] == rows'[1..7]
    ensures DayRecords(Table(caption, rows)) == DayRecords(Table(caption, rows'))
  {
    var t, t' := Table(caption, rows), Table(caption, rows');
    if CaptionDate(caption).Some? {
      DayRecordsAccepted(t);
      DayRecordsAccepted(t');
    }
  }

  // ---------------------------------------------------------------------------
  // The sort key of an emitted record

  /** The calendar date the caption groups denote, as `datetime` accepts it. */
  predicate CalendarDate(g: DateGroups)
    requires WellFormed(g)
  {
    ValidDateTime(ParseNat(g.year), ParseNat(g.month), ParseNat(g.day), 0)
  }

  /** Splitting the formatted date on '.' gives back the padded day, the padded month and the year. */
  lemma SplitFormattedDate(g: DateGroups)
    requires WellFormed(g)
    ensures Split(FormatDate(g), '.') == [ZeroPad2(ParseNat(g.day)), ZeroPad2(ParseNat(g.month)), g.year]
  {
    var dd, mm := ZeroPad2(ParseNat(g.day)), ZeroPad2(ParseNat(g.month));
    assert '.' !in dd && '.' !in mm && '.' !in g.year by {
      assert forall k :: 0 <= k < |g.year| ==> IsDigit(g.year[k]);
    }
    assert FormatDate(g) == dd + ['.'] + (mm + ['.'] + g.year);
    SplitAfterPiece(dd, mm + ['.'] + g.year, '.');
    SplitAfterPiece(mm, g.year, '.');
    SplitWithoutSep(g.year, '.');
  }

  /** The hour `sort_key` reads back from a time field is the hour it was made from. */
  lemma SplitTimeField(hour: nat)
    ensures ParseInt(Split(TimeField(hour), ':')[0]) == Some(hour)
  {
    var hh := ZeroPad2(hour);
    assert ':' !in hh;
    assert TimeField(hour) == hh + [':'] + "00:00";
    SplitAfterPiece(hh, "00:00", ':');
  }

  /**
    `sort_key` recovers (year, month, day, hour) from the fields the loop wrote, and
    raises exactly when the caption's date is not a calendar date.
   */
  lemma SortKeyOfRecord(g: DateGroups, dayOfWeek: string, laneRows: seq<Row>, hour: nat)
    requires WellFormed(g) && hour <= 23
    ensures var key := SortKey(HourRecordFor(FormatDate(g), dayOfWeek, laneRows, hour));
            if CalendarDate(g) then key == Some((ParseNat(g.year), ParseNat(g.month), ParseNat(g.day), hour))
            else key.None?
  {
    SplitFormattedDate(g);
    SplitTimeField(hour);
    assert ParseInt(g.year) == Some(ParseNat(g.year));
  }

  /** One accepted table whose caption date is not a calendar date empties the whole result. */
  lemma InvalidDateEmptiesResult(tables: seq<Table>, ti: nat)
    requires ti < |tables| && Accepted(tables[ti]) && !CalendarDate(CaptionDate(tables[ti].caption).value)
    ensures SortResults(Emitted(tables)) == []
  {
    EmittedSplitAt(tables, ti);
    FirstRecordHasNoKey(tables[ti]);
    var prefix := Emitted(tables[..ti]);
    assert Emitted(tables)[|prefix|] == DayRecords(tables[ti])[0];
  }

  lemma TakeDrop<T>(s: seq<T>, i: nat)
    requires i <= |s|
    ensures s[..i] + s[i..] == s
  {
  }

  /** The records of `tables[ti]` sit between those of the tables before and after it. */
  lemma EmittedSplitAt(tables: seq<Table>, ti: nat)
    requires ti < |tables|
    ensures Emitted(tables) == Emitted(tables[..ti]) + DayRecords(tables[ti]) + Emitted(tables[ti + 1..])
  {
    TakeDrop(tables, ti + 1);
    EmittedConcat(tables[..ti + 1], tables[ti + 1..]);
    EmittedPrefix(tables, ti);
  }

  lemma EmittedPrefix(tables: seq<Table>, ti: nat)
    requires ti < |tables|
    ensures Emitted(tables[..ti + 1]) == Emitted(tables[..ti]) + DayRecords(tables[ti])
  {
    assert tables[..ti + 1][..ti] == tables[..ti];
  }

  /** The first record of a table whose date is not a calendar date has no sort key. */
  lemma FirstRecordHasNoKey(t: Table)
    requires Accepted(t) && !CalendarDate(CaptionDate(t.caption).value)
    ensures |DayRecords(t)| > 0 && SortKey(DayRecords(t)[0]).None?
  {
    DayRecordCount(t);
    DayRecordAt(t, 0);
    SortKeyOfRecord(CaptionDate(t.caption).value, TableDay(t), t.rows[1..7], DayHours(TableDay(t))[0]);
  }

  /** Every record of a table carries a sort key. */
  predicate AllKeyed(rs: seq<HourRecord>) {
    forall i :: 0 <= i < |rs| ==> SortKey(rs[i]).Some?
  }

  lemma AllKeyedConcat(a: seq<HourRecord>, b: seq<HourRecord>)
    requires AllKeyed(a) && AllKeyed(b)
    ensures AllKeyed(a + b)
  {
    forall i | 0 <= i < |a + b| ensures SortKey((a + b)[i]).Some? {
      if i < |a| {
        assert (a + b)[i] == a[i];
      } else {
        assert (a + b)[i] == b[i - |a|];
      }
    }
  }

  /** The records of a table whose date (if it is used at all) is a calendar date all have sort keys. */
  lemma TableRecordsKeyed(t: Table)
    requires Accepted(t) ==> CalendarDate(CaptionDate(t.caption).value)
    ensures AllKeyed(DayRecords(t))
  {
    if Accepted(t) {
      var g := CaptionDate(t.caption).value;
      forall i | 0 <= i < |DayRecords(t)| ensures SortKey(DayRecords(t)[i]).Some? {
        RecordKeyed(t, i);
      }
    } else {
      SkippedTableIff(t);
    }
  }

  lemma RecordKeyed(t: Table, i: nat)
    requires Accepted(t) && CalendarDate(CaptionDate(t.caption).value) && i < |DayRecords(t)|
    ensures SortKey(DayRecords(t)[i]).Some?
  {
    var g, day := CaptionDate(t.caption).value, TableDay(t);
    DayRecordAt(t, i);
    var h := DayHours(day)[i];
    DayHoursBound(day, i);
    SortKeyOfRecord(g, day, t.rows[1..7], h);
  }

  /** When every accepted table's date is a calendar date, every emitted record has a sort key. */
  lemma {:induction false} ValidDatesHaveKeys(tables: seq<Table>)
    requires forall t :: t in tables && Accepted(t) ==> CalendarDate(CaptionDate(t.caption).value)
    ensures Decorate(Emitted(tables)).Some?
  {
    EmittedKeyed(tables);
  }

  lemma {:induction false} EmittedKeyed(tables: seq<Table>)
    requires forall t :: t in tables && Accepted(t) ==> CalendarDate(CaptionDate(t.caption).value)
    ensures AllKeyed(Emitted(tables))
  {
    if tables != [] {
      var init, t := tables[..|tables| - 1], tables[|tables| - 1];
      assert forall u :: u in init ==> u in tables;
      EmittedKeyed(init);
      TableRecordsKeyed(t);
      AllKeyedConcat(Emitted(init), DayRecords(t));
    }
  }

  // ---------------------------------------------------------------------------
  // The order of the final list

  /** Decorating the sorted records gives back the sorted pairs. */
  lemma {:induction false} KeysSurviveSort(rs: seq<HourRecord>)
    requires Decorate(rs).Some?
    ensures Decorate(Values(StableSort(Decorate(rs).value))) == Some(StableSort(Decorate(rs).value))
  {
    var keyed := Decorate(rs).value;
    var ss := StableSort(keyed);
    var out := Values(ss);
    StableSortPermutation(keyed);
    forall i | 0 <= i < |ss| ensures SortKey(ss[i].1) == Some(ss[i].0) {
      assert ss[i] in multiset(keyed);
      var j :| 0 <= j < |keyed| && keyed[j] == ss[i];
    }
    assert Decorate(out).Some?;
    assert Decorate(out).value == ss;
  }

  /**
    When every record has a sort key, the result is a permutation of the emitted
    records, ordered by (year, month, day, hour), and records with equal keys keep
    their emission order.
   */
  lemma SortResultsOrdered(rs: seq<HourRecord>)
    requires Decorate(rs).Some?
    ensures var out := SortResults(rs);
            multiset(out) == multiset(rs)
            && Decorate(out).Some?
            && (forall i, j :: 0 <= i < j < |out| ==> KeyLe(SortKey(out[i]).value, SortKey(out[j]).value))
            && forall k :: WithKey(Decorate(out).value, k) == WithKey(Decorate(rs).value, k)
  {
    var keyed := Decorate(rs).value;
    var ss := StableSort(keyed);
    KeysSurviveSort(rs);
    StableSortSorted(keyed);
    StableSortValues(keyed);
    assert Values(keyed) == rs;
    forall k ensures WithKey(ss, k) == WithKey(keyed, k) {
      StableSortKeepsOrder(keyed, k);
    }
  }

  /** Any ordered, order-keeping arrangement of the records is the one `SortResults` returns. */
  lemma SortResultsUnique(rs: seq<HourRecord>, out: seq<HourRecord>)
    requires Decorate(rs).Some? && Decorate(out).Some?
    requires Sorted(Decorate(out).value)
    requires forall k :: WithKey(Decorate(out).value, k) == WithKey(Decorate(rs).value, k)
    ensures out == SortResults(rs)
  {
    StableSortUnique(Decorate(rs).value, Decorate(out).value);
    assert Values(Decorate(out).value) == out;
  }
}
