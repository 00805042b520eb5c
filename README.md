# Pool capacity extractor — a Dafny model of `get_capacity_data`

The pool-occupancy tracker reads the weekly lane schedule of an indoor swimming
hall. The schedule is an HTML page with one `table` per day. `get_capacity_data`
(capacity.py) turns it into records `[date, weekday, "HH:00:00", max_occupancy]`,
one per operating hour. This project models that function after the page has
been fetched and parsed. The input is the list of tables, in document order. Each
table is the text of its `caption`, if it has one, plus its `tr` rows. Each row is
its `td` cells, with their class tokens and `colspan`.

The model follows the source step by step:

- **Caption** (`caption.dfy`).
  - The caption text is stripped of whitespace (`Text.Strip`).
  - The date pattern `(\d{1,2})\.\s*(\d{1,2})\.\s*(\d{4})` is searched for. It is
    modelled twice: as a relation (`DatePatternAt`) and as a deterministic scanner
    (`DateAt`/`SearchDate`). The lemmas prove the scanner finds exactly the leftmost
    match that `re.search` reports.
  - The date is reformatted as `DD.MM.YYYY`.
  - The weekday is read after the en dash by `–\s*(\w+)`, modelled the same way.
    It is translated from Czech with the seven-entry `day_translations` table.
- **Lanes** (`lanes.dfy`). For one hour and one lane row, the scan over the slot
  cells finds the first cell whose class token starts with `col-HH-`. A full-hour
  cell (`colspan="2"`) is free when it is not reserved. A half-hour cell is free
  when it and the next cell are both unreserved. The free lanes are then counted.
- **Capacity** (`capacity.dfy`).
  - The table loop, the hour loop over 06..21 with the weekend skip of 06, 07 and
    21, and the occupancy `(n*135)//6` are written as methods. Each method is proved
    equal to a specification function.
  - The sort key rebuilds `datetime(year, month, day, hour)` from the record's own
    fields. `SortKey` returns `None` where `int()` or `datetime` would raise.
  - The stable sort runs under the blanket `except`. If any key raises, the result
    is `[]`.
- **Sorting** (`sorting.dfy`). This is the stable sort on (key, record) pairs. It is
  proved ordered, a permutation, and order-keeping for equal keys. It is also proved
  to be the only sequence with those three properties.
- **CapacityProperties** (`capacity_properties.dfy`). These are the properties of
  the whole function:
  - which hours a day yields (16 on weekdays, 13 on weekends);
  - the possible occupancy values;
  - which tables contribute nothing;
  - that every record's sort key recovers its date and hour;
  - that one non-calendar date empties the result;
  - that the final list is the stable chronological sort of the emitted records.

Python's semantics are written out where they matter:
- `\s` is the `str.isspace` set.
- `int()` fails on an empty or non-numeric string (`Text.ParseInt` returns `None`).
- `f"{n:02d}"` pads to two digits.
- `datetime` rejects month 13, 30 February, year 0 and so on.
- A BeautifulSoup `Tag` is always truthy, so `if hour_cell:` and `elif next_cell:`
  only test whether the cell was found.

How capacity.py treats weekdays and invalid tables:
- The weekday is kept as a free string. A token missing from `day_translations`,
  or an absent weekday (""), is kept as it is (line 59). Only the translated names
  "Saturday" and "Sunday" trigger the weekend skip.
- A table without a caption, without a date in its caption, or with fewer than
  seven rows is skipped (lines 41-48, 63-64). A date that is not a calendar date
  (say 31.02.2025) makes `sort_key` raise, and the whole result is then `[]`
  (lines 128-136).

## Model

| member | source | states |
|---|---|---|
| Text.Strip | capacity.py:44 | the result is a slice of the caption text. Everything before and after the slice is whitespace. The slice is empty or begins and ends with a non-whitespace character. |
| Text.SpacesFromRun | capacity.py:45 | the run a greedy `\s*` takes is all whitespace and ends at the end of the text or at a non-whitespace character |
| Text.SpacesFromExact | capacity.py:45 | a whitespace run of length w followed by a non-whitespace character is exactly what `\s*` takes |
| Text.WordCharsFromRun | capacity.py:55 | the run a greedy `\w+` takes is all word characters and cannot be extended |
| Text.WordCharsFromLongest | capacity.py:55 | every run of word characters starting at the same place is at most as long as the greedy one |
| Text.ParseInt | capacity.py:125-127 | `int(s)` succeeds exactly when s is a non-empty string of digits; its value has no more digits than s |
| Text.DecimalDigits | capacity.py:52 | `str(n)` is a digit string denoting n; it has one digit exactly when n < 10 and two exactly when 10 <= n < 100 |
| Text.ZeroPad2 | capacity.py:71 | `f"{n:02d}"` is a digit string denoting n; it is exactly two characters long if and only if n < 100 |
| Text.ZeroPad2OfDigits | capacity.py:52 | `f"{int(g):02d}"` for a one- or two-digit group g is g with a leading '0' added when g has one digit, and g itself otherwise |
| Text.Split | capacity.py:125 | `s.split(sep)` has at least one piece and no piece contains sep |
| Text.SplitWithoutSep | capacity.py:125-127 | a string without the separator splits into itself alone |
| Text.SplitAfterPiece | capacity.py:125-127 | splitting `a + sep + b`, where a has no separator, gives a followed by the pieces of b |
| Caption.Groups | capacity.py:50 | the three groups of a date match are one or two digits, one or two digits, and four digits |
| Caption.NumberDotAt | capacity.py:45 | a found `\d{1,2}\.` is one or two digits followed by a dot, inside the text |
| Caption.DateAt | capacity.py:45 | a match found at i starts at i and its groups lie in order inside the text, holding the required digits |
| Caption.DateAtComplete | capacity.py:45 | every way the date pattern can match at i is the match the scanner finds there (the pattern has at most one match per position) |
| Caption.DateAtSound | capacity.py:45 | whatever the scanner finds at i is a match of the date pattern there, with the same group positions |
| Caption.SearchDate | capacity.py:45 | a reported position is at or after the start and the pattern matches there |
| Caption.SearchDateLeftmost | capacity.py:45-48 | the reported position is the leftmost match; no position is reported only when the pattern matches nowhere |
| Caption.FormatDateShape | capacity.py:50-52 | the date field is ten characters `DD.MM.YYYY`: day and month are the captured digits, padded with '0' when a single digit was captured, and the year is exactly as captured |
| Caption.WeekdayAt | capacity.py:55 | a match found at i has a non-empty group lying after the dash, inside the text |
| Caption.WeekdayAtComplete | capacity.py:55-56 | when the weekday pattern matches at i at all, the scanner finds a match there whose group starts after the same blanks and is the longest possible: it cannot be extended |
| Caption.WeekdayAtSound | capacity.py:55-56 | whatever the scanner finds at i is a match of the weekday pattern there |
| Caption.SearchWeekday | capacity.py:55 | a reported position is at or after the start and the pattern matches there |
| Caption.SearchWeekdayLeftmost | capacity.py:55-56 | the reported position is the leftmost match; none is reported only when the pattern matches nowhere (the weekday is then "") |
| Caption.TranslateTable | capacity.py:28-36 | the seven Czech day names map to Monday..Sunday; every other token, "" included, is kept unchanged |
| Caption.WeekendIff | capacity.py:74 | a day is treated as a weekend exactly when its token is Sobota, Neděle, Saturday or Sunday |
| Lanes.FirstWithPrefix | capacity.py:92 | the index found is that of one of the class tokens |
| Lanes.FirstWithPrefixSpec | capacity.py:92 | the first class token with prefix `col-HH-` is found; none is found only when no token has the prefix |
| Lanes.FirstHourCell | capacity.py:90-99 | the hour cell found lies at or after the scan start |
| Lanes.FirstHourCellSpec | capacity.py:90-99 | the scan stops at the first cell of the hour; it finds none only when no cell belongs to the hour |
| Lanes.FirstHourCellFrom | capacity.py:90-99 | skipping leading cells that do not belong to the hour does not change what the scan finds |
| Lanes.LaneFreeRule | capacity.py:84-112 | a lane is free if and only if some slot cell is the first cell of the hour and either it is a full-hour unreserved cell, or it has a next cell and neither is reserved |
| Lanes.NoCellOrLastCellNotFree | capacity.py:97-112 | a lane with no cell of the hour, or whose half-hour cell is the last one, is not free |
| Lanes.AllReservedNotFree | capacity.py:101-112 | a lane whose slot cells are all reserved is not free |
| Lanes.NoneReservedFree | capacity.py:101-112 | a lane with no reserved cell is free once its hour cell is found and is full-hour or not last |
| Lanes.LaneIsFree | capacity.py:84-112 | the cell loop with its early `break` and the availability test compute exactly `LaneFree` |
| Lanes.FreeCount | capacity.py:80-115 | at most as many lanes are free as there are lanes |
| Lanes.FreeCountZero | capacity.py:80-115 | the count is 0 exactly when no lane is free |
| Lanes.FreeCountAll | capacity.py:80-115 | the count equals the number of lanes exactly when every lane is free |
| Lanes.CountFreeLanes | capacity.py:80-115 | the lane loop counts exactly the free lanes (`FreeCount`) |
| Sorting.Values | capacity.py:130 | dropping the keys keeps every record in its position |
| Sorting.Insert | capacity.py:130 | insertion adds exactly one element |
| Sorting.StableSortSorted | capacity.py:130 | the sorted pairs are in non-decreasing key order |
| Sorting.StableSortPermutation | capacity.py:130 | the sorted pairs are a permutation of the input |
| Sorting.StableSortKeepsOrder | capacity.py:130 | for every key, the elements with that key keep their input order (stability) |
| Sorting.StableSortUnique | capacity.py:130 | any sequence that is sorted and keeps every key's elements in input order is the stable sort's result |
| Sorting.StableSortValues | capacity.py:130 | the records left after dropping the keys are a permutation of the input records |
| Capacity.CaptionDate | capacity.py:40-50 | the groups taken from a caption are well formed |
| Capacity.Decorate | capacity.py:123-130 | keys are attached exactly when every record has a sort key; then record i is paired with its own key |
| Capacity.MakeHourRecord | capacity.py:77-120 | one hour's record carries the time field `HH:00:00` and the occupancy of the free lanes |
| Capacity.HourlyRecords | capacity.py:70-120 | the hour loop produces exactly the records of the hours from 06 to 21 not skipped on weekends, in order |
| Capacity.TableRecords | capacity.py:40-120 | one table's pass produces exactly `DayRecords`: nothing without a caption, a date or seven rows, otherwise the hour loop's records |
| Capacity.GetCapacityData | capacity.py:25-136 | the result is the sorted concatenation of every table's records, or [] when a sort key raises |
| CapacityProperties.DayHoursBound | capacity.py:70 | every operating hour lies in 6..21 |
| CapacityProperties.HoursBeforeWeekday | capacity.py:70-75 | on a weekday, the hours before h that get a record are 6..h-1 |
| CapacityProperties.HoursBeforeWeekend | capacity.py:70-75 | on a weekend, the hours before h that get a record are 8..min(h,21)-1 |
| CapacityProperties.OperatingHours | capacity.py:70-75 | the loop yields the hours 06..21 on weekdays and 08..20 on Saturday and Sunday, increasing |
| CapacityProperties.RecordsOf | capacity.py:120 | one record per hour |
| CapacityProperties.RecordsMatchHours | capacity.py:70-120 | the records the loop builds are those of the hours it does not skip, one each, in order |
| CapacityProperties.RecordsOfAt | capacity.py:120 | the record at position i belongs to the i-th hour |
| CapacityProperties.DayRecordsShape | capacity.py:62-120 | an accepted table yields the records of its operating hours, in hour order |
| CapacityProperties.DayRecordAt | capacity.py:62-120 | there is one record per operating hour, and record i carries the caption date, the weekday, hour i's time field and that hour's occupancy |
| CapacityProperties.TimeFieldInjective | capacity.py:77 | different hours have different time fields |
| CapacityProperties.SkippedTimeFields | capacity.py:74-77 | the skipped weekend hours have the time fields 06:00:00, 07:00:00 and 21:00:00 |
| CapacityProperties.DayRecordCount | capacity.py:70-77 | an accepted table yields 16 records on a weekday and 13 on a weekend, and a weekend never has a 06:00:00, 07:00:00 or 21:00:00 record |
| CapacityProperties.OccupancyValues | capacity.py:118 | with six lanes the occupancy is one of 0, 22, 45, 67, 90, 112, 135 |
| CapacityProperties.TableOccupancies | capacity.py:67-120 | every record a table yields has one of those seven occupancies |
| CapacityProperties.EmittedOccupancies | capacity.py:38-120 | every record the table loop emits has one of those seven occupancies |
| CapacityProperties.ResultOccupancies | capacity.py:118-136 | every record `get_capacity_data` returns has one of those seven occupancies |
| CapacityProperties.NoFreeLaneZero | capacity.py:80-120 | an hour with no free lane is still reported, with occupancy 0 |
| CapacityProperties.AllLanesFreeFull | capacity.py:80-118 | with all six lanes free the occupancy is 135 |
| CapacityProperties.EmittedConcat | capacity.py:38-120 | the records of two runs of tables are those of each run in turn |
| CapacityProperties.SkippedTableIff | capacity.py:40-64 | a table contributes no record if and only if it lacks a caption, a date in the caption, or seven rows |
| CapacityProperties.CaptionDateNone | capacity.py:40-48 | no date is taken if and only if there is no caption or the date pattern matches nowhere in the stripped caption |
| CapacityProperties.SkippedTableContributesNothing | capacity.py:38-64 | a skipped table leaves the records of the other tables unchanged |
| CapacityProperties.OnlyLaneRowsMatter | capacity.py:62-67 | rows other than 1..6 (the header, any rows after lane 6) do not affect the records |
| CapacityProperties.SplitFormattedDate | capacity.py:125 | splitting the date field on '.' gives the padded day, the padded month and the year |
| CapacityProperties.SplitTimeField | capacity.py:127 | `int(time.split(':')[0])` gives back the hour the time field was made from |
| CapacityProperties.SortKeyOfRecord | capacity.py:123-128 | `sort_key` of an emitted record is (year, month, day, hour) of its caption date and hour when that date is a calendar date, and raises otherwise |
| CapacityProperties.FirstRecordHasNoKey | capacity.py:123-128 | an accepted table whose date is not a calendar date has a first record, and that record's key raises |
| CapacityProperties.InvalidDateEmptiesResult | capacity.py:128-136 | one accepted table whose date is not a calendar date makes the whole result [] |
| CapacityProperties.EmittedSplitAt | capacity.py:38-120 | a table's records sit between those of the tables before and after it |
| CapacityProperties.RecordKeyed | capacity.py:123-128 | every record of an accepted table with a calendar date has a sort key |
| CapacityProperties.TableRecordsKeyed | capacity.py:123-128 | a table whose date, if used, is a calendar date yields only records with sort keys |
| CapacityProperties.EmittedKeyed | capacity.py:123-130 | when every accepted table's date is a calendar date, every emitted record has a sort key |
| CapacityProperties.ValidDatesHaveKeys | capacity.py:123-130 | under the same condition, no sort key raises |
| CapacityProperties.KeysSurviveSort | capacity.py:123-130 | the sorted records have exactly the keys they were sorted by |
| CapacityProperties.SortResultsOrdered | capacity.py:122-130 | when no key raises, the result is a permutation of the emitted records, in (year, month, day, hour) order, with records of equal key in emission order |
| CapacityProperties.SortResultsUnique | capacity.py:130 | any permutation that is ordered by key and keeps equal-key records in emission order is the result |

## Left out

- Fetching the page (lines 11-17) and parsing it with BeautifulSoup (lines 20-23, `find`, `find_all`, `get_text`) are not modelled. The model starts from the parsed tables. A `find_all` that descends into nested tables is assumed already resolved in the given rows and cells.
- `date_str` is not modelled; it only enters the URL and the error message.
- The `print` in the `except` branch (line 135) is left out because it is output only.
- The blanket `except` is modelled only for the exceptions the model can raise, namely `int()` and `datetime` in `sort_key`. Network, decoding and parser errors happen before the modelled part.
- `save_to_csv`, `main` (with its use of `timedelta`) and occupancy.py are not part of this model.
- The unused `header_row` (line 66) is left out.
- Text.IsWordChar: `\w` is modelled for ASCII and the Latin-1/Latin Extended-A/B word characters (all Czech letters) only. Python also accepts letters of other scripts.
- Text.IsDigit: `\d` is modelled as ASCII digits only. Python's `\d` and `int()` also accept other Unicode decimal digits, and `int()` accepts surrounding whitespace, signs and underscores. None of these can occur in the fields `sort_key` reads, which the model builds itself.
- Sorting.StableSort: CPython's Timsort is modelled by its result. Sorting.StableSortUnique proves that every stable sort by the same key gives that result. The comparisons Timsort makes are not modelled.
- Capacity.GetCapacityData: the result lists are modelled as `HourRecord` values, not as Python lists of mixed types.
