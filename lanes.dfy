/**
  Deciding whether one lane is free for one hour, and counting the free lanes
  (capacity.py, lines 80-115).

  A lane row is the list of `td` cells of a `tr`; its first cell is the lane label.
  The cell for hour HH is the first later cell carrying a class token that starts
  with `col-HH-`. A full-hour cell (`colspan="2"`) is free when it is not reserved;
  a half-hour cell is free when it and the cell after it are both unreserved.
 */
module Lanes {

  import opened Wrappers

  /** A `td` element as the HTML parser gives it: its class tokens and its `colspan` attribute. */
  datatype Cell = Cell(classes: seq<string>, colspan: Option<string>)

  /** The `td` cells of one `tr`, in document order. */
  type Row = seq<Cell>

  predicate StartsWith(s: string, prefix: string) {
    |prefix| <= |s| && s[..|prefix|] == prefix
  }

  /** The class prefix that marks the cells of hour `hourStr`. */
  function HourPrefix(hourStr: string): string {
    "col-" + hourStr + "-"
  }

  /**
    `next((c for c in class_names if c.startswith(prefix)), None)`: the first class
    token with the prefix.
   */
  function FirstWithPrefix(classes: seq<string>, prefix: string): (r: Option<nat>)
    ensures r.Some? ==> r.value < |classes|
  {
    if |classes| == 0 then None
    else if StartsWith(classes[0], prefix) then Some(0)
    else match FirstWithPrefix(classes[1..], prefix)
      case None => None
      case Some(k) => Some(k + 1)
  }

  /** `FirstWithPrefix` finds the first token with the prefix, and finds none only when no token has it. */
  lemma {:induction false} FirstWithPrefixSpec(classes: seq<string>, prefix: string)
    ensures var r := FirstWithPrefix(classes, prefix);
            && (r.Some? ==> StartsWith(classes[r.value], prefix)
                            && forall k :: 0 <= k < r.value ==> !StartsWith(classes[k], prefix))
            && (r.None? ==> forall k :: 0 <= k < |classes| ==> !StartsWith(classes[k], prefix))
  {
    if |classes| > 0 && !StartsWith(classes[0], prefix) {
      FirstWithPrefixSpec(classes[1..], prefix);
    }
  }

  /** A cell belongs to the hour when one of its class tokens starts with `col-HH-`. */
  predicate IsHourCell(c: Cell, hourStr: string) {
    FirstWithPrefix(c.classes, HourPrefix(hourStr)).Some?
  }

  predicate Reserved(c: Cell) {
    "reserved" in c.classes
  }

  /** `'colspan' in cell.attrs and cell['colspan'] == '2'`. */
  predicate FullHour(c: Cell) {
    c.colspan == Some("2")
  }

  /** `find_all('td')[1:]`: the cells after the lane label. */
  function SlotCells(row: Row): seq<Cell> {
    if |row| == 0 then [] else row[1..]
  }

  /** The index of the first cell of the hour, scanning from `from`. */
  function FirstHourCell(cells: seq<Cell>, hourStr: string, from: nat): (r: Option<nat>)
    requires from <= |cells|
    ensures r.Some? ==> from <= r.value < |cells|
    decreases |cells| - from
  {
    if from == |cells| then None
    else if IsHourCell(cells[from], hourStr) then Some(from)
    else FirstHourCell(cells, hourStr, from + 1)
  }

  /** `FirstHourCell` finds the first cell of the hour from `from` on, and none only when there is none. */
  lemma {:induction false} FirstHourCellSpec(cells: seq<Cell>, hourStr: string, from: nat)
    requires from <= |cells|
    ensures var r := FirstHourCell(cells, hourStr, from);
            && (r.Some? ==> IsHourCell(cells[r.value], hourStr)
                            && forall j :: from <= j < r.value ==> !IsHourCell(cells[j], hourStr))
            && (r.None? ==> forall j :: from <= j < |cells| ==> !IsHourCell(cells[j], hourStr))
    decreases |cells| - from
  {
    if from < |cells| && !IsHourCell(cells[from], hourStr) {
      FirstHourCellSpec(cells, hourStr, from + 1);
    }
  }

  /**
    The availability test applied to the hour cell `cells[i]`: a full-hour cell must be
    unreserved; a half-hour cell needs a following cell, and both must be unreserved.
   */
  predicate HourCellFree(cells: seq<Cell>, i: nat)
    requires i < |cells|
  {
    if FullHour(cells[i]) then !Reserved(cells[i])
    else i + 1 < |cells| && !Reserved(cells[i]) && !Reserved(cells[i + 1])
  }

  /** Whether the lane of `row` is free for the hour `hourStr`. */
  predicate LaneFree(row: Row, hourStr: string) {
    var cells := SlotCells(row);
    match FirstHourCell(cells, hourStr, 0)
    case None => false
    case Some(i) => HourCellFree(cells, i)
  }

  /**
    The lane rule stated without the search function: the lane is free exactly when
    some slot cell `i` is the first cell of the hour and either it spans the full hour
    and is unreserved, or it has a successor and neither of the two is reserved.
   */
  lemma LaneFreeRule(row: Row, hourStr: string)
    ensures var cells := SlotCells(row);
            LaneFree(row, hourStr) <==>
            exists i :: 0 <= i < |cells| && IsHourCell(cells[i], hourStr)
                        && (forall j :: 0 <= j < i ==> !IsHourCell(cells[j], hourStr))
                        && HourCellFree(cells, i)
  {
    var cells := SlotCells(row);
    var r := FirstHourCell(cells, hourStr, 0);
    FirstHourCellSpec(cells, hourStr, 0);
    if r.Some? {
      var i := r.value;
      assert LaneFree(row, hourStr) == HourCellFree(cells, i);
      forall i' | 0 <= i' < |cells| && IsHourCell(cells[i'], hourStr)
                  && (forall j :: 0 <= j < i' ==> !IsHourCell(cells[j], hourStr))
        ensures i' == i
      {
      }
      assert IsHourCell(cells[i], hourStr) && forall j :: 0 <= j < i ==> !IsHourCell(cells[j], hourStr);
    }
  }

  /** A lane with no cell of the hour, or whose hour cell is the last cell, is not free. */
  lemma NoCellOrLastCellNotFree(row: Row, hourStr: string)
    requires var cells := SlotCells(row);
             var r := FirstHourCell(cells, hourStr, 0);
             r.None? || (r.value == |cells| - 1 && !FullHour(cells[r.value]))
    ensures !LaneFree(row, hourStr)
  {
  }

  /** A lane whose every slot cell is reserved is never free. */
  lemma AllReservedNotFree(row: Row, hourStr: string)
    requires forall k :: 0 <= k < |SlotCells(row)| ==> Reserved(SlotCells(row)[k])
    ensures !LaneFree(row, hourStr)
  {
  }

  /** A lane whose slot cells are all unreserved is free once its hour cell is found and is a full hour or not last. */
  lemma NoneReservedFree(row: Row, hourStr: string)
    requires forall k :: 0 <= k < |SlotCells(row)| ==> !Reserved(SlotCells(row)[k])
    requires var cells := SlotCells(row);
             var r := FirstHourCell(cells, hourStr, 0);
             r.Some? && (FullHour(cells[r.value]) || r.value + 1 < |cells|)
    ensures LaneFree(row, hourStr)
  {
  }

  /** A scan from 0 over cells none of which belongs to the hour reaches the scan from `i`. */
  lemma {:induction false} FirstHourCellFrom(cells: seq<Cell>, hourStr: string, i: nat)
    requires i <= |cells| && forall j :: 0 <= j < i ==> !IsHourCell(cells[j], hourStr)
    ensures FirstHourCell(cells, hourStr, 0) == FirstHourCell(cells, hourStr, i)
  {
    var k := i;
    while k > 0
      invariant 0 <= k <= i
      invariant FirstHourCell(cells, hourStr, k) == FirstHourCell(cells, hourStr, i)
    {
      k := k - 1;
    }
  }

  /** The cell scan of lines 84-112 for one lane, with its early `break`. */
  method LaneIsFree(row: Row, hourStr: string) returns (free: bool)
    ensures free == LaneFree(row, hourStr)
  {
    var cells := SlotCells(row);
    var hourCell: Option<Cell> := None;
    var nextCell: Option<Cell> := None;
    var i := 0;
    while i < |cells|
      invariant 0 <= i <= |cells|
      invariant forall j :: 0 <= j < i ==> !IsHourCell(cells[j], hourStr)
      invariant hourCell.None? && nextCell.None?
    {
      var hourClass := FirstWithPrefix(cells[i].classes, HourPrefix(hourStr));
      if hourClass.Some? {
        hourCell := Some(cells[i]);
        if i + 1 < |cells| {
          nextCell := Some(cells[i + 1]);
        }
        break;
      }
      i := i + 1;
    }
    FirstHourCellFrom(cells, hourStr, i);
    assert hourCell.Some? ==> FirstHourCell(cells, hourStr, 0) == Some(i) && hourCell.value == cells[i];
    assert hourCell.Some? ==> nextCell == (if i + 1 < |cells| then Some(cells[i + 1]) else None);
    assert hourCell.None? ==> FirstHourCell(cells, hourStr, 0).None?;
    free := false;
    if hourCell.Some? {
      var cell := hourCell.value;
      if FullHour(cell) {
        free := !Reserved(cell);
      } else if nextCell.Some? {
        free := !Reserved(cell) && !Reserved(nextCell.value);
      }
    }
  }

  /** `available_lanes` for one hour: how many of the lanes are free. */
  function FreeCount(lanes: seq<Row>, hourStr: string): (n: nat)
    ensures n <= |lanes|
  {
    if |lanes| == 0 then 0
    else FreeCount(lanes[..|lanes| - 1], hourStr) + (if LaneFree(lanes[|lanes| - 1], hourStr) then 1 else 0)
  }

  /** No lane is counted exactly when no lane is free. */
  lemma {:induction false} FreeCountZero(lanes: seq<Row>, hourStr: string)
    ensures FreeCount(lanes, hourStr) == 0 <==> forall k :: 0 <= k < |lanes| ==> !LaneFree(lanes[k], hourStr)
  {
    if |lanes| > 0 {
      var init := lanes[..|lanes| - 1];
      FreeCountZero(init, hourStr);
      assert forall k :: 0 <= k < |init| ==> init[k] == lanes[k];
    }
  }

  /** Every lane is counted exactly when every lane is free. */
  lemma {:induction false} FreeCountAll(lanes: seq<Row>, hourStr: string)
    ensures FreeCount(lanes, hourStr) == |lanes| <==> forall k :: 0 <= k < |lanes| ==> LaneFree(lanes[k], hourStr)
  {
    if |lanes| > 0 {
      var init := lanes[..|lanes| - 1];
      FreeCountAll(init, hourStr);
      assert forall k :: 0 <= k < |init| ==> init[k] == lanes[k];
    }
  }

  /** The loop over the lane rows of lines 80-115. */
  method CountFreeLanes(lanes: seq<Row>, hourStr: string) returns (available: nat)
    ensures available == FreeCount(lanes, hourStr)
  {
    available := 0;
    for k := 0 to |lanes|
      invariant available == FreeCount(lanes[..k], hourStr)
    {
      var free := LaneIsFree(lanes[k], hourStr);
      assert lanes[..k + 1][..k] == lanes[..k];
      if free {
        available := available + 1;
      }
    }
    assert lanes[..|lanes|] == lanes;
  }
}
