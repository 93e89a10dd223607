/** createGroupKey (data-processor.js): the `|`-joined key of a record under
    the chosen grouping columns. */
module GroupKeys {

  import opened JsValues
  import opened JsText
  import opened Temporal

  const Separator: char := '|'
  const UnknownGroup: string := "Unknown"

  /** One segment of a group key: a falsy cell counts as "Unknown"; under a
      column whose name contains "date" a serial above 40000 becomes its KST
      date, otherwise under a "time" column a positive serial becomes its KST
      clock time; anything else is printed as it is. None is the RangeError of
      an unrepresentable date. */
  function GroupSegment(e: Engine, column: string, cell: Value): (r: Option<string>)
    ensures Truthy(cell) && Contains(Lower(column), "date") && ToNumber(e, cell).Some? && ToNumber(e, cell).value > 40000.0 ==>
      r == (match SerialToKst(e, ToNumber(e, cell).value)
            case None => None
            case Some(k) => Some(k.date))
    ensures Truthy(cell) && !Contains(Lower(column), "date") && Contains(Lower(column), "time") &&
            ToNumber(e, cell).Some? && ToNumber(e, cell).value > 0.0 ==>
      r == (match SerialToKst(e, ToNumber(e, cell).value)
            case None => None
            case Some(k) => Some(k.time))
    ensures WellFormed(e) && !Truthy(cell) ==> r == Some(UnknownGroup)
    ensures !Contains(Lower(column), "date") && !Contains(Lower(column), "time") ==>
      r == Some(if Truthy(cell) then ToStr(e, cell) else UnknownGroup)
  {
    var value := if Truthy(cell) then cell else Text(UnknownGroup);
    if Contains(Lower(column), "date") then
      match ToNumber(e, value)
      case Some(n) =>
        if n > 40000.0 then
          (match SerialToKst(e, n)
           case None => None
           case Some(k) => Some(k.date))
        else Some(ToStr(e, value))
      case None => Some(ToStr(e, value))
    else if Contains(Lower(column), "time") then
      match ToNumber(e, value)
      case Some(n) =>
        if n > 0.0 then
          (match SerialToKst(e, n)
           case None => None
           case Some(k) => Some(k.time))
        else Some(ToStr(e, value))
      case None => Some(ToStr(e, value))
    else Some(ToStr(e, value))
  }

  /** A segment computed from a grouping column and its position. */
  type ColumnSegment = (string, nat) -> Option<string>

  /** `groupColumns.map(...)`: the segments of the columns in order; None
      when any of them throws. */
  function MapColumns(segment: ColumnSegment, columns: seq<string>): (r: Option<seq<string>>)
    ensures r.Some? ==> |r.value| == |columns|
    decreases |columns|
  {
    if columns == [] then Some([])
    else
      var n := |columns| - 1;
      match MapColumns(segment, columns[..n])
      case None => None
      case Some(init) =>
        match segment(columns[n], n)
        case None => None
        case Some(last) => Some(init + [last])
  }

  /** Segment i is the segment of column i, and the map throws exactly when
      the segment of some column throws. */
  lemma {:induction false} MapColumnsSpec(segment: ColumnSegment, columns: seq<string>)
    ensures var r := MapColumns(segment, columns);
      (r.Some? ==> forall i | 0 <= i < |columns| :: segment(columns[i], i) == Some(r.value[i])) &&
      (r.None? <==> exists i | 0 <= i < |columns| :: segment(columns[i], i).None?)
    decreases |columns|
  {
    if columns != [] {
      var n := |columns| - 1;
      var init := columns[..n];
      MapColumnsSpec(segment, init);
      assert forall i | 0 <= i < n :: init[i] == columns[i];
    }
  }

  /** The segment of grouping column i of a row. */
  function RowSegment(e: Engine, row: seq<Value>, groupIndices: seq<int>): ColumnSegment {
    (column: string, i: nat) => GroupSegment(e, column, CellOf(row, groupIndices, i))
  }

  /** The segments of a key, one per grouping column; `groupIndices[i]` past
      the end of the index list reads as undefined, as does the cell. */
  function GroupSegments(e: Engine, row: seq<Value>, groupIndices: seq<int>, groupColumns: seq<string>)
    : (r: Option<seq<string>>)
    ensures r.Some? ==> |r.value| == |groupColumns|
  {
    MapColumns(RowSegment(e, row, groupIndices), groupColumns)
  }

  /** Segment i of a key is GroupSegment of column i and its cell; the key
      cannot be built exactly when one of those throws. */
  lemma GroupSegmentsSpec(e: Engine, row: seq<Value>, groupIndices: seq<int>, groupColumns: seq<string>)
    ensures var r := GroupSegments(e, row, groupIndices, groupColumns);
      (r.Some? ==> forall i | 0 <= i < |groupColumns| ::
        GroupSegment(e, groupColumns[i], CellOf(row, groupIndices, i)) == Some(r.value[i])) &&
      (r.None? <==> exists i | 0 <= i < |groupColumns| ::
        GroupSegment(e, groupColumns[i], CellOf(row, groupIndices, i)).None?)
  {
    var segment := RowSegment(e, row, groupIndices);
    MapColumnsSpec(segment, groupColumns);
    forall i | 0 <= i < |groupColumns|
      ensures segment(groupColumns[i], i) == GroupSegment(e, groupColumns[i], CellOf(row, groupIndices, i))
    {
    }
  }

  /** `row[groupIndices[i]]`. */
  function CellOf(row: seq<Value>, groupIndices: seq<int>, i: nat): Value {
    if i < |groupIndices| then Lookup(row, groupIndices[i]) else Undefined
  }

  /** createGroupKey. */
  function CreateGroupKey(e: Engine, row: seq<Value>, groupIndices: seq<int>, groupColumns: seq<string>)
    : (r: Option<string>)
    ensures r.Some? <==> GroupSegments(e, row, groupIndices, groupColumns).Some?
  {
    match GroupSegments(e, row, groupIndices, groupColumns)
    case None => None
    case Some(segments) => Some(Join(segments, Separator))
  }

  predicate NoSeparator(parts: seq<string>) {
    forall i | 0 <= i < |parts| :: Separator !in parts[i]
  }

  /** With at least one grouping column and no `|` inside any segment, the key
      splits back into exactly one segment per column. */
  lemma GroupKeySplits(e: Engine, row: seq<Value>, groupIndices: seq<int>, groupColumns: seq<string>)
    requires |groupColumns| >= 1
    requires GroupSegments(e, row, groupIndices, groupColumns).Some?
    requires NoSeparator(GroupSegments(e, row, groupIndices, groupColumns).value)
    ensures Split(CreateGroupKey(e, row, groupIndices, groupColumns).value, Separator) ==
            GroupSegments(e, row, groupIndices, groupColumns).value
    ensures |Split(CreateGroupKey(e, row, groupIndices, groupColumns).value, Separator)| == |groupColumns|
  {
    SplitJoin(GroupSegments(e, row, groupIndices, groupColumns).value, Separator);
  }

  /** A column named with both "date" and "time" is treated as a date column. */
  lemma DateTestWins(e: Engine, column: string, cell: Value)
    requires Contains(Lower(column), "date") && Contains(Lower(column), "time")
    requires Truthy(cell) && ToNumber(e, cell).Some? && 0.0 < ToNumber(e, cell).value <= 40000.0
    ensures GroupSegment(e, column, cell) == Some(ToStr(e, cell))
  {
  }
}
