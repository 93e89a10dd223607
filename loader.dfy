/** The loading half of processLoadedData (ui-controller.js): splitting a CSV
    table into sheets at its header rows, and the union of the header names of
    all sheets. */
module Loader {

  import opened JsValues
  import opened JsText
  import opened Seqs
  import opened AppHelpers
  import opened Columns
  import opened GroupedData

  type Rows = seq<seq<Value>>

  /** isHeaderRow and `!isEmptyRow` as values. The splitting below is stated
      for any pair of row tests; HeaderRowNotEmpty shows that these two meet
      its one assumption. */
  function IsHeader(e: Engine): seq<Value> -> bool {
    (row: seq<Value>) => IsHeaderRow(e, row)
  }

  function NotEmpty(e: Engine): seq<Value> -> bool {
    (row: seq<Value>) => !IsEmptyRow(e, row)
  }

  /** `headerIndices` of processLoadedData: the positions of the rows that
      look like a header row, in order. */
  function HeaderIndices<T>(data: seq<T>, header: T -> bool): seq<nat> {
    Positions(data, header, 0)
  }

  /** `Sheet${i + 1}`. */
  function SheetName(i: nat): string {
    "Sheet" + NatToString(i + 1)
  }

  /** Increasing positions inside data, as the header indices are. */
  predicate ValidCuts<T>(data: seq<T>, cuts: seq<nat>) {
    (forall k | 0 <= k < |cuts| :: cuts[k] < |data|) &&
    (forall k, m | 0 <= k < m < |cuts| :: cuts[k] < cuts[m])
  }

  lemma HeaderIndicesValid<T>(data: seq<T>, header: T -> bool)
    ensures ValidCuts(data, HeaderIndices(data, header))
  {
    PositionsSpec(data, header, 0);
  }

  /** Where segment i stops: at the next header row, or at the end of the data. */
  function SegmentEnd<T>(data: seq<T>, cuts: seq<nat>, i: nat): (end: nat)
    requires ValidCuts(data, cuts) && i < |cuts|
    ensures cuts[i] < end <= |data|
  {
    if i < |cuts| - 1 then cuts[i + 1] else |data|
  }

  /** The rows from header row i up to the next header row, empty rows removed. */
  function Segment<T>(data: seq<T>, cuts: seq<nat>, keep: T -> bool, i: nat): seq<T>
    requires ValidCuts(data, cuts) && i < |cuts|
  {
    Filter(data[cuts[i]..SegmentEnd(data, cuts, i)], keep)
  }

  /** The sheets made of the first n segments; a segment of at most one row is
      dropped. */
  function Segments<T>(data: seq<T>, cuts: seq<nat>, keep: T -> bool, n: nat): seq<(string, seq<T>)>
    requires ValidCuts(data, cuts) && n <= |cuts|
  {
    if n == 0 then []
    else
      var seg := Segment(data, cuts, keep, n - 1);
      Segments(data, cuts, keep, n - 1) + (if |seg| > 1 then [(SheetName(n - 1), seg)] else [])
  }

  /** `allData` built from a CSV table. Without header rows, or when no
      segment survives, the table becomes the single sheet "Sheet1" of its
      non-empty rows; so there is always at least one sheet. */
  function CsvSheets<T>(data: seq<T>, header: T -> bool, keep: T -> bool): (r: seq<(string, seq<T>)>)
    ensures |r| >= 1
  {
    var cuts := HeaderIndices(data, header);
    if cuts == [] then [("Sheet1", Filter(data, keep))]
    else
      HeaderIndicesValid(data, header);
      var segments := Segments(data, cuts, keep, |cuts|);
      if segments == [] && |data| > 0 then [("Sheet1", Filter(data, keep))] else segments
  }

  /** The segment loop of processLoadedData over the header indices. */
  method SegmentSheets<T>(data: seq<T>, headerIndices: seq<nat>, keep: T -> bool) returns (sheets: seq<(string, seq<T>)>)
    requires ValidCuts(data, headerIndices)
    ensures sheets == Segments(data, headerIndices, keep, |headerIndices|)
  {
    sheets := [];
    var k := 0;
    while k < |headerIndices|
      invariant 0 <= k <= |headerIndices|
      invariant sheets == Segments(data, headerIndices, keep, k)
    {
      var startIndex := headerIndices[k];
      var endIndex := if k < |headerIndices| - 1 then headerIndices[k + 1] else |data|;
      var sheetData := Filter(data[startIndex..endIndex], keep);
      if |sheetData| > 1 {
        sheets := sheets + [(SheetName(k), sheetData)];
      }
      k := k + 1;
    }
  }

  /** The `headerIndices` computation of processLoadedData. */
  method FindHeaderIndices<T>(data: seq<T>, header: T -> bool) returns (headerIndices: seq<nat>)
    ensures headerIndices == HeaderIndices(data, header)
  {
    headerIndices := [];
    var i := 0;
    while i < |data|
      invariant 0 <= i <= |data|
      invariant headerIndices + Positions(data, header, i) == HeaderIndices(data, header)
    {
      ghost var rest := Positions(data, header, i + 1);
      assert Positions(data, header, i) == (if header(data[i]) then [i] else []) + rest;
      if header(data[i]) {
        assert headerIndices + ([i] + rest) == (headerIndices + [i]) + rest;
        headerIndices := headerIndices + [i];
      }
      i := i + 1;
    }
    assert Positions(data, header, i) == [];
  }

  /** The CSV branch of processLoadedData, with isHeaderRow and `!isEmptyRow`
      as header and keep. */
  method SplitCsv<T>(data: seq<T>, header: T -> bool, keep: T -> bool) returns (sheets: seq<(string, seq<T>)>)
    ensures sheets == CsvSheets(data, header, keep)
  {
    var headerIndices := FindHeaderIndices(data, header);
    if |headerIndices| == 0 {
      sheets := [("Sheet1", Filter(data, keep))];
    } else {
      HeaderIndicesValid(data, header);
      sheets := SegmentSheets(data, headerIndices, keep);
    }
    if |sheets| == 0 && |data| > 0 {
      sheets := [("Sheet1", Filter(data, keep))];
    }
  }

  /** A header row is never an empty row: its latitude cell holds a keyword. */
  lemma HeaderRowNotEmpty(e: Engine, row: seq<Value>)
    requires IsHeaderRow(e, row)
    ensures !IsEmptyRow(e, row)
  {
    assert SomeCellHas(e, row, LatKeywords);
    var j, k :| 0 <= j < |row| && 0 <= k < |LatKeywords| && Contains(LowerCell(e, row[j]), LatKeywords[k]);
    KeywordCellNotBlank(e, row[j], LatKeywords[k]);
  }

  /** A cell holding a non-empty keyword is truthy and not blank. */
  lemma KeywordCellNotBlank(e: Engine, cell: Value, keyword: string)
    requires keyword != [] && Contains(LowerCell(e, cell), keyword)
    ensures Truthy(cell) && Trim(ToStr(e, cell)) != []
  {
    var s := ToStr(e, cell);
    ContainsEmpty(keyword);
    if Trim(s) == [] {
      TrimEmptyIff(s);
      AllSpaceStripped(Lower(s));
    }
  }

  lemma {:induction false} AllSpaceStripped(s: string)
    requires forall i | 0 <= i < |s| :: IsJsSpace(s[i])
    ensures StripSpaceAndUnderscore(s) == []
    decreases |s|
  {
    if s != [] {
      assert forall i | 0 <= i < |s| - 1 :: s[1..][i] == s[i + 1];
      AllSpaceStripped(s[1..]);
    }
  }

  /** The one assumption the splitting needs: no header row is removed as empty. */
  ghost predicate HeadersKept<T(!new)>(header: T -> bool, keep: T -> bool) {
    forall row :: header(row) ==> keep(row)
  }

  lemma HeadersKeptHere(e: Engine)
    ensures HeadersKept(IsHeader(e), NotEmpty(e))
  {
    forall row | IsHeader(e)(row) ensures NotEmpty(e)(row) {
      HeaderRowNotEmpty(e, row);
    }
  }

  /** Each segment starts with its header row, holds only rows kept, and runs
      up to the next header row: no header row lies strictly inside it. */
  lemma SegmentShape<T(!new)>(data: seq<T>, header: T -> bool, keep: T -> bool, i: nat)
    requires HeadersKept(header, keep)
    requires ValidCuts(data, HeaderIndices(data, header)) && i < |HeaderIndices(data, header)|
    ensures var cuts := HeaderIndices(data, header);
      var seg := Segment(data, cuts, keep, i);
      header(data[cuts[i]]) &&
      seg != [] && seg[0] == data[cuts[i]] &&
      (forall row | row in seg :: keep(row)) &&
      (forall j | cuts[i] < j < SegmentEnd(data, cuts, i) :: !header(data[j]))
  {
    var cuts := HeaderIndices(data, header);
    PositionsSpec(data, header, 0);
    var start := cuts[i];
    var end := SegmentEnd(data, cuts, i);
    var part := data[start..end];
    assert part == [data[start]] + part[1..];
    FilterMembers(part, keep);
    forall m | 0 <= m < |cuts| ensures cuts[m] <= start || end <= cuts[m] {
      if i < m {
        assert cuts[i + 1] <= cuts[m];
      }
    }
  }

  /** No two sheets share a name. */
  predicate DistinctNames<T>(sheets: seq<(string, seq<T>)>) {
    forall a, b | 0 <= a < b < |sheets| :: sheets[a].0 != sheets[b].0
  }

  /** Each sheet is segment i, named "Sheet" + (i + 1), for some i < n, and
      holds more than one row. */
  ghost predicate NumberedSegments<T>(data: seq<T>, cuts: seq<nat>, keep: T -> bool, sheets: seq<(string, seq<T>)>, n: nat)
    requires ValidCuts(data, cuts) && n <= |cuts|
  {
    forall a | 0 <= a < |sheets| ::
      exists i | 0 <= i < n :: sheets[a] == (SheetName(i), Segment(data, cuts, keep, i)) && |sheets[a].1| > 1
  }

  /** Distinct sheet numbers give distinct sheet names. */
  lemma SheetNameInjective(i: nat, j: nat)
    requires SheetName(i) == SheetName(j)
    ensures i == j
  {
    assert NatToString(i + 1) == SheetName(i)[5..];
    assert NatToString(j + 1) == SheetName(j)[5..];
    NatToStringInjective(i + 1, j + 1);
  }

  /** Adding segment n - 1 appends its sheet exactly when it holds more than
      one row. */
  lemma SegmentsStep<T>(data: seq<T>, cuts: seq<nat>, keep: T -> bool, n: nat)
    requires ValidCuts(data, cuts) && 0 < n <= |cuts|
    ensures var seg := Segment(data, cuts, keep, n - 1);
      Segments(data, cuts, keep, n) ==
        Segments(data, cuts, keep, n - 1) + (if |seg| > 1 then [(SheetName(n - 1), seg)] else [])
  {
  }

  /** The segment sheets: each is sheet number i + 1 of the i-th header row
      and holds more than one row. */
  lemma {:induction false} SegmentsNumbered<T>(data: seq<T>, cuts: seq<nat>, keep: T -> bool, n: nat)
    requires ValidCuts(data, cuts) && n <= |cuts|
    ensures NumberedSegments(data, cuts, keep, Segments(data, cuts, keep, n), n)
    decreases n
  {
    if n > 0 {
      SegmentsNumbered(data, cuts, keep, n - 1);
      SegmentsStep(data, cuts, keep, n);
      var before := Segments(data, cuts, keep, n - 1);
      var seg := Segment(data, cuts, keep, n - 1);
      var r := Segments(data, cuts, keep, n);
      forall a | 0 <= a < |r|
        ensures exists i | 0 <= i < n :: r[a] == (SheetName(i), Segment(data, cuts, keep, i)) && |r[a].1| > 1
      {
        if a < |before| {
          assert r[a] == before[a];
          var i :| 0 <= i < n - 1 && before[a] == (SheetName(i), Segment(data, cuts, keep, i)) && |before[a].1| > 1;
          assert r[a] == (SheetName(i), Segment(data, cuts, keep, i));
        } else {
          assert r[a] == (SheetName(n - 1), seg);
        }
      }
    }
  }

  /** No two segment sheets share a name. */
  lemma {:induction false} SegmentsDistinct<T>(data: seq<T>, cuts: seq<nat>, keep: T -> bool, n: nat)
    requires ValidCuts(data, cuts) && n <= |cuts|
    ensures DistinctNames(Segments(data, cuts, keep, n))
    decreases n
  {
    if n > 0 {
      SegmentsDistinct(data, cuts, keep, n - 1);
      SegmentsNumbered(data, cuts, keep, n - 1);
      SegmentsStep(data, cuts, keep, n);
      var before := Segments(data, cuts, keep, n - 1);
      var r := Segments(data, cuts, keep, n);
      forall a | 0 <= a < |before|
        ensures before[a].0 != SheetName(n - 1)
      {
        var i :| 0 <= i < n - 1 && before[a] == (SheetName(i), Segment(data, cuts, keep, i)) && |before[a].1| > 1;
        if SheetName(i) == SheetName(n - 1) {
          SheetNameInjective(i, n - 1);
        }
      }
      forall a, b | 0 <= a < b < |r| ensures r[a].0 != r[b].0 {
        assert r[a] == before[a];
        if b < |before| {
          assert r[b] == before[b];
        } else {
          assert r[b].0 == SheetName(n - 1);
        }
      }
    }
  }

  /** Every segment longer than one row becomes a sheet. */
  lemma {:induction false} SegmentsComplete<T>(data: seq<T>, cuts: seq<nat>, keep: T -> bool, n: nat)
    requires ValidCuts(data, cuts) && n <= |cuts|
    ensures forall i | 0 <= i < n && |Segment(data, cuts, keep, i)| > 1 ::
      (SheetName(i), Segment(data, cuts, keep, i)) in Segments(data, cuts, keep, n)
    decreases n
  {
    if n > 0 {
      SegmentsComplete(data, cuts, keep, n - 1);
      SegmentsStep(data, cuts, keep, n);
      var before := Segments(data, cuts, keep, n - 1);
      forall i | 0 <= i < n && |Segment(data, cuts, keep, i)| > 1
        ensures (SheetName(i), Segment(data, cuts, keep, i)) in Segments(data, cuts, keep, n)
      {
        if i < n - 1 {
          assert (SheetName(i), Segment(data, cuts, keep, i)) in before;
        }
      }
    }
  }

  /** The two shapes a CSV load can take: the single fallback sheet of all
      kept rows, or the segment sheets of the header rows. */
  lemma CsvSheetsCases<T>(data: seq<T>, header: T -> bool, keep: T -> bool)
    ensures var cuts := HeaderIndices(data, header);
      ValidCuts(data, cuts) &&
      (CsvSheets(data, header, keep) == [("Sheet1", Filter(data, keep))] ||
       (cuts != [] && CsvSheets(data, header, keep) == Segments(data, cuts, keep, |cuts|)))
  {
    HeaderIndicesValid(data, header);
  }

  /** Every sheet of a CSV load holds kept rows only. */
  lemma CsvSheetsRows<T(!new)>(data: seq<T>, header: T -> bool, keep: T -> bool)
    requires HeadersKept(header, keep)
    ensures forall a | 0 <= a < |CsvSheets(data, header, keep)| ::
      forall row | row in CsvSheets(data, header, keep)[a].1 :: keep(row)
  {
    var cuts := HeaderIndices(data, header);
    var sheets := CsvSheets(data, header, keep);
    CsvSheetsCases(data, header, keep);
    if sheets == [("Sheet1", Filter(data, keep))] {
      FilterMembers(data, keep);
    } else {
      SegmentsNumbered(data, cuts, keep, |cuts|);
      forall a | 0 <= a < |sheets| ensures forall row | row in sheets[a].1 :: keep(row) {
        var i :| 0 <= i < |cuts| && sheets[a] == (SheetName(i), Segment(data, cuts, keep, i)) && |sheets[a].1| > 1;
        SegmentShape(data, header, keep, i);
      }
    }
  }

  /** The sheet names of a CSV load are distinct. */
  lemma CsvSheetsDistinct<T>(data: seq<T>, header: T -> bool, keep: T -> bool)
    ensures DistinctNames(CsvSheets(data, header, keep))
  {
    var cuts := HeaderIndices(data, header);
    var sheets := CsvSheets(data, header, keep);
    CsvSheetsCases(data, header, keep);
    if sheets != [("Sheet1", Filter(data, keep))] {
      SegmentsDistinct(data, cuts, keep, |cuts|);
    }
  }

  // ------------------------------------------------------------ column union

  /** The truthy cells of a sheet's first row; an empty sheet has none. */
  function HeaderNames(rows: Rows): seq<Value> {
    if |rows| > 0 then Filter(rows[0], Truthy) else []
  }

  /** allColumns after visiting the first n sheets. */
  function ColumnsOf(sheets: Sheets, n: nat): seq<Value>
    requires n <= |sheets|
  {
    if n == 0 then [] else AppendNew(ColumnsOf(sheets, n - 1), HeaderNames(sheets[n - 1].1))
  }

  /** `allColumns` of processLoadedData. */
  function AllColumns(sheets: Sheets): seq<Value> {
    ColumnsOf(sheets, |sheets|)
  }

  /** The inner loop of the column union: each truthy cell of a header row is
      pushed unless already listed. */
  method PushHeaders(columns: seq<Value>, row: seq<Value>) returns (allColumns: seq<Value>)
    ensures allColumns == AppendNew(columns, Filter(row, Truthy))
  {
    allColumns := columns;
    var j := 0;
    while j < |row|
      invariant 0 <= j <= |row|
      invariant allColumns == AppendNew(columns, Filter(row[..j], Truthy))
    {
      var header := row[j];
      ghost var seen := Filter(row[..j], Truthy);
      assert row[..j + 1] == row[..j] + [header];
      FilterSnoc(row[..j], header, Truthy);
      if Truthy(header) {
        assert Filter(row[..j + 1], Truthy) == seen + [header];
        AppendNewSnoc(columns, seen, header);
        if header !in allColumns {
          allColumns := allColumns + [header];
        }
      } else {
        assert Filter(row[..j + 1], Truthy) == seen;
      }
      j := j + 1;
    }
    assert row[..j] == row;
  }

  /** The column-union loop of processLoadedData over the sheets in order. */
  method CollectColumns(sheets: Sheets) returns (allColumns: seq<Value>)
    ensures allColumns == AllColumns(sheets)
  {
    allColumns := [];
    var k := 0;
    while k < |sheets|
      invariant 0 <= k <= |sheets|
      invariant allColumns == ColumnsOf(sheets, k)
    {
      if |sheets[k].1| > 0 {
        allColumns := PushHeaders(allColumns, sheets[k].1[0]);
      }
      k := k + 1;
    }
  }

  /** h is a truthy cell of the first row of one of the first n sheets. */
  ghost predicate SeenHeader(sheets: Sheets, n: nat, h: Value)
    requires n <= |sheets|
  {
    exists a | 0 <= a < n :: h in HeaderNames(sheets[a].1)
  }

  /** HeaderNames holds exactly the truthy cells of the first row. */
  lemma HeaderNamesMembers(rows: Rows)
    ensures forall h :: h in HeaderNames(rows) <==> |rows| > 0 && h in rows[0] && Truthy(h)
  {
    if |rows| > 0 {
      FilterMembers(rows[0], Truthy);
    }
  }

  /** allColumns lists each truthy header of each sheet exactly once, and the
      columns of the first sheets stay in front, in the order first seen. */
  lemma {:induction false} ColumnsOfSpec(sheets: Sheets, n: nat)
    requires n <= |sheets|
    ensures NoDuplicates(ColumnsOf(sheets, n))
    ensures forall h :: h in ColumnsOf(sheets, n) <==> SeenHeader(sheets, n, h)
    ensures forall m: nat | m <= n :: ColumnsOf(sheets, m) <= ColumnsOf(sheets, n)
    decreases n
  {
    if n > 0 {
      var before := ColumnsOf(sheets, n - 1);
      var names := HeaderNames(sheets[n - 1].1);
      ColumnsOfSpec(sheets, n - 1);
      AppendNewSpec(before, names);
      forall h ensures h in ColumnsOf(sheets, n) <==> SeenHeader(sheets, n, h) {
        if h in ColumnsOf(sheets, n) {
          if h in before {
            var a :| 0 <= a < n - 1 && h in HeaderNames(sheets[a].1);
          } else {
            assert h in HeaderNames(sheets[n - 1].1);
          }
        }
        if SeenHeader(sheets, n, h) {
          var a :| 0 <= a < n && h in HeaderNames(sheets[a].1);
          if a < n - 1 {
            assert SeenHeader(sheets, n - 1, h);
          }
        }
      }
      forall m: nat | m <= n ensures ColumnsOf(sheets, m) <= ColumnsOf(sheets, n) {
        if m < n {
          assert ColumnsOf(sheets, m) <= before;
        }
      }
    }
  }
}
