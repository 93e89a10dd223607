/** createGroupedData (ui-controller.js): the data rows of all sheets grouped
    by the value of one column, each group starting with a header row. */
module GroupedData {

  import opened JsValues
  import opened Columns
  import opened GroupKeys

  /** The sheets as `Object.entries(sourceData)`: name and rows. */
  type Sheets = seq<(string, seq<seq<Value>>)>

  type Groups = map<string, seq<seq<Value>>>

  /** The property key a row is grouped under: its cell, or "Unknown" for a
      falsy cell, as a string. */
  function GroupName(e: Engine, cell: Value): string {
    ToStr(e, if Truthy(cell) then cell else Text(UnknownGroup))
  }

  /** One row pushed onto its group, which starts as `[headers]`. */
  function AddRow(groups: Groups, key: string, headers: seq<Value>, row: seq<Value>): (r: Groups)
    ensures r.Keys == groups.Keys + {key}
  {
    if key in groups then groups[key := groups[key] + [row]] else groups[key := [headers, row]]
  }

  /** The data rows `rows[..n]` of one sheet added in order. */
  function AddRows(groups: Groups, e: Engine, headers: seq<Value>, column: int, rows: seq<seq<Value>>): Groups
    decreases |rows|
  {
    if rows == [] then groups
    else
      var row := rows[|rows| - 1];
      AddRow(AddRows(groups, e, headers, column, rows[..|rows| - 1]), GroupName(e, Lookup(row, column)), headers, row)
  }

  /** The column a sheet is grouped by, -1 when its header row lacks it. */
  function SheetColumn(e: Engine, sheet: seq<seq<Value>>, name: string): int
    requires |sheet| > 0
  {
    ExactColumn(e, sheet[0], name)
  }

  /** createGroupedData as a fold over the sheets; None is the TypeError of an
      empty sheet, which has no header row. */
  function Grouped(e: Engine, name: string, sheets: Sheets): Option<Groups>
    decreases |sheets|
  {
    if sheets == [] then Some(map[])
    else
      var sheet := sheets[|sheets| - 1].1;
      match Grouped(e, name, sheets[..|sheets| - 1])
      case None => None
      case Some(groups) =>
        if sheet == [] then None
        else
          var column := SheetColumn(e, sheet, name);
          if column == -1 then Some(groups) else Some(AddRows(groups, e, sheet[0], column, sheet[1..]))
  }

  /** createGroupedData. */
  method CreateGroupedData(e: Engine, columnName: string, sourceData: Sheets) returns (r: Option<Groups>)
    ensures r == Grouped(e, columnName, sourceData)
  {
    var groupedData: Groups := map[];
    var s := 0;
    while s < |sourceData|
      invariant 0 <= s <= |sourceData|
      invariant Grouped(e, columnName, sourceData[..s]) == Some(groupedData)
    {
      assert sourceData[..s + 1][..s] == sourceData[..s];
      var sheetData := sourceData[s].1;
      if sheetData == [] {
        GroupedStuck(e, columnName, sourceData, s + 1);
        return None;
      }
      var headers := sheetData[0];
      var columnIndex := ExactColumn(e, headers, columnName);
      if columnIndex != -1 {
        groupedData := AddSheetRows(groupedData, e, headers, columnIndex, sheetData[1..]);
      }
      s := s + 1;
    }
    assert sourceData[..s] == sourceData;
    return Some(groupedData);
  }

  /** The row loop of createGroupedData over one sheet's data rows. */
  method AddSheetRows(groups: Groups, e: Engine, headers: seq<Value>, columnIndex: int, dataRows: seq<seq<Value>>)
    returns (groupedData: Groups)
    ensures groupedData == AddRows(groups, e, headers, columnIndex, dataRows)
  {
    groupedData := groups;
    var k := 0;
    while k < |dataRows|
      invariant 0 <= k <= |dataRows|
      invariant groupedData == AddRows(groups, e, headers, columnIndex, dataRows[..k])
    {
      var row := dataRows[k];
      var groupValue := GroupName(e, Lookup(row, columnIndex));
      assert dataRows[..k + 1][..k] == dataRows[..k];
      ghost var next := AddRow(groupedData, groupValue, headers, row);
      assert AddRows(groups, e, headers, columnIndex, dataRows[..k + 1]) == next;
      if groupValue !in groupedData {
        groupedData := groupedData[groupValue := [headers]];
        assert [headers] + [row] == [headers, row];
      }
      groupedData := groupedData[groupValue := groupedData[groupValue] + [row]];
      assert groupedData == next;
      k := k + 1;
    }
    assert dataRows[..k] == dataRows;
  }

  lemma {:induction false} GroupedStuck(e: Engine, name: string, sheets: Sheets, k: nat)
    requires 1 <= k <= |sheets| && sheets[k - 1].1 == []
    ensures Grouped(e, name, sheets).None?
    decreases |sheets|
  {
    if k < |sheets| {
      GroupedStuck(e, name, sheets[..|sheets| - 1], k);
    }
  }

  // ------------------------------------------------------------ properties

  /** Every group of `before` is still there, with its rows as a prefix. */
  ghost predicate Extends(before: Groups, after: Groups) {
    forall k | k in before :: k in after && before[k] <= after[k]
  }

  /** x is one of the rows after a group's header row. */
  predicate AfterHeader(x: seq<Value>, group: seq<seq<Value>>) {
    exists i | 1 <= i < |group| :: group[i] == x
  }

  lemma PrefixRows(a: seq<seq<Value>>, b: seq<seq<Value>>, x: seq<Value>)
    requires a <= b && AfterHeader(x, a)
    ensures AfterHeader(x, b)
  {
    var i :| 1 <= i < |a| && a[i] == x;
    assert b[i] == x;
  }

  lemma ExtendsTransitive(a: Groups, b: Groups, c: Groups)
    requires Extends(a, b) && Extends(b, c)
    ensures Extends(a, c)
  {
    forall k | k in a ensures k in c && a[k] <= c[k] {
      assert a[k] == b[k][..|a[k]|] && b[k] == c[k][..|b[k]|];
      assert a[k] == c[k][..|a[k]|];
    }
  }

  /** Rows are only ever appended, and each data row lands in its group after
      the header row. */
  lemma {:induction false} AddRowsLand(groups: Groups, e: Engine, headers: seq<Value>, column: int, rows: seq<seq<Value>>)
    requires forall k | k in groups :: groups[k] != []
    ensures forall k | k in AddRows(groups, e, headers, column, rows) :: AddRows(groups, e, headers, column, rows)[k] != []
    ensures Extends(groups, AddRows(groups, e, headers, column, rows))
    ensures forall i | 0 <= i < |rows| ::
      var key := GroupName(e, Lookup(rows[i], column));
      key in AddRows(groups, e, headers, column, rows) && AfterHeader(rows[i], AddRows(groups, e, headers, column, rows)[key])
    decreases |rows|
  {
    if rows != [] {
      var init := rows[..|rows| - 1];
      var row := rows[|rows| - 1];
      var mid := AddRows(groups, e, headers, column, init);
      var r := AddRows(groups, e, headers, column, rows);
      var key := GroupName(e, Lookup(row, column));
      AddRowsLand(groups, e, headers, column, init);
      assert r == AddRow(mid, key, headers, row);
      assert Extends(mid, r) by {
        forall k | k in mid ensures k in r && mid[k] <= r[k] {
        }
      }
      ExtendsTransitive(groups, mid, r);
      forall i | 0 <= i < |rows|
        ensures var k := GroupName(e, Lookup(rows[i], column)); k in r && AfterHeader(rows[i], r[k])
      {
        var k := GroupName(e, Lookup(rows[i], column));
        if i < |rows| - 1 {
          assert rows[i] == init[i];
          PrefixRows(mid[k], r[k], rows[i]);
        } else {
          assert r[key][|r[key]| - 1] == row;
        }
      }
    }
  }

  /** createGroupedData puts every data row of every sheet that has the column
      into the group named by its cell ("Unknown" for a falsy cell), after the
      group's header row. */
  lemma {:induction false} EveryRowLands(e: Engine, name: string, sheets: Sheets)
    requires Grouped(e, name, sheets).Some?
    ensures forall k | k in Grouped(e, name, sheets).value :: Grouped(e, name, sheets).value[k] != []
    ensures forall s, j | 0 <= s < |sheets| && 1 <= j < |sheets[s].1| && SheetColumn(e, sheets[s].1, name) != -1 ::
      var m := Grouped(e, name, sheets).value;
      var key := GroupName(e, Lookup(sheets[s].1[j], SheetColumn(e, sheets[s].1, name)));
      key in m && AfterHeader(sheets[s].1[j], m[key])
    decreases |sheets|
  {
    if sheets != [] {
      var init := sheets[..|sheets| - 1];
      var sheet := sheets[|sheets| - 1].1;
      EveryRowLands(e, name, init);
      var before := Grouped(e, name, init).value;
      var m := Grouped(e, name, sheets).value;
      var column := SheetColumn(e, sheet, name);
      if column != -1 {
        AddRowsLand(before, e, sheet[0], column, sheet[1..]);
      }
      assert Extends(before, m);
      forall s, j | 0 <= s < |sheets| && 1 <= j < |sheets[s].1| && SheetColumn(e, sheets[s].1, name) != -1
        ensures var key := GroupName(e, Lookup(sheets[s].1[j], SheetColumn(e, sheets[s].1, name)));
                key in m && AfterHeader(sheets[s].1[j], m[key])
      {
        var key := GroupName(e, Lookup(sheets[s].1[j], SheetColumn(e, sheets[s].1, name)));
        if s < |init| {
          assert init[s] == sheets[s];
          PrefixRows(before[key], m[key], sheets[s].1[j]);
        } else {
          assert sheet[1..][j - 1] == sheet[j];
        }
      }
    }
  }

  /** A row is a data row of a sheet that has the column, and its cell names
      the group k. */
  ghost predicate RowOf(e: Engine, name: string, sheets: Sheets, x: seq<Value>, k: string) {
    exists s, j | 0 <= s < |sheets| && 1 <= j < |sheets[s].1| ::
      SheetColumn(e, sheets[s].1, name) != -1 && sheets[s].1[j] == x &&
      GroupName(e, Lookup(x, SheetColumn(e, sheets[s].1, name))) == k
  }

  /** h is the header row of a sheet that has the column. */
  ghost predicate HeaderOf(e: Engine, name: string, sheets: Sheets, h: seq<Value>) {
    exists s | 0 <= s < |sheets| && |sheets[s].1| > 0 :: SheetColumn(e, sheets[s].1, name) != -1 && sheets[s].1[0] == h
  }

  /** Every group is a header row followed by at least one row of that group. */
  ghost predicate WellGrouped(e: Engine, name: string, sheets: Sheets, m: Groups) {
    forall k | k in m ::
      |m[k]| >= 2 && HeaderOf(e, name, sheets, m[k][0]) &&
      forall i | 1 <= i < |m[k]| :: RowOf(e, name, sheets, m[k][i], k)
  }

  lemma WellGroupedGrow(e: Engine, name: string, sheets: Sheets, m: Groups, n: nat)
    requires n <= |sheets| && WellGrouped(e, name, sheets[..n], m)
    ensures WellGrouped(e, name, sheets, m)
  {
    forall k | k in m ensures HeaderOf(e, name, sheets, m[k][0]) {
      var s :| 0 <= s < n && |sheets[..n][s].1| > 0 && SheetColumn(e, sheets[..n][s].1, name) != -1 &&
               sheets[..n][s].1[0] == m[k][0];
      assert sheets[..n][s] == sheets[s];
    }
    forall k, i | k in m && 1 <= i < |m[k]| ensures RowOf(e, name, sheets, m[k][i], k) {
      var s, j :| 0 <= s < n && 1 <= j < |sheets[..n][s].1| &&
        SheetColumn(e, sheets[..n][s].1, name) != -1 && sheets[..n][s].1[j] == m[k][i] &&
        GroupName(e, Lookup(m[k][i], SheetColumn(e, sheets[..n][s].1, name))) == k;
      assert sheets[..n][s] == sheets[s];
    }
  }

  lemma {:induction false} AddRowsWellGrouped(groups: Groups, e: Engine, name: string, sheets: Sheets, s: nat,
                                              rows: seq<seq<Value>>)
    requires s < |sheets| && |sheets[s].1| > 0 && SheetColumn(e, sheets[s].1, name) != -1
    requires |rows| < |sheets[s].1| && forall i | 0 <= i < |rows| :: rows[i] == sheets[s].1[i + 1]
    requires WellGrouped(e, name, sheets, groups)
    ensures WellGrouped(e, name, sheets, AddRows(groups, e, sheets[s].1[0], SheetColumn(e, sheets[s].1, name), rows))
    decreases |rows|
  {
    if rows != [] {
      var sheet := sheets[s].1;
      var column := SheetColumn(e, sheet, name);
      var init := rows[..|rows| - 1];
      var row := rows[|rows| - 1];
      AddRowsWellGrouped(groups, e, name, sheets, s, init);
      var mid := AddRows(groups, e, sheet[0], column, init);
      var key := GroupName(e, Lookup(row, column));
      assert RowOf(e, name, sheets, row, key) by {
        assert sheet[|rows|] == row;
      }
      assert HeaderOf(e, name, sheets, sheet[0]);
      AddRowWellGrouped(e, name, sheets, mid, key, sheet[0], row);
    }
  }

  /** Pushing a row of group key, under a header row of a sheet with the
      column, keeps every group well formed. */
  lemma AddRowWellGrouped(e: Engine, name: string, sheets: Sheets, mid: Groups, key: string,
                          header: seq<Value>, row: seq<Value>)
    requires WellGrouped(e, name, sheets, mid)
    requires RowOf(e, name, sheets, row, key) && HeaderOf(e, name, sheets, header)
    ensures WellGrouped(e, name, sheets, AddRow(mid, key, header, row))
  {
    var r := AddRow(mid, key, header, row);
    forall k | k in r
      ensures |r[k]| >= 2 && HeaderOf(e, name, sheets, r[k][0]) &&
              forall i | 1 <= i < |r[k]| :: RowOf(e, name, sheets, r[k][i], k)
    {
      if k == key && key in mid {
        assert r[k] == mid[k] + [row];
        forall i | 1 <= i < |r[k]| ensures RowOf(e, name, sheets, r[k][i], k) {
          if i < |mid[k]| {
            assert r[k][i] == mid[k][i];
          }
        }
      } else if k == key {
        assert r[k] == [header, row];
      } else {
        assert r[k] == mid[k];
      }
    }
  }

  /** Every group createGroupedData builds starts with the header row of a
      sheet that has the column, followed by data rows of such sheets whose
      cell names that group. Sheets without the column contribute nothing. */
  lemma {:induction false} GroupsAreWellFormed(e: Engine, name: string, sheets: Sheets)
    requires Grouped(e, name, sheets).Some?
    ensures WellGrouped(e, name, sheets, Grouped(e, name, sheets).value)
    decreases |sheets|
  {
    if sheets != [] {
      var n := |sheets| - 1;
      var init := sheets[..n];
      var sheet := sheets[n].1;
      GroupsAreWellFormed(e, name, init);
      var before := Grouped(e, name, init).value;
      WellGroupedGrow(e, name, sheets, before, n);
      var column := SheetColumn(e, sheet, name);
      if column != -1 {
        AddRowsWellGrouped(before, e, name, sheets, n, sheet[1..]);
      }
    }
  }
}
