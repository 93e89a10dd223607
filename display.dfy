/** displayDataAsGroups (group-controller.js) without the drawing: the
    records of the shown sheets with their group keys attached, the group
    hierarchy handed to createGroupControls, the default selection and the
    visible records. */
module Display {

  import opened JsValues
  import opened Seqs
  import opened Columns
  import opened SheetProcessor
  import opened GroupKeys
  import opened Hierarchy
  import opened GroupedData
  import opened Selection

  /** One entry of `Object.entries(sourceData)`: a sheet name and its rows. */
  type SheetEntry = (string, seq<seq<Value>>)

  /** `groupIndices` for one sheet: the exact header position of each
      grouping column, or -1. */
  function GroupIndices(e: Engine, headers: seq<Value>, groupColumns: seq<string>): (r: seq<int>)
    ensures |r| == |groupColumns|
  {
    seq(|groupColumns|, i requires 0 <= i < |groupColumns| => ExactColumn(e, headers, groupColumns[i]))
  }

  /** `{...location, group}` for each record, in order, with the key keyOf
      gives it; None when keyOf throws for one of them. */
  function TagRecords(locations: seq<Location>, keyOf: Location -> Option<string>): Option<seq<Grouped>>
    decreases |locations|
  {
    if locations == [] then Some([])
    else
      var n := |locations| - 1;
      match TagRecords(locations[..n], keyOf)
      case None => None
      case Some(init) =>
        match keyOf(locations[n])
        case None => None
        case Some(key) => Some(init + [Grouped(locations[n], key)])
  }

  /** createGroupKey of a record's raw row. */
  function KeyOf(e: Engine, groupIndices: seq<int>, groupColumns: seq<string>): Location -> Option<string> {
    (l: Location) => CreateGroupKey(e, l.rawData, groupIndices, groupColumns)
  }

  /** The records one sheet contributes. An empty sheet has no header row and
      `validateRequiredColumns(undefined)` throws (None); a sheet without the
      required columns, or without one of the grouping columns, is skipped. */
  function SheetRecords(e: Engine, name: string, sheet: seq<seq<Value>>, groupColumns: seq<string>)
    : Option<seq<Grouped>>
  {
    if sheet == [] then None
    else
      var cols := ValidateRequiredColumns(e, sheet[0]);
      if cols.Invalid? then Some([])
      else
        var groupIndices := GroupIndices(e, sheet[0], groupColumns);
        if -1 in groupIndices then Some([])
        else
          match ProcessSheetData(e, sheet, cols, name)
          case None => None
          case Some(locations) => TagRecords(locations, KeyOf(e, groupIndices, groupColumns))
  }

  /** The records of one sheet, for the grouping columns. */
  function SheetTagger(e: Engine, groupColumns: seq<string>): SheetEntry -> Option<seq<Grouped>> {
    (entry: SheetEntry) => SheetRecords(e, entry.0, entry.1, groupColumns)
  }

  /** `allLocations` after visiting the first n entries of sourceData, with
      recordsOf giving the records of one sheet. */
  function CollectRecords(sourceData: Sheets, selectedSheets: seq<string>,
                          recordsOf: SheetEntry -> Option<seq<Grouped>>, n: nat): Option<seq<Grouped>>
    requires n <= |sourceData|
  {
    if n == 0 then Some([])
    else
      match CollectRecords(sourceData, selectedSheets, recordsOf, n - 1)
      case None => None
      case Some(acc) =>
        if sourceData[n - 1].0 !in selectedSheets then Some(acc)
        else
          match recordsOf(sourceData[n - 1])
          case None => None
          case Some(records) => Some(acc + records)
  }

  /** Once a sheet has thrown, nothing after it runs. */
  lemma {:induction false} CollectStuck(sourceData: Sheets, selectedSheets: seq<string>,
                                        recordsOf: SheetEntry -> Option<seq<Grouped>>, k: nat, n: nat)
    requires k <= n <= |sourceData|
    requires CollectRecords(sourceData, selectedSheets, recordsOf, k).None?
    ensures CollectRecords(sourceData, selectedSheets, recordsOf, n).None?
    decreases n
  {
    if k < n {
      CollectStuck(sourceData, selectedSheets, recordsOf, k, n - 1);
    }
  }

  /** Phase 1 of displayDataAsGroups: the loop over the entries of sourceData. */
  method CollectLocations(sourceData: Sheets, selectedSheets: seq<string>,
                          recordsOf: SheetEntry -> Option<seq<Grouped>>)
    returns (allLocations: Option<seq<Grouped>>)
    ensures allLocations == CollectRecords(sourceData, selectedSheets, recordsOf, |sourceData|)
  {
    var acc: seq<Grouped> := [];
    var k := 0;
    while k < |sourceData|
      invariant 0 <= k <= |sourceData|
      invariant CollectRecords(sourceData, selectedSheets, recordsOf, k) == Some(acc)
    {
      if sourceData[k].0 in selectedSheets {
        var records := recordsOf(sourceData[k]);
        if records.None? {
          CollectStuck(sourceData, selectedSheets, recordsOf, k + 1, |sourceData|);
          return None;
        }
        acc := acc + records.value;
      }
      k := k + 1;
    }
    allLocations := Some(acc);
  }

  // ------------------------------------------------------------ properties

  /** Each record keeps its location and carries the key keyOf gives it; the
      tagging throws exactly when keyOf throws for some record. */
  lemma {:induction false} TagRecordsSpec(locations: seq<Location>, keyOf: Location -> Option<string>)
    ensures TagRecords(locations, keyOf).Some? ==>
      |TagRecords(locations, keyOf).value| == |locations| &&
      forall i | 0 <= i < |locations| ::
        TagRecords(locations, keyOf).value[i].location == locations[i] &&
        keyOf(locations[i]) == Some(TagRecords(locations, keyOf).value[i].group)
    ensures TagRecords(locations, keyOf).None? <==> exists i | 0 <= i < |locations| :: keyOf(locations[i]).None?
    decreases |locations|
  {
    if locations != [] {
      var n := |locations| - 1;
      TagRecordsSpec(locations[..n], keyOf);
      assert forall i | 0 <= i < n :: locations[..n][i] == locations[i];
    }
  }

  /** g is a record of the named sheet: the sheet has the required columns
      and every grouping column, g passed processSheetData's filter, names
      its data row, and its key is createGroupKey of that row. */
  ghost predicate TaggedRow(e: Engine, name: string, sheet: seq<seq<Value>>, groupColumns: seq<string>, g: Grouped) {
    SheetReady(e, sheet, groupColumns) && RowRecord(name, sheet, g.location) &&
    KeyOf(e, GroupIndices(e, sheet[0], groupColumns), groupColumns)(g.location) == Some(g.group)
  }

  /** The sheet has a header row with the required columns and every
      grouping column. */
  predicate SheetReady(e: Engine, sheet: seq<seq<Value>>, groupColumns: seq<string>) {
    |sheet| > 0 && ValidateRequiredColumns(e, sheet[0]).Valid? && -1 !in GroupIndices(e, sheet[0], groupColumns)
  }

  /** l passed processSheetData's filter and names its data row of the sheet. */
  predicate RowRecord(name: string, sheet: seq<seq<Value>>, l: Location) {
    Usable(l) && l.sheetName == Some(name) && 2 <= l.rowIndex <= |sheet| && l.rawData == sheet[l.rowIndex - 1]
  }

  /** A sheet with all the columns contributes every record processSheetData
      returns, in that order. */
  lemma SheetRecordsLocations(e: Engine, name: string, sheet: seq<seq<Value>>, groupColumns: seq<string>)
    requires SheetRecords(e, name, sheet, groupColumns).Some?
    requires |sheet| > 0 && ValidateRequiredColumns(e, sheet[0]).Valid?
    requires -1 !in GroupIndices(e, sheet[0], groupColumns)
    ensures var locations := ProcessSheetData(e, sheet, ValidateRequiredColumns(e, sheet[0]), name);
      var r := SheetRecords(e, name, sheet, groupColumns).value;
      locations.Some? && |r| == |locations.value| &&
      forall i | 0 <= i < |r| :: r[i].location == locations.value[i]
  {
    var cols := ValidateRequiredColumns(e, sheet[0]);
    var locations := ProcessSheetData(e, sheet, cols, name).value;
    var keyOf := KeyOf(e, GroupIndices(e, sheet[0], groupColumns), groupColumns);
    assert SheetRecords(e, name, sheet, groupColumns) == TagRecords(locations, keyOf);
    TagRecordsSpec(locations, keyOf);
  }

  /** A sheet contributes only its own records, each tagged with
      createGroupKey of its row. */
  lemma SheetRecordsTagged(e: Engine, name: string, sheet: seq<seq<Value>>, groupColumns: seq<string>)
    requires SheetRecords(e, name, sheet, groupColumns).Some?
    ensures forall g | g in SheetRecords(e, name, sheet, groupColumns).value :: TaggedRow(e, name, sheet, groupColumns, g)
  {
    var r := SheetRecords(e, name, sheet, groupColumns).value;
    if r != [] {
      var locations := SheetRecordsUnfold(e, name, sheet, groupColumns);
      TaggedAll(e, name, sheet, groupColumns, locations, r);
    }
  }

  /** A sheet with records passed every check and its records are the tagged
      processed rows. */
  lemma SheetRecordsUnfold(e: Engine, name: string, sheet: seq<seq<Value>>, groupColumns: seq<string>)
    returns (locations: seq<Location>)
    requires SheetRecords(e, name, sheet, groupColumns).Some?
    requires SheetRecords(e, name, sheet, groupColumns).value != []
    ensures |sheet| > 0 && ValidateRequiredColumns(e, sheet[0]).Valid?
    ensures -1 !in GroupIndices(e, sheet[0], groupColumns)
    ensures ProcessSheetData(e, sheet, ValidateRequiredColumns(e, sheet[0]), name) == Some(locations)
    ensures TagRecords(locations, KeyOf(e, GroupIndices(e, sheet[0], groupColumns), groupColumns))
            == SheetRecords(e, name, sheet, groupColumns)
  {
    locations := ProcessSheetData(e, sheet, ValidateRequiredColumns(e, sheet[0]), name).value;
  }

  lemma TaggedAll(e: Engine, name: string, sheet: seq<seq<Value>>, groupColumns: seq<string>,
                  locations: seq<Location>, r: seq<Grouped>)
    requires |sheet| > 0 && ValidateRequiredColumns(e, sheet[0]).Valid?
    requires -1 !in GroupIndices(e, sheet[0], groupColumns)
    requires ProcessSheetData(e, sheet, ValidateRequiredColumns(e, sheet[0]), name) == Some(locations)
    requires TagRecords(locations, KeyOf(e, GroupIndices(e, sheet[0], groupColumns), groupColumns)) == Some(r)
    ensures forall g | g in r :: TaggedRow(e, name, sheet, groupColumns, g)
  {
    var keyOf := KeyOf(e, GroupIndices(e, sheet[0], groupColumns), groupColumns);
    TagRecordsSpec(locations, keyOf);
    forall g | g in r ensures TaggedRow(e, name, sheet, groupColumns, g) {
      var i :| 0 <= i < |r| && r[i] == g;
      TaggedOne(e, name, sheet, groupColumns, locations, g);
      assert SheetReady(e, sheet, groupColumns);
    }
  }

  lemma TaggedOne(e: Engine, name: string, sheet: seq<seq<Value>>, groupColumns: seq<string>,
                  locations: seq<Location>, g: Grouped)
    requires |sheet| > 0 && ValidateRequiredColumns(e, sheet[0]).Valid?
    requires -1 !in GroupIndices(e, sheet[0], groupColumns)
    requires ProcessSheetData(e, sheet, ValidateRequiredColumns(e, sheet[0]), name) == Some(locations)
    requires g.location in locations
    requires KeyOf(e, GroupIndices(e, sheet[0], groupColumns), groupColumns)(g.location) == Some(g.group)
    ensures RowRecord(name, sheet, g.location)
  {
    ProcessedRow(e, sheet, ValidateRequiredColumns(e, sheet[0]), name, g.location);
  }

  /** g is one of the records recordsOf gives for one of the first n sheets,
      and that sheet is selected. */
  ghost predicate FromShownSheet(sourceData: Sheets, selectedSheets: seq<string>,
                                 recordsOf: SheetEntry -> Option<seq<Grouped>>, n: nat, g: Grouped)
    requires n <= |sourceData|
  {
    exists a | 0 <= a < n ::
      sourceData[a].0 in selectedSheets && recordsOf(sourceData[a]).Some? && g in recordsOf(sourceData[a]).value
  }

  /** allLocations holds only records of selected sheets, and it holds every
      record of each selected sheet; unselected sheets contribute nothing. */
  lemma {:induction false} CollectRecordsSpec(sourceData: Sheets, selectedSheets: seq<string>,
                                              recordsOf: SheetEntry -> Option<seq<Grouped>>, n: nat)
    requires n <= |sourceData|
    requires CollectRecords(sourceData, selectedSheets, recordsOf, n).Some?
    ensures forall g | g in CollectRecords(sourceData, selectedSheets, recordsOf, n).value ::
      FromShownSheet(sourceData, selectedSheets, recordsOf, n, g)
    ensures forall a | 0 <= a < n && sourceData[a].0 in selectedSheets ::
      recordsOf(sourceData[a]).Some? &&
      multiset(recordsOf(sourceData[a]).value) <= multiset(CollectRecords(sourceData, selectedSheets, recordsOf, n).value)
    decreases n
  {
    if n > 0 {
      CollectRecordsSpec(sourceData, selectedSheets, recordsOf, n - 1);
      var acc := CollectRecords(sourceData, selectedSheets, recordsOf, n - 1).value;
      var r := CollectRecords(sourceData, selectedSheets, recordsOf, n).value;
      if sourceData[n - 1].0 in selectedSheets {
        var records := recordsOf(sourceData[n - 1]).value;
        assert r == acc + records;
        forall g | g in r ensures FromShownSheet(sourceData, selectedSheets, recordsOf, n, g) {
          if g in acc {
            var a :| 0 <= a < n - 1 && sourceData[a].0 in selectedSheets && recordsOf(sourceData[a]).Some? &&
              g in recordsOf(sourceData[a]).value;
          }
        }
      } else {
        forall g | g in r ensures FromShownSheet(sourceData, selectedSheets, recordsOf, n, g) {
          var a :| 0 <= a < n - 1 && sourceData[a].0 in selectedSheets && recordsOf(sourceData[a]).Some? &&
            g in recordsOf(sourceData[a]).value;
        }
      }
    }
  }

  /** Every record displayDataAsGroups collects is a record of a selected
      sheet that has all the columns, tagged with createGroupKey of its row. */
  lemma CollectedRecordsTagged(e: Engine, sourceData: Sheets, selectedSheets: seq<string>, groupColumns: seq<string>)
    requires CollectRecords(sourceData, selectedSheets, SheetTagger(e, groupColumns), |sourceData|).Some?
    ensures forall g | g in CollectRecords(sourceData, selectedSheets, SheetTagger(e, groupColumns), |sourceData|).value ::
      exists a | 0 <= a < |sourceData| ::
        sourceData[a].0 in selectedSheets && TaggedRow(e, sourceData[a].0, sourceData[a].1, groupColumns, g)
  {
    var recordsOf := SheetTagger(e, groupColumns);
    CollectRecordsSpec(sourceData, selectedSheets, recordsOf, |sourceData|);
    forall g | g in CollectRecords(sourceData, selectedSheets, recordsOf, |sourceData|).value
      ensures exists a | 0 <= a < |sourceData| ::
        sourceData[a].0 in selectedSheets && TaggedRow(e, sourceData[a].0, sourceData[a].1, groupColumns, g)
    {
      var a :| 0 <= a < |sourceData| && sourceData[a].0 in selectedSheets && recordsOf(sourceData[a]).Some? &&
        g in recordsOf(sourceData[a]).value;
      SheetRecordsTagged(e, sourceData[a].0, sourceData[a].1, groupColumns);
    }
  }

  // ------------------------------------------------- hierarchy and selection

  /** What displayDataAsGroups leaves behind: the hierarchy given to
      createGroupControls, the group selection and the records drawn. */
  datatype Shown = Shown(tree: seq<Entry<Grouped>>, selected: set<string>, visible: seq<Grouped>)

  /** Phases 2 and 3 over allLocations: the hierarchy, the default
      selection of every group key when nothing is selected, and the records
      whose full key is selected. */
  function ShowRecords(all: seq<Grouped>, selected: set<string>): Shown {
    var groups := DefaultSelection(selected, AllPrefixKeys(all));
    Shown(BuildTree(all), groups, Visible(all, groups))
  }

  /** displayDataAsGroups; None when phase 1 throws. */
  function DisplayGroups(e: Engine, sourceData: Sheets, selectedSheets: seq<string>, groupColumns: seq<string>,
                         selected: set<string>): Option<Shown>
  {
    match CollectRecords(sourceData, selectedSheets, SheetTagger(e, groupColumns), |sourceData|)
    case None => None
    case Some(all) => Some(ShowRecords(all, selected))
  }

  /** The displayed hierarchy never has `|` inside a key; the selection only
      grows; the visible records are the selected ones, in order; and with
      nothing selected beforehand every record is visible. */
  lemma ShowRecordsSpec(all: seq<Grouped>, selected: set<string>)
    ensures KeysClean(ShowRecords(all, selected).tree)
    ensures selected <= ShowRecords(all, selected).selected
    ensures forall g :: g in ShowRecords(all, selected).visible <==> g in all && g.group in ShowRecords(all, selected).selected
    ensures multiset(ShowRecords(all, selected).visible) <= multiset(all)
    ensures selected == {} ==> ShowRecords(all, selected).visible == all
    ensures selected != {} ==> ShowRecords(all, selected).selected == selected
  {
    BuildTreeClean(all);
    VisibleIs(all, DefaultSelection(selected, AllPrefixKeys(all)));
    if selected == {} {
      DefaultShowsAll(all);
    }
  }

  /** Phases 2 and 3 as the source runs them. */
  method ShowLocations(allLocations: seq<Grouped>, selected: set<string>) returns (shown: Shown)
    ensures shown == ShowRecords(allLocations, selected)
  {
    var tree, allGroupKeys := BuildGroupHierarchy(allLocations);
    var groups := selected;
    if |groups| == 0 && |allGroupKeys| > 0 {
      groups := groups + allGroupKeys;
    }
    var visibleLocations := Visible(allLocations, groups);
    shown := Shown(tree, groups, visibleLocations);
  }
}
