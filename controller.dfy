/** The application state of ui-controller.js and group-controller.js: the
    loaded sheets, the column list, the grouping columns, the selected sheets
    (a JavaScript Set, kept in insertion order) and the selected group keys,
    with the handlers that change them. The DOM is gone: the group checkboxes
    are read through the hierarchy the group controls were built from. */
module Controller {

  import opened JsValues
  import opened Seqs
  import opened Hierarchy
  import opened GroupedData
  import opened Selection
  import opened Loader
  import opened Display

  /** What the data parser hands over: the sheets of a workbook, or the rows
      of a CSV file. */
  datatype Parsed = Xlsx(sheets: Sheets) | Csv(rows: Rows)

  /** How the map was redrawn: not at all, by a throw in displayDataAsGroups,
      sheet by sheet, or as the visible records of the group display. */
  datatype Redraw = Untouched | Thrown | SheetMode(sheets: Sheets) | GroupMode(visible: seq<Grouped>)

  /** `.map(s => s.value).filter(v => v)` over the group column selectors. */
  function GroupColumnsOf(selectorValues: seq<string>): seq<string> {
    Filter(selectorValues, (v: string) => v != [])
  }

  /** `allData[name]`; object keys are unique, so the first entry decides. */
  function SheetData(allData: Sheets, name: string): (r: Option<seq<seq<Value>>>)
    ensures r.Some? <==> exists a | 0 <= a < |allData| :: allData[a].0 == name
    ensures r.Some? ==> (name, r.value) in allData
    decreases |allData|
  {
    if allData == [] then None
    else if allData[0].0 == name then Some(allData[0].1)
    else
      var r := SheetData(allData[1..], name);
      assert forall a | 1 <= a < |allData| :: allData[a] == allData[1..][a - 1];
      r
  }

  /** `visibleSheetData`: each selected sheet that is loaded, in selection order. */
  function VisibleSheets(allData: Sheets, selectedSheets: seq<string>): Sheets
    decreases |selectedSheets|
  {
    if selectedSheets == [] then []
    else
      var n := |selectedSheets| - 1;
      var init := VisibleSheets(allData, selectedSheets[..n]);
      match SheetData(allData, selectedSheets[n])
      case None => init
      case Some(rows) => init + [(selectedSheets[n], rows)]
  }

  /** The `selectedSheets.forEach` loop that builds visibleSheetData. */
  method SelectSheets(allData: Sheets, selectedSheets: seq<string>) returns (visibleSheetData: Sheets)
    ensures visibleSheetData == VisibleSheets(allData, selectedSheets)
  {
    visibleSheetData := [];
    var k := 0;
    while k < |selectedSheets|
      invariant 0 <= k <= |selectedSheets|
      invariant visibleSheetData == VisibleSheets(allData, selectedSheets[..k])
    {
      assert selectedSheets[..k + 1][..k] == selectedSheets[..k];
      var rows := SheetData(allData, selectedSheets[k]);
      if rows.Some? {
        visibleSheetData := visibleSheetData + [(selectedSheets[k], rows.value)];
      }
      k := k + 1;
    }
    assert selectedSheets[..k] == selectedSheets;
  }

  /** The shown sheets are exactly the selected ones that are loaded, each
      with its own rows, in selection order. */
  lemma {:induction false} VisibleSheetsSpec(allData: Sheets, selectedSheets: seq<string>)
    ensures forall v | v in VisibleSheets(allData, selectedSheets) ::
      v.0 in selectedSheets && SheetData(allData, v.0) == Some(v.1)
    ensures forall name | name in selectedSheets && SheetData(allData, name).Some? ::
      (name, SheetData(allData, name).value) in VisibleSheets(allData, selectedSheets)
    ensures |VisibleSheets(allData, selectedSheets)| <= |selectedSheets|
    decreases |selectedSheets|
  {
    if selectedSheets != [] {
      var n := |selectedSheets| - 1;
      VisibleSheetsSpec(allData, selectedSheets[..n]);
      assert selectedSheets == selectedSheets[..n] + [selectedSheets[n]];
    }
  }

  /** selectedSheets after its checkbox changes: `add` keeps an existing
      entry where it is, `delete` removes it. */
  function ToggledSheets(selectedSheets: seq<string>, name: string, checked: bool): seq<string> {
    if checked then (if name in selectedSheets then selectedSheets else selectedSheets + [name])
    else Filter(selectedSheets, (s: string) => s != name)
  }

  /** A sheet toggle selects the sheet iff it was checked, leaves every other
      sheet as it was and keeps the set free of duplicates. */
  lemma ToggledSheetsSpec(selectedSheets: seq<string>, name: string, checked: bool)
    requires NoDuplicates(selectedSheets)
    ensures NoDuplicates(ToggledSheets(selectedSheets, name, checked))
    ensures name in ToggledSheets(selectedSheets, name, checked) <==> checked
    ensures forall s | s != name :: s in ToggledSheets(selectedSheets, name, checked) <==> s in selectedSheets
  {
    FilterMembers(selectedSheets, (s: string) => s != name);
    if !checked {
      FilterNoDuplicates(selectedSheets, (s: string) => s != name);
    }
  }

  lemma {:induction false} FilterNoDuplicates<T>(s: seq<T>, p: T -> bool)
    requires NoDuplicates(s)
    ensures NoDuplicates(Filter(s, p))
    decreases |s|
  {
    if s != [] {
      FilterNoDuplicates(s[1..], p);
      FilterMembers(s[1..], p);
      assert s[0] !in s[1..];
    }
  }

  /** The grouping columns ordered by the selectors, and the selected groups
      that survive that order: all of them when the columns are unchanged,
      none when they differ. */
  function KeptGroups(selectorValues: seq<string>, currentGroupColumns: seq<string>, selectedGroups: set<string>)
    : set<string>
  {
    if GroupColumnsOf(selectorValues) == currentGroupColumns then selectedGroups else {}
  }

  /** onGroupColumnChange on a value: the new grouping columns, selected
      groups, group hierarchy and the redraw. */
  datatype View = View(groupColumns: seq<string>, selectedGroups: set<string>, tree: seq<Entry<Grouped>>, redraw: Redraw)

  function Refreshed(e: Engine, allData: Sheets, selectedSheets: seq<string>, currentGroupColumns: seq<string>,
                     selectedGroups: set<string>, tree: seq<Entry<Grouped>>, selectorValues: seq<string>): View
  {
    var columns := GroupColumnsOf(selectorValues);
    var kept := KeptGroups(selectorValues, currentGroupColumns, selectedGroups);
    var visible := VisibleSheets(allData, selectedSheets);
    if columns == [] then View(columns, kept, [], SheetMode(visible))
    else
      match DisplayGroups(e, visible, selectedSheets, columns, kept)
      case None => View(columns, kept, tree, Thrown)
      case Some(shown) => View(columns, shown.selected, shown.tree, GroupMode(shown.visible))
  }

  /** With only the fresh, empty selector, the refresh keeps the selection,
      clears the group controls and draws the shown sheets one by one. */
  lemma RefreshedSheetMode(e: Engine, allData: Sheets, selectedSheets: seq<string>, groups: set<string>,
                           tree: seq<Entry<Grouped>>)
    ensures Refreshed(e, allData, selectedSheets, [], groups, tree, [""]) ==
      View([], groups, [], SheetMode(VisibleSheets(allData, selectedSheets)))
  {
    assert GroupColumnsOf([""]) == [] by {
      assert Filter([""], (v: string) => v != []) == [];
    }
  }

  /** Changing the grouping columns starts from an empty selection, so the
      group display then selects every group and draws every record of the
      shown sheets; keeping them keeps every selected group. */
  lemma RefreshedSelection(e: Engine, allData: Sheets, selectedSheets: seq<string>, currentGroupColumns: seq<string>,
                           selectedGroups: set<string>, tree: seq<Entry<Grouped>>, selectorValues: seq<string>)
    ensures var v := Refreshed(e, allData, selectedSheets, currentGroupColumns, selectedGroups, tree, selectorValues);
      v.groupColumns == GroupColumnsOf(selectorValues) &&
      (GroupColumnsOf(selectorValues) == currentGroupColumns ==> selectedGroups <= v.selectedGroups) &&
      (GroupColumnsOf(selectorValues) != currentGroupColumns && v.redraw.GroupMode? ==>
        v.redraw.visible ==
        CollectRecords(VisibleSheets(allData, selectedSheets), selectedSheets,
                       SheetTagger(e, GroupColumnsOf(selectorValues)), |VisibleSheets(allData, selectedSheets)|).value)
  {
    var visible := VisibleSheets(allData, selectedSheets);
    var columns := GroupColumnsOf(selectorValues);
    var all := CollectRecords(visible, selectedSheets, SheetTagger(e, columns), |visible|);
    if columns != [] && all.Some? {
      ShowRecordsSpec(all.value, KeptGroups(selectorValues, currentGroupColumns, selectedGroups));
    }
  }

  /** The loop over a node's children in the checkbox handler: add or delete
      each key in turn. */
  method SetEach(groups: set<string>, keys: set<string>, checked: bool) returns (r: set<string>)
    ensures r == SetAll(groups, keys, checked)
  {
    r := groups;
    var rest := keys;
    while rest != {}
      invariant rest <= keys
      invariant r == SetAll(groups, keys - rest, checked)
      decreases |rest|
    {
      var child :| child in rest;
      if checked {
        r := r + {child};
      } else {
        r := r - {child};
      }
      rest := rest - {child};
    }
    assert keys - rest == keys;
  }

  class AppState {
    /** `allData`: the loaded sheets, in key order. */
    var allData: Sheets
    var allColumns: seq<Value>
    var currentGroupColumns: seq<string>
    /** `selectedSheets`, a Set, in insertion order. */
    var selectedSheets: seq<string>
    var selectedGroups: set<string>
    /** The hierarchy the group checkboxes were last built from. */
    var groupTree: seq<Entry<Grouped>>

    ghost predicate Valid()
      reads this
    {
      NoDuplicates(selectedSheets) && KeysClean(groupTree)
    }

    /** The state after one onGroupColumnChange from the given old state. */
    ghost predicate RefreshedFrom(e: Engine, selectorValues: seq<string>, columns: seq<string>, groups: set<string>,
                                  tree: seq<Entry<Grouped>>, redraw: Redraw)
      reads this
    {
      View(currentGroupColumns, selectedGroups, groupTree, redraw) ==
        Refreshed(e, allData, selectedSheets, columns, groups, tree, selectorValues)
    }

    /** The globals of app.js at start-up. */
    constructor()
      ensures Valid()
      ensures allData == [] && allColumns == [] && currentGroupColumns == [] && selectedSheets == []
      ensures selectedGroups == {} && groupTree == []
    {
      allData := [];
      allColumns := [];
      currentGroupColumns := [];
      selectedSheets := [];
      selectedGroups := {};
      groupTree := [];
    }

    /** displayDataAsGroups over the given sheets with the current grouping
      columns: the group controls are rebuilt, the selection defaults to every
      group when empty, and the selected records are drawn. A throw leaves
      the selection and the controls as they were. */
    method ShowGroups(e: Engine, sourceData: Sheets) returns (redraw: Redraw)
      requires Valid()
      modifies this
      ensures Valid()
      ensures allData == old(allData) && allColumns == old(allColumns)
      ensures currentGroupColumns == old(currentGroupColumns) && selectedSheets == old(selectedSheets)
      ensures match DisplayGroups(e, sourceData, selectedSheets, currentGroupColumns, old(selectedGroups))
        case None => redraw == Thrown && selectedGroups == old(selectedGroups) && groupTree == old(groupTree)
        case Some(shown) =>
          redraw == GroupMode(shown.visible) && selectedGroups == shown.selected && groupTree == shown.tree
    {
      var allLocations := CollectLocations(sourceData, selectedSheets, SheetTagger(e, currentGroupColumns));
      if allLocations.None? {
        return Thrown;
      }
      var shown := ShowLocations(allLocations.value, selectedGroups);
      ShowRecordsSpec(allLocations.value, selectedGroups);
      selectedGroups := shown.selected;
      groupTree := shown.tree;
      redraw := GroupMode(shown.visible);
    }

    /** onGroupColumnChange: take the non-empty selector values, drop the
      group selection iff they differ from the current columns, then show
      the selected sheets grouped, or sheet by sheet when there are no
      grouping columns. */
    method ChangeGroupColumns(e: Engine, selectorValues: seq<string>) returns (redraw: Redraw)
      requires Valid()
      modifies this
      ensures Valid()
      ensures allData == old(allData) && allColumns == old(allColumns) && selectedSheets == old(selectedSheets)
      ensures currentGroupColumns == GroupColumnsOf(selectorValues)
      ensures RefreshedFrom(e, selectorValues, old(currentGroupColumns), old(selectedGroups), old(groupTree), redraw)
    {
      var newGroupColumns := GroupColumnsOf(selectorValues);
      if newGroupColumns != currentGroupColumns {
        selectedGroups := {};
      }
      currentGroupColumns := newGroupColumns;
      var visibleSheetData := SelectSheets(allData, selectedSheets);
      if |currentGroupColumns| > 0 {
        redraw := ShowGroups(e, visibleSheetData);
      } else {
        groupTree := [];
        redraw := SheetMode(visibleSheetData);
      }
    }

    /** The sheet checkbox handler: add or delete the sheet, then refresh as
      onGroupColumnChange does. */
    method ToggleSheet(e: Engine, name: string, checked: bool, selectorValues: seq<string>) returns (redraw: Redraw)
      requires Valid()
      modifies this
      ensures Valid()
      ensures selectedSheets == ToggledSheets(old(selectedSheets), name, checked)
      ensures name in selectedSheets <==> checked
      ensures forall s | s != name :: s in selectedSheets <==> s in old(selectedSheets)
      ensures allData == old(allData) && allColumns == old(allColumns)
      ensures RefreshedFrom(e, selectorValues, old(currentGroupColumns), old(selectedGroups), old(groupTree), redraw)
    {
      ToggledSheetsSpec(selectedSheets, name, checked);
      if checked {
        if name !in selectedSheets {
          selectedSheets := selectedSheets + [name];
        }
      } else {
        selectedSheets := Filter(selectedSheets, (s: string) => s != name);
      }
      redraw := ChangeGroupColumns(e, selectorValues);
    }

    /** The group checkbox handler at path: set the node's own key and its
      direct children's keys, then recompute only the immediate parent. */
    method ToggleGroup(path: seq<string>, checked: bool)
      requires Valid() && |path| >= 1 && NodeAt(groupTree, path).Some?
      modifies this
      ensures Valid()
      ensures selectedGroups == Selection.ToggleGroup(old(selectedGroups), groupTree, path, checked)
      ensures allData == old(allData) && allColumns == old(allColumns) && currentGroupColumns == old(currentGroupColumns)
      ensures selectedSheets == old(selectedSheets) && groupTree == old(groupTree)
    {
      var key := DataKey(path);
      var groups := selectedGroups;
      if checked {
        groups := groups + {key};
      } else {
        groups := groups - {key};
      }
      assert groups == SetAll(selectedGroups, {key}, checked);
      groups := SetEach(groups, ChildKeys(groupTree, path), checked);
      if |path| >= 2 {
        var parent := path[..|path| - 1];
        groups := UpdateParent(groups, ChildKeys(groupTree, parent), DataKey(parent));
      }
      selectedGroups := groups;
    }

    /** updateMapDisplay: with grouping columns, redraw the selected sheets
      grouped; without, do nothing. */
    method UpdateMapDisplay(e: Engine) returns (redraw: Redraw)
      requires Valid()
      modifies this
      ensures Valid()
      ensures allData == old(allData) && allColumns == old(allColumns)
      ensures currentGroupColumns == old(currentGroupColumns) && selectedSheets == old(selectedSheets)
      ensures currentGroupColumns == [] ==>
        redraw == Untouched && selectedGroups == old(selectedGroups) && groupTree == old(groupTree)
      ensures currentGroupColumns != [] ==>
        match DisplayGroups(e, VisibleSheets(allData, selectedSheets), selectedSheets, currentGroupColumns,
                            old(selectedGroups))
        case None => redraw == Thrown && selectedGroups == old(selectedGroups) && groupTree == old(groupTree)
        case Some(shown) =>
          redraw == GroupMode(shown.visible) && selectedGroups == shown.selected && groupTree == shown.tree
    {
      if |currentGroupColumns| == 0 {
        return Untouched;
      }
      var visibleSheetData := SelectSheets(allData, selectedSheets);
      redraw := ShowGroups(e, visibleSheetData);
    }

    /** processLoadedData: reset the state, take the workbook's sheets or
      split the CSV rows into sheets, collect the columns, select the first
      sheet and refresh with the one fresh, empty group selector. The group
      selection is not reset here. */
    /** The sheets a parsed file yields: a workbook's sheets as they are, a
        CSV file's rows split at its header rows. */
    static method ReadSheets(e: Engine, parsed: Parsed) returns (sheets: Sheets)
      ensures sheets == (match parsed
                         case Xlsx(s) => s
                         case Csv(rows) => CsvSheets(rows, IsHeader(e), NotEmpty(e)))
    {
      match parsed {
        case Xlsx(s) =>
          sheets := s;
        case Csv(rows) =>
          sheets := SplitCsv(rows, IsHeader(e), NotEmpty(e));
      }
    }

    method Load(e: Engine, parsed: Parsed) returns (redraw: Redraw)
      requires Valid()
      modifies this
      ensures Valid()
      ensures allData == (match parsed
                          case Xlsx(sheets) => sheets
                          case Csv(rows) => CsvSheets(rows, IsHeader(e), NotEmpty(e)))
      ensures allColumns == AllColumns(allData)
      ensures selectedSheets == (if allData == [] then [] else [allData[0].0])
      ensures currentGroupColumns == [] && selectedGroups == old(selectedGroups) && groupTree == []
      ensures redraw == SheetMode(VisibleSheets(allData, selectedSheets))
    {
      var sheets := ReadSheets(e, parsed);
      var columns := CollectColumns(sheets);
      allData, allColumns, currentGroupColumns := sheets, columns, [];
      selectedSheets := if |sheets| > 0 then [sheets[0].0] else [];
      ghost var groups, tree := selectedGroups, groupTree;
      redraw := ChangeGroupColumns(e, [""]);
      RefreshedSheetMode(e, allData, selectedSheets, groups, tree);
    }
  }
}
