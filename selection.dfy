/** The group checkbox rules of group-controller.js over the hierarchy:
    toggling a node sets its own key and its direct children's keys, then only
    the immediate parent is recomputed (updateParentGroupState). */
module Selection {

  import opened JsValues
  import opened JsText
  import opened GroupKeys
  import opened Hierarchy
  import opened Seqs

  /** The node at a path of the tree, if there is one. */
  function NodeAt<T>(es: seq<Entry<T>>, path: seq<string>): Option<Node<T>>
    requires |path| >= 1
    decreases |path|
  {
    var i := EntryIndex(es, path[0]);
    if i == |es| then None
    else if |path| == 1 then Some(es[i].node)
    else if es[i].node.Branch? then NodeAt(es[i].node.entries, path[1..])
    else None
  }

  /** The group key of a node, as allGroupKeys lists it: its path joined with `|`. */
  function FullKey(path: seq<string>): string {
    Join(path, Separator)
  }

  /** The key a node's checkbox carries (`data-key`): a top-level node's own
      segment; below it, the parent's key, `|` and the segment, except that
      under a parent whose key is empty the segment stands alone. */
  function DataKey(path: seq<string>): string
    requires |path| >= 1
    decreases |path|
  {
    if |path| == 1 then path[0]
    else
      var parentKey := DataKey(path[..|path| - 1]);
      if parentKey == "" then path[|path| - 1] else parentKey + [Separator] + path[|path| - 1]
  }

  /** The checkbox keys of a node's direct children; a leaf has none. */
  function ChildKeys<T>(es: seq<Entry<T>>, path: seq<string>): set<string>
    requires |path| >= 1
  {
    match NodeAt(es, path)
    case Some(Branch(children)) => set k | 0 <= k < |children| :: DataKey(path + [children[k].key])
    case _ => {}
  }

  /** When the top-level segment is not empty, a checkbox carries the node's
      group key, so it selects exactly the keys the records are filtered by. */
  lemma {:induction false} DataKeyIsFullKey(path: seq<string>)
    requires |path| >= 1 && path[0] != ""
    ensures DataKey(path) == FullKey(path) && DataKey(path) != ""
    decreases |path|
  {
    if |path| > 1 {
      var parent := path[..|path| - 1];
      DataKeyIsFullKey(parent);
      assert path == parent + [path[|path| - 1]];
      JoinSnoc(parent, path[|path| - 1], Separator);
    }
  }

  /** Under an empty top-level segment the checkbox key is not the group key:
      the group key starts with `|`, the checkbox key never does. */
  lemma EmptyTopKeyDiffers(path: seq<string>)
    requires |path| >= 2 && path[0] == "" && NoSeparator(path)
    ensures DataKey(path) != FullKey(path)
  {
    assert FullKey(path) == [Separator] + Join(path[1..], Separator);
    DataKeyHead(path);
  }

  /** A checkbox key of separator-free segments is empty or does not start with `|`. */
  lemma {:induction false} DataKeyHead(path: seq<string>)
    requires |path| >= 1 && NoSeparator(path)
    ensures DataKey(path) == "" || DataKey(path)[0] != Separator
    decreases |path|
  {
    if |path| > 1 {
      var parent := path[..|path| - 1];
      DataKeyHead(parent);
      var last := path[|path| - 1];
      assert Separator !in last;
      if DataKey(parent) == "" && last != "" {
        assert last[0] in last;
      }
    } else {
      assert Separator !in path[0];
      if path[0] != "" { assert path[0][0] in path[0]; }
    }
  }

  /** No key of the tree contains the separator. */
  ghost predicate KeysClean<T>(es: seq<Entry<T>>) {
    forall k | 0 <= k < |es| ::
      Separator !in es[k].key && (es[k].node.Branch? ==> KeysClean(es[k].node.entries))
  }

  /** `selectedGroups.add` or `.delete` of every key in keys. */
  function SetAll(selected: set<string>, keys: set<string>, on: bool): set<string> {
    if on then selected + keys else selected - keys
  }

  /** updateParentGroupState on the parent whose children have the given keys. */
  function UpdateParent(selected: set<string>, children: set<string>, parentKey: string): (r: set<string>)
    ensures children == {} ==> r == selected
    ensures children != {} && children <= selected ==> r == selected + {parentKey}
    ensures children != {} && children * selected == {} ==> r == selected - {parentKey}
    ensures children != {} && !(children <= selected) && children * selected != {} ==> r == selected
  {
    if children == {} then selected
    else if children <= selected then selected + {parentKey}
    else if children * selected == {} then selected - {parentKey}
    else selected
  }

  /** The change handler of the checkbox at path: own key, direct children,
      then the immediate parent when there is one. */
  function ToggleGroup<T>(selected: set<string>, tree: seq<Entry<T>>, path: seq<string>, checked: bool): set<string>
    requires |path| >= 1
  {
    var afterChildren := SetAll(SetAll(selected, {DataKey(path)}, checked), ChildKeys(tree, path), checked);
    if |path| >= 2 then
      var parent := path[..|path| - 1];
      UpdateParent(afterChildren, ChildKeys(tree, parent), DataKey(parent))
    else afterChildren
  }

  /** Different paths free of the separator have different keys. */
  lemma FullKeyInjective(a: seq<string>, b: seq<string>)
    requires |a| >= 1 && |b| >= 1 && NoSeparator(a) && NoSeparator(b)
    requires FullKey(a) == FullKey(b)
    ensures a == b
  {
    SplitJoin(a, Separator);
    SplitJoin(b, Separator);
  }

  /** Descending one more level from the node at p. */
  lemma {:induction false} NodeAtSnoc<T>(es: seq<Entry<T>>, p: seq<string>, x: string)
    requires |p| >= 1
    ensures NodeAt(es, p + [x]) ==
      match NodeAt(es, p)
      case Some(Branch(children)) =>
        var k := EntryIndex(children, x);
        if k < |children| then Some(children[k].node) else None
      case _ => None
    decreases |p|
  {
    var i := EntryIndex(es, p[0]);
    assert (p + [x])[0] == p[0];
    if i < |es| && |p| > 1 && es[i].node.Branch? {
      assert (p + [x])[1..] == p[1..] + [x];
      NodeAtSnoc(es[i].node.entries, p[1..], x);
    } else if i < |es| && |p| == 1 {
      assert (p + [x])[1..] == [x];
    }
  }

  /** A node below the top level is one of its parent's children. */
  lemma ChildOfParent<T>(es: seq<Entry<T>>, path: seq<string>)
    requires |path| >= 2 && NodeAt(es, path).Some?
    ensures DataKey(path) in ChildKeys(es, path[..|path| - 1])
  {
    var parent := path[..|path| - 1];
    var last := path[|path| - 1];
    assert path == parent + [last];
    NodeAtSnoc(es, parent, last);
    var children := NodeAt(es, parent).value.entries;
    var k := EntryIndex(children, last);
    assert parent + [children[k].key] == path;
  }

  /** The effect of one checkbox change: the node and its direct children
      take the new state; the immediate parent becomes selected when all its
      children are, unselected when none are, and is left as it was otherwise;
      no other key changes. */
  lemma ToggleGroupEffect<T>(selected: set<string>, tree: seq<Entry<T>>, path: seq<string>, checked: bool)
    requires |path| >= 1 && NodeAt(tree, path).Some?
    ensures var r := ToggleGroup(selected, tree, path, checked);
      (DataKey(path) in r <==> checked) &&
      (forall c | c in ChildKeys(tree, path) :: c in r <==> checked)
    ensures var r := ToggleGroup(selected, tree, path, checked);
      |path| >= 2 ==>
        var parent := path[..|path| - 1];
        var siblings := ChildKeys(tree, parent);
        var after := SetAll(SetAll(selected, {DataKey(path)}, checked), ChildKeys(tree, path), checked);
        (siblings <= after ==> DataKey(parent) in r) &&
        (siblings * after == {} ==> DataKey(parent) !in r) &&
        (!(siblings <= after) && siblings * after != {} ==> (DataKey(parent) in r <==> DataKey(parent) in after))
    ensures var r := ToggleGroup(selected, tree, path, checked);
      forall k | k != DataKey(path) && k !in ChildKeys(tree, path) &&
                 (|path| < 2 || k != DataKey(path[..|path| - 1])) ::
        k in r <==> k in selected
  {
    var after := SetAll(SetAll(selected, {DataKey(path)}, checked), ChildKeys(tree, path), checked);
    if |path| >= 2 {
      var parent := path[..|path| - 1];
      ChildOfParent(tree, path);
      forall c | c == DataKey(path) || c in ChildKeys(tree, path)
        ensures c in ToggleGroup(selected, tree, path, checked) <==> checked
      {
        ParentKeepsSet(after, ChildKeys(tree, parent), DataKey(parent), DataKey(path), c, checked);
      }
    }
  }

  /** The parent's recomputation never undoes a key that took the new state:
      the toggled node is one of the parent's children, so "all selected"
      only happens when checking and "none selected" only when unchecking. */
  lemma ParentKeepsSet(after: set<string>, siblings: set<string>, parentKey: string, own: string, k: string, checked: bool)
    requires own in siblings && (own in after <==> checked) && (k in after <==> checked)
    ensures k in UpdateParent(after, siblings, parentKey) <==> checked
  {
    if siblings <= after {
      assert checked;
    } else if siblings * after == {} {
      assert own in after ==> own in siblings * after;
    }
  }

  // ------------------------------------------- trees built from group keys

  /** The pieces of a split never contain the separator. */
  lemma {:induction false} SplitClean(s: string)
    ensures NoSeparator(Split(s, Separator))
    decreases |s|
  {
    if s != [] {
      SplitClean(s[1..]);
    }
  }

  lemma {:induction false} InsertAtClean<T>(es: seq<Entry<T>>, path: seq<string>, x: T)
    requires |path| >= 1 && KeysClean(es) && NoSeparator(path)
    ensures KeysClean(InsertAt(es, path, x))
    decreases |path|
  {
    var i := EntryIndex(es, path[0]);
    if |path| > 1 && !(i < |es| && es[i].node.Leaf?) {
      var below := if i == |es| then [] else es[i].node.entries;
      InsertAtClean(below, path[1..], x);
    }
  }

  /** Every tree the hierarchy builder produces has keys free of the separator. */
  lemma {:induction false} BuildTreeClean(all: seq<Grouped>)
    ensures KeysClean(BuildTree(all))
    decreases |all|
  {
    if all != [] {
      BuildTreeClean(all[..|all| - 1]);
      SplitClean(all[|all| - 1].group);
      InsertAtClean(BuildTree(all[..|all| - 1]), PathOf(all[|all| - 1]), all[|all| - 1]);
    }
  }

  // ------------------------------------------- default selection and visibility

  /** An empty selection becomes every key of the hierarchy once keys exist. */
  function DefaultSelection(selected: set<string>, allGroupKeys: set<string>): set<string> {
    if selected == {} && allGroupKeys != {} then selected + allGroupKeys else selected
  }

  /** The records drawn on the map: those whose full key is selected. */
  function Visible(all: seq<Grouped>, selected: set<string>): seq<Grouped> {
    Filter(all, (g: Grouped) => g.group in selected)
  }

  /** With a default selection every record of the load is visible. */
  lemma {:induction false} DefaultShowsAll(all: seq<Grouped>)
    ensures Visible(all, DefaultSelection({}, AllPrefixKeys(all))) == all
  {
    GroupKeyListed(all);
    var selected := DefaultSelection({}, AllPrefixKeys(all));
    if all != [] {
      assert all[0].group in AllPrefixKeys(all);
      assert selected == AllPrefixKeys(all);
    }
    FilterAll(all, (g: Grouped) => g.group in selected);
  }

  /** Filtering with a predicate every element satisfies keeps the sequence. */
  lemma {:induction false} FilterAll<T>(s: seq<T>, p: T -> bool)
    requires forall k | 0 <= k < |s| :: p(s[k])
    ensures Filter(s, p) == s
    decreases |s|
  {
    if s != [] {
      FilterAll(s[1..], p);
    }
  }

  /** A record is visible iff it was loaded and its full key is selected; the
      visible records keep their load order and multiplicity. */
  lemma VisibleIs(all: seq<Grouped>, selected: set<string>)
    ensures forall g :: g in Visible(all, selected) <==> g in all && g.group in selected
    ensures multiset(Visible(all, selected)) <= multiset(all)
    ensures forall g | g in all && g.group in selected ::
      multiset(Visible(all, selected))[g] == multiset(all)[g]
  {
    FilterMembers(all, (g: Grouped) => g.group in selected);
    FilterMultiset(all, (g: Grouped) => g.group in selected);
    FilterCount(all, (g: Grouped) => g.group in selected);
  }

  lemma {:induction false} FilterCount<T>(s: seq<T>, p: T -> bool)
    ensures forall x | p(x) :: multiset(Filter(s, p))[x] == multiset(s)[x]
    decreases |s|
  {
    if s != [] {
      FilterCount(s[1..], p);
      assert s == [s[0]] + s[1..];
    }
  }
}
