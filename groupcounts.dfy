/** buildHierarchicalData (group-controller.js): per-level record counts of
    the groups, keyed by the segments of their `|`-joined keys. */
module GroupCounts {

  import opened JsText
  import opened GroupKeys
  import opened Seqs

  /** A `{count, children}` node under its key; entries keep insertion order. */
  datatype CountEntry = CountEntry(key: string, count: nat, children: seq<CountEntry>)

  function CountKey(e: CountEntry): string { e.key }

  /** Position of the entry named key, or |level| when there is none. */
  function CountIndex(level: seq<CountEntry>, key: string): nat {
    KeyIndex(level, CountKey, key)
  }

  /** The walk down the parts of one group key: create missing nodes, add the
      group's size to each node on the way. */
  function AddPath(level: seq<CountEntry>, parts: seq<string>, size: nat): seq<CountEntry>
    requires |parts| >= 1
    decreases |parts|
  {
    var i := CountIndex(level, parts[0]);
    var node := if i < |level| then level[i] else CountEntry(parts[0], 0, []);
    var children := if |parts| > 1 then AddPath(node.children, parts[1..], size) else node.children;
    var node' := CountEntry(parts[0], node.count + size, children);
    if i < |level| then level[i := node'] else level + [node']
  }

  /** The count of the node at path, 0 if there is none. */
  function CountAt(level: seq<CountEntry>, path: seq<string>): nat
    requires |path| >= 1
    decreases |path|
  {
    var i := CountIndex(level, path[0]);
    if i == |level| then 0
    else if |path| == 1 then level[i].count
    else CountAt(level[i].children, path[1..])
  }

  /** Whether a node exists at path. */
  predicate HasNode(level: seq<CountEntry>, path: seq<string>)
    requires |path| >= 1
    decreases |path|
  {
    var i := CountIndex(level, path[0]);
    i < |level| && (|path| == 1 || HasNode(level[i].children, path[1..]))
  }

  /** The group map as `Object.entries(groupInfo)`: each key with its records. */
  type GroupInfo<T> = seq<(string, seq<T>)>

  /** buildHierarchicalData as a fold over the groups. */
  function Hierarchical<T>(groupInfo: GroupInfo<T>): seq<CountEntry>
    decreases |groupInfo|
  {
    if groupInfo == [] then []
    else
      var last := groupInfo[|groupInfo| - 1];
      AddPath(Hierarchical(groupInfo[..|groupInfo| - 1]), Split(last.0, Separator), |last.1|)
  }

  /** buildHierarchicalData. */
  method BuildHierarchicalData<T>(groupInfo: GroupInfo<T>) returns (hierarchicalData: seq<CountEntry>)
    ensures hierarchicalData == Hierarchical(groupInfo)
  {
    hierarchicalData := [];
    var k := 0;
    while k < |groupInfo|
      invariant 0 <= k <= |groupInfo|
      invariant hierarchicalData == Hierarchical(groupInfo[..k])
    {
      var (groupKey, locations) := groupInfo[k];
      var parts := Split(groupKey, Separator);
      hierarchicalData := AddPath(hierarchicalData, parts, |locations|);
      assert groupInfo[..k + 1][..k] == groupInfo[..k];
      k := k + 1;
    }
    assert groupInfo[..k] == groupInfo;
  }

  /** The total size of the groups whose key passes through path. */
  function SizeThrough<T>(groupInfo: GroupInfo<T>, path: seq<string>): nat
    decreases |groupInfo|
  {
    if groupInfo == [] then 0
    else
      var last := groupInfo[|groupInfo| - 1];
      SizeThrough(groupInfo[..|groupInfo| - 1], path) + (if path <= Split(last.0, Separator) then |last.1| else 0)
  }

  lemma CountAtEmpty(path: seq<string>)
    requires |path| >= 1
    ensures CountAt([], path) == 0 && !HasNode([], path)
  {
  }

  /** Adding a group of `size` records raises the count of exactly the nodes
      its key passes through, and creates exactly those that were missing. */
  lemma {:induction false} AddPathCount(level: seq<CountEntry>, parts: seq<string>, size: nat, path: seq<string>)
    requires |parts| >= 1 && |path| >= 1
    ensures CountAt(AddPath(level, parts, size), path) == CountAt(level, path) + (if path <= parts then size else 0)
    ensures HasNode(AddPath(level, parts, size), path) <==> HasNode(level, path) || path <= parts
    decreases |parts|
  {
    var i := CountIndex(level, parts[0]);
    var node := if i < |level| then level[i] else CountEntry(parts[0], 0, []);
    var children := if |parts| > 1 then AddPath(node.children, parts[1..], size) else node.children;
    var node' := CountEntry(parts[0], node.count + size, children);
    var r := AddPath(level, parts, size);
    if i < |level| {
      assert r == level[i := node'];
      KeyIndexUpdate(level, CountKey, i, node', path[0]);
    } else {
      assert r == level + [node'];
      KeyIndexAppend(level, CountKey, node', path[0]);
    }
    if path[0] == parts[0] {
      if |path| > 1 {
        assert path <= parts <==> path[1..] <= parts[1..];
        if |parts| > 1 {
          AddPathCount(node.children, parts[1..], size, path[1..]);
        }
        if i == |level| {
          CountAtEmpty(path[1..]);
        }
      } else {
        assert path <= parts;
      }
    } else {
      assert !(path <= parts);
    }
  }

  /** Some group key passes through path. */
  ghost predicate SomeKeyThrough<T>(groupInfo: GroupInfo<T>, path: seq<string>) {
    exists k | 0 <= k < |groupInfo| :: path <= Split(groupInfo[k].0, Separator)
  }

  /** A key passes through path in a longer group list exactly when one of
      the earlier keys does or the last one does. */
  lemma SomeKeyThroughSnoc<T>(groupInfo: GroupInfo<T>, path: seq<string>)
    requires groupInfo != []
    ensures var init := groupInfo[..|groupInfo| - 1];
      SomeKeyThrough(groupInfo, path) <==>
        SomeKeyThrough(init, path) || path <= Split(groupInfo[|groupInfo| - 1].0, Separator)
  {
    var init := groupInfo[..|groupInfo| - 1];
    if SomeKeyThrough(groupInfo, path) {
      var k :| 0 <= k < |groupInfo| && path <= Split(groupInfo[k].0, Separator);
      if k < |init| {
        assert init[k] == groupInfo[k];
      }
    }
    if SomeKeyThrough(init, path) {
      var k :| 0 <= k < |init| && path <= Split(init[k].0, Separator);
      assert init[k] == groupInfo[k];
    }
  }

  /** In buildHierarchicalData's result every node's count is the total size of
      the groups whose key passes through it. */
  lemma {:induction false} HierarchicalCounts<T>(groupInfo: GroupInfo<T>, path: seq<string>)
    requires |path| >= 1
    ensures CountAt(Hierarchical(groupInfo), path) == SizeThrough(groupInfo, path)
    decreases |groupInfo|
  {
    if groupInfo == [] {
      CountAtEmpty(path);
    } else {
      var init := groupInfo[..|groupInfo| - 1];
      var last := groupInfo[|groupInfo| - 1];
      HierarchicalCounts(init, path);
      AddPathCount(Hierarchical(init), Split(last.0, Separator), |last.1|, path);
    }
  }

  /** In buildHierarchicalData's result a node exists exactly where some group
      key passes. */
  lemma {:induction false} HierarchicalNodes<T>(groupInfo: GroupInfo<T>, path: seq<string>)
    requires |path| >= 1
    ensures HasNode(Hierarchical(groupInfo), path) <==> SomeKeyThrough(groupInfo, path)
    decreases |groupInfo|
  {
    if groupInfo == [] {
      CountAtEmpty(path);
    } else {
      var init := groupInfo[..|groupInfo| - 1];
      var last := groupInfo[|groupInfo| - 1];
      HierarchicalNodes(init, path);
      AddPathCount(Hierarchical(init), Split(last.0, Separator), |last.1|, path);
      SomeKeyThroughSnoc(groupInfo, path);
    }
  }
}
