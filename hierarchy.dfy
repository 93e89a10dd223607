/** The nested group hierarchy of displayDataAsGroups (group-controller.js)
    and calculateCount over it: one level per grouping column, with the
    records in arrays at the leaves. */
module Hierarchy {

  import opened JsText
  import opened Seqs
  import opened SheetProcessor
  import opened GroupKeys

  /** A record with its group key attached (`{...location, group}`). */
  datatype Grouped = Grouped(location: Location, group: string)

  /** An object level (`{}`) whose entries keep their insertion order, or an
      array of records at a leaf. */
  datatype Node<T> = Leaf(items: seq<T>) | Branch(entries: seq<Entry<T>>)
  datatype Entry<T> = Entry(key: string, node: Node<T>)

  function EntryKey<T>(e: Entry<T>): string { e.key }

  /** Position of the entry named key, or |es| when there is none. */
  function EntryIndex<T>(es: seq<Entry<T>>, key: string): nat {
    KeyIndex(es, EntryKey, key)
  }

  /** Every path from this level has exactly d keys and ends in an array. */
  ghost predicate Shaped<T>(es: seq<Entry<T>>, d: nat)
    decreases d
  {
    d >= 1 &&
    forall k | 0 <= k < |es| ::
      if d == 1 then es[k].node.Leaf?
      else es[k].node.Branch? && Shaped(es[k].node.entries, d - 1)
  }

  /** The walk down `keys` that creates missing levels and pushes x onto the
      leaf array. Keys of a different depth than the tree are not modelled:
      the tree is left as it is. */
  function InsertAt<T>(es: seq<Entry<T>>, path: seq<string>, x: T): (r: seq<Entry<T>>)
    requires |path| >= 1
    decreases |path|
  {
    var i := EntryIndex(es, path[0]);
    if i < |es| && (es[i].node.Leaf? != (|path| == 1)) then es
    else if |path| == 1 then
      if i == |es| then es + [Entry(path[0], Leaf([x]))]
      else es[i := Entry(path[0], Leaf(es[i].node.items + [x]))]
    else
      var below := if i == |es| then [] else es[i].node.entries;
      var child := Entry(path[0], Branch(InsertAt(below, path[1..], x)));
      if i == |es| then es + [child] else es[i := child]
  }

  /** The leaf array at `path`, empty if there is none. */
  function ItemsAt<T>(es: seq<Entry<T>>, path: seq<string>): seq<T>
    requires |path| >= 1
    decreases |path|
  {
    var i := EntryIndex(es, path[0]);
    if i == |es| then []
    else if |path| == 1 then (if es[i].node.Leaf? then es[i].node.items else [])
    else if es[i].node.Branch? then ItemsAt(es[i].node.entries, path[1..])
    else []
  }

  /** Inserting keeps the shape and appends x to exactly the leaf at its path. */
  lemma InsertAtItems<T>(es: seq<Entry<T>>, path: seq<string>, x: T, q: seq<string>)
    requires |path| >= 1 && Shaped(es, |path|) && |q| == |path|
    ensures Shaped(InsertAt(es, path, x), |path|)
    ensures ItemsAt(InsertAt(es, path, x), q) == ItemsAt(es, q) + (if q == path then [x] else [])
  {
    InsertAtShaped(es, path, x);
    InsertAtLeaf(es, path, x, q);
  }

  lemma {:induction false} InsertAtShaped<T>(es: seq<Entry<T>>, path: seq<string>, x: T)
    requires |path| >= 1 && Shaped(es, |path|)
    ensures Shaped(InsertAt(es, path, x), |path|)
    decreases |path|
  {
    var i := EntryIndex(es, path[0]);
    var r := InsertAt(es, path, x);
    if |path| > 1 {
      var below := if i == |es| then [] else es[i].node.entries;
      InsertAtShaped(below, path[1..], x);
    }
    if i == |es| {
      assert forall k | 0 <= k < |es| :: r[k] == es[k];
    } else {
      assert forall k | 0 <= k < |es| && k != i :: r[k] == es[k];
    }
  }

  lemma {:induction false} InsertAtLeaf<T>(es: seq<Entry<T>>, path: seq<string>, x: T, q: seq<string>)
    requires |path| >= 1 && Shaped(es, |path|) && |q| == |path|
    ensures ItemsAt(InsertAt(es, path, x), q) == ItemsAt(es, q) + (if q == path then [x] else [])
    decreases |path|, 1
  {
    if |path| == 1 {
      assert path == [path[0]] && q == [q[0]];
      InsertAtSingle(es, path[0], x, q[0]);
    } else {
      InsertAtDeep(es, path, x, q);
    }
  }

  lemma {:induction false} InsertAtDeep<T>(es: seq<Entry<T>>, path: seq<string>, x: T, q: seq<string>)
    requires |path| >= 2 && Shaped(es, |path|) && |q| == |path|
    ensures ItemsAt(InsertAt(es, path, x), q) == ItemsAt(es, q) + (if q == path then [x] else [])
    decreases |path|, 0
  {
    var i := EntryIndex(es, path[0]);
    if i < |es| {
      ShapedAt(es, |path|, i);
    }
    var below := if i == |es| then [] else es[i].node.entries;
    var inserted := InsertAt(below, path[1..], x);
    var e := Entry(path[0], Branch(inserted));
    assert InsertAt(es, path, x) == if i == |es| then es + [e] else es[i := e];
    InsertAtLevel(es, i, e, q);
    if q[0] == path[0] {
      InsertAtLeaf(below, path[1..], x, q[1..]);
      assert ItemsAt([e], q) == ItemsAt(inserted, q[1..]);
      assert ItemsAt(es, q) == ItemsAt(below, q[1..]);
      assert q == path <==> q[1..] == path[1..];
    } else {
      assert q != path;
    }
  }

  /** The entry at position i of a shaped level has the level's depth. */
  lemma ShapedAt<T>(es: seq<Entry<T>>, d: nat, i: nat)
    requires Shaped(es, d) && i < |es|
    ensures es[i].node.Leaf? <==> d == 1
    ensures d > 1 ==> Shaped(es[i].node.entries, d - 1)
  {
  }

  /** Inserting on a one-key path appends x to the leaf named key. */
  lemma InsertAtSingle<T>(es: seq<Entry<T>>, key: string, x: T, k: string)
    requires Shaped(es, 1)
    ensures ItemsAt(InsertAt(es, [key], x), [k]) == ItemsAt(es, [k]) + (if k == key then [x] else [])
  {
    var i := EntryIndex(es, key);
    if i < |es| {
      ShapedAt(es, 1, i);
      InsertAtLevel(es, i, Entry(key, Leaf(es[i].node.items + [x])), [k]);
    } else {
      InsertAtLevel(es, i, Entry(key, Leaf([x])), [k]);
    }
  }

  /** Writing entry e at the position of its key (or appending it when the key
      is new) changes what is found under e's key only. */
  lemma InsertAtLevel<T>(es: seq<Entry<T>>, i: nat, e: Entry<T>, q: seq<string>)
    requires |q| >= 1 && i == EntryIndex(es, e.key)
    ensures var r := if i == |es| then es + [e] else es[i := e];
      ItemsAt(r, q) == if q[0] == e.key then ItemsAt([e], q) else ItemsAt(es, q)
  {
    var r := if i == |es| then es + [e] else es[i := e];
    if i == |es| {
      KeyIndexAppend(es, EntryKey, e, q[0]);
    } else {
      KeyIndexUpdate(es, EntryKey, i, e, q[0]);
    }
    var k := EntryIndex(r, q[0]);
    if q[0] == e.key {
      assert k == i && r[k] == e;
    } else if k < |es| {
      assert r[k] == es[k];
    }
  }

  // ----------------------------------------------------------- counting

  /** calculateCount: the length of an array, or the sum over an object's values. */
  function CountNode<T>(n: Node<T>): nat {
    match n
    case Leaf(items) => |items|
    case Branch(es) => CountEntries(es)
  }

  function CountEntries<T>(es: seq<Entry<T>>): nat {
    if es == [] then 0 else CountNode(es[0].node) + CountEntries(es[1..])
  }

  /** The records of a subtree, leaf by leaf. */
  function Flatten<T>(n: Node<T>): seq<T> {
    match n
    case Leaf(items) => items
    case Branch(es) => FlattenEntries(es)
  }

  function FlattenEntries<T>(es: seq<Entry<T>>): seq<T> {
    if es == [] then [] else Flatten(es[0].node) + FlattenEntries(es[1..])
  }

  /** calculateCount is the number of records in the subtree. */
  lemma {:induction false} CountIsSize<T>(n: Node<T>)
    ensures CountNode(n) == |Flatten(n)|
  {
    match n
    case Leaf(_) =>
    case Branch(es) => CountEntriesIsSize(es);
  }

  lemma {:induction false} CountEntriesIsSize<T>(es: seq<Entry<T>>)
    ensures CountEntries(es) == |FlattenEntries(es)|
  {
    if es != [] {
      CountIsSize(es[0].node);
      CountEntriesIsSize(es[1..]);
    }
  }

  lemma {:induction false} FlattenEntriesAppend<T>(a: seq<Entry<T>>, b: seq<Entry<T>>)
    ensures FlattenEntries(a + b) == FlattenEntries(a) + FlattenEntries(b)
    decreases |a|
  {
    if a == [] {
      assert a + b == b;
    } else {
      assert (a + b)[1..] == a[1..] + b;
      FlattenEntriesAppend(a[1..], b);
    }
  }

  lemma {:induction false} FlattenEntriesAt<T>(es: seq<Entry<T>>, i: nat)
    requires i < |es|
    ensures FlattenEntries(es) == FlattenEntries(es[..i]) + Flatten(es[i].node) + FlattenEntries(es[i + 1..])
    decreases i
  {
    if i > 0 {
      FlattenEntriesAt(es[1..], i - 1);
      assert es[1..][..i - 1] == es[..i][1..];
      assert es[1..][i - 1] == es[i];
      assert es[1..][i..] == es[i + 1..];
      assert FlattenEntries(es[..i]) == Flatten(es[0].node) + FlattenEntries(es[..i][1..]);
    }
  }

  lemma ReplaceEntryRecords<T>(es: seq<Entry<T>>, i: nat, e: Entry<T>, x: T)
    requires i < |es|
    requires multiset(Flatten(e.node)) == multiset(Flatten(es[i].node)) + multiset{x}
    ensures multiset(FlattenEntries(es[i := e])) == multiset(FlattenEntries(es)) + multiset{x}
  {
    var r := es[i := e];
    FlattenEntriesAt(es, i);
    FlattenEntriesAt(r, i);
    assert r[..i] == es[..i] && r[i + 1..] == es[i + 1..];
  }

  lemma AppendEntryRecords<T>(es: seq<Entry<T>>, e: Entry<T>)
    ensures FlattenEntries(es + [e]) == FlattenEntries(es) + Flatten(e.node)
  {
    FlattenEntriesAppend(es, [e]);
    assert FlattenEntries([e]) == Flatten(e.node) + FlattenEntries([e][1..]);
  }

  /** Inserting adds exactly x to the records of the tree. */
  lemma {:induction false} InsertAtRecords<T>(es: seq<Entry<T>>, path: seq<string>, x: T)
    requires |path| >= 1 && Shaped(es, |path|)
    ensures multiset(FlattenEntries(InsertAt(es, path, x))) == multiset(FlattenEntries(es)) + multiset{x}
    decreases |path|
  {
    var i := EntryIndex(es, path[0]);
    assert i < |es| ==> es[i].node.Leaf? == (|path| == 1);
    var e: Entry<T>;
    var before: seq<T> := [];
    if |path| == 1 {
      e := if i == |es| then Entry(path[0], Leaf([x])) else Entry(path[0], Leaf(es[i].node.items + [x]));
      if i < |es| { before := es[i].node.items; }
    } else {
      var below := if i == |es| then [] else es[i].node.entries;
      InsertAtRecords(below, path[1..], x);
      e := Entry(path[0], Branch(InsertAt(below, path[1..], x)));
      before := FlattenEntries(below);
    }
    assert multiset(Flatten(e.node)) == multiset(before) + multiset{x};
    if i == |es| {
      assert InsertAt(es, path, x) == es + [e];
      AppendEntryRecords(es, e);
    } else {
      assert InsertAt(es, path, x) == es[i := e];
      assert Flatten(es[i].node) == before;
      ReplaceEntryRecords(es, i, e, x);
    }
  }

  // ------------------------------------------- building from the records

  /** The keys of a record's path: its group key split at `|`. */
  function PathOf(g: Grouped): (p: seq<string>)
    ensures |p| >= 1
  {
    Split(g.group, Separator)
  }

  /** The hierarchy after visiting the records in order. */
  function BuildTree(all: seq<Grouped>): seq<Entry<Grouped>>
    decreases |all|
  {
    if all == [] then []
    else InsertAt(BuildTree(all[..|all| - 1]), PathOf(all[|all| - 1]), all[|all| - 1])
  }

  /** Every non-empty prefix of a path, joined back into a key. */
  function PrefixKeys(parts: seq<string>): set<string> {
    set i | 1 <= i <= |parts| :: Join(parts[..i], Separator)
  }

  /** allGroupKeys after visiting the records in order. */
  function AllPrefixKeys(all: seq<Grouped>): set<string>
    decreases |all|
  {
    if all == [] then {}
    else AllPrefixKeys(all[..|all| - 1]) + PrefixKeys(PathOf(all[|all| - 1]))
  }

  /** Phase 2 of displayDataAsGroups: walk each record's path, creating the
      missing levels, push the record onto its leaf array, and collect every
      prefix key. */
  method BuildGroupHierarchy(all: seq<Grouped>) returns (tree: seq<Entry<Grouped>>, allGroupKeys: set<string>)
    ensures tree == BuildTree(all)
    ensures allGroupKeys == AllPrefixKeys(all)
  {
    tree := [];
    allGroupKeys := {};
    var n := 0;
    while n < |all|
      invariant 0 <= n <= |all|
      invariant tree == BuildTree(all[..n])
      invariant allGroupKeys == AllPrefixKeys(all[..n])
    {
      var loc := all[n];
      var keys := Split(loc.group, Separator);
      var i := 0;
      while i < |keys|
        invariant 0 <= i <= |keys|
        invariant allGroupKeys == AllPrefixKeys(all[..n]) + set j | 1 <= j <= i :: Join(keys[..j], Separator)
      {
        allGroupKeys := allGroupKeys + {Join(keys[..i + 1], Separator)};
        i := i + 1;
      }
      tree := InsertAt(tree, keys, loc);
      assert all[..n + 1][..n] == all[..n];
      n := n + 1;
    }
    assert all[..n] == all;
  }

  /** All paths have the same number of keys: one per grouping column. */
  predicate SameDepth(all: seq<Grouped>, d: nat) {
    forall k | 0 <= k < |all| :: |PathOf(all[k])| == d
  }

  /** Each record lands in the leaf array at its path, in input order: the leaf
      arrays partition the records. */
  lemma {:induction false} BuildTreeLeaves(all: seq<Grouped>, d: nat, q: seq<string>)
    requires d >= 1 && SameDepth(all, d) && |q| == d
    ensures Shaped(BuildTree(all), d)
    ensures ItemsAt(BuildTree(all), q) == Filter(all, (g: Grouped) => PathOf(g) == q)
    decreases |all|
  {
    if all != [] {
      var init, last := all[..|all| - 1], all[|all| - 1];
      assert all == init + [last];
      BuildTreeLeaves(init, d, q);
      InsertAtItems(BuildTree(init), PathOf(last), last, q);
      FilterSnoc(init, last, (g: Grouped) => PathOf(g) == q);
    }
  }

  /** The tree holds every record exactly once, so calculateCount at the top is
      the number of records. */
  lemma {:induction false} BuildTreeRecords(all: seq<Grouped>, d: nat)
    requires d >= 1 && SameDepth(all, d)
    ensures Shaped(BuildTree(all), d)
    ensures multiset(FlattenEntries(BuildTree(all))) == multiset(all)
    ensures CountEntries(BuildTree(all)) == |all|
    decreases |all|
  {
    if all != [] {
      var init, last := all[..|all| - 1], all[|all| - 1];
      assert all == init + [last];
      BuildTreeRecords(init, d);
      InsertAtItems(BuildTree(init), PathOf(last), last, PathOf(last));
      InsertAtRecords(BuildTree(init), PathOf(last), last);
    }
    CountEntriesIsSize(BuildTree(all));
    assert |FlattenEntries(BuildTree(all))| == |multiset(FlattenEntries(BuildTree(all)))|;
  }

  /** allGroupKeys holds exactly the non-empty prefixes of the records' paths. */
  lemma {:induction false} AllPrefixKeysMembers(all: seq<Grouped>)
    ensures forall k :: k in AllPrefixKeys(all) <==>
      exists j, i | 0 <= j < |all| && 1 <= i <= |PathOf(all[j])| :: k == Join(PathOf(all[j])[..i], Separator)
    decreases |all|
  {
    if all != [] {
      var init, last := all[..|all| - 1], all[|all| - 1];
      AllPrefixKeysMembers(init);
      forall k | k in AllPrefixKeys(all)
        ensures exists j, i | 0 <= j < |all| && 1 <= i <= |PathOf(all[j])| :: k == Join(PathOf(all[j])[..i], Separator)
      {
        if k in AllPrefixKeys(init) {
          var j, i :| 0 <= j < |init| && 1 <= i <= |PathOf(init[j])| && k == Join(PathOf(init[j])[..i], Separator);
          assert all[j] == init[j];
        } else {
          var i :| 1 <= i <= |PathOf(last)| && k == Join(PathOf(last)[..i], Separator);
          assert all[|all| - 1] == last;
        }
      }
      forall k, j, i | 0 <= j < |all| && 1 <= i <= |PathOf(all[j])| && k == Join(PathOf(all[j])[..i], Separator)
        ensures k in AllPrefixKeys(all)
      {
        if j < |all| - 1 {
          assert init[j] == all[j];
        } else {
          assert k in PrefixKeys(PathOf(last));
        }
      }
    }
  }

  /** Each record's own group key is among allGroupKeys. */
  lemma GroupKeyListed(all: seq<Grouped>)
    ensures forall j | 0 <= j < |all| :: all[j].group in AllPrefixKeys(all)
  {
    AllPrefixKeysMembers(all);
    forall j | 0 <= j < |all| ensures all[j].group in AllPrefixKeys(all) {
      JoinSplit(all[j].group, Separator);
      assert PathOf(all[j])[..|PathOf(all[j])|] == PathOf(all[j]);
    }
  }
}
