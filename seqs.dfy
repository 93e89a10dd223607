/** Generic sequence helpers standing in for Array.prototype.filter and for
    "push if not already included" accumulation. */
module Seqs {

  /** Array.prototype.filter: the elements satisfying p, in their original order. */
  function Filter<T>(s: seq<T>, p: T -> bool): (r: seq<T>)
    ensures |r| <= |s|
    decreases |s|
  {
    if s == [] then []
    else (if p(s[0]) then [s[0]] else []) + Filter(s[1..], p)
  }

  /** The filtered sequence holds exactly the elements that satisfy p. */
  lemma {:induction false} FilterMembers<T>(s: seq<T>, p: T -> bool)
    ensures forall x :: x in Filter(s, p) <==> x in s && p(x)
    decreases |s|
  {
    if s != [] {
      FilterMembers(s[1..], p);
      assert s == [s[0]] + s[1..];
    }
  }

  lemma {:induction false} FilterAppend<T>(a: seq<T>, b: seq<T>, p: T -> bool)
    ensures Filter(a + b, p) == Filter(a, p) + Filter(b, p)
    decreases |a|
  {
    if a == [] {
      assert a + b == b;
    } else {
      var head := if p(a[0]) then [a[0]] else [];
      assert (a + b)[0] == a[0];
      assert (a + b)[1..] == a[1..] + b;
      FilterAppend(a[1..], b, p);
      calc {
        Filter(a + b, p);
        head + Filter(a[1..] + b, p);
        head + (Filter(a[1..], p) + Filter(b, p));
        (head + Filter(a[1..], p)) + Filter(b, p);
      }
    }
  }

  lemma FilterSnoc<T>(a: seq<T>, x: T, p: T -> bool)
    ensures Filter(a + [x], p) == Filter(a, p) + (if p(x) then [x] else [])
  {
    FilterAppend(a, [x], p);
    assert Filter([x], p) == (if p(x) then [x] else []) + Filter([x][1..], p);
  }

  lemma {:induction false} FilterMultiset<T>(s: seq<T>, p: T -> bool)
    ensures multiset(Filter(s, p)) <= multiset(s)
    decreases |s|
  {
    if s != [] {
      FilterMultiset(s[1..], p);
      assert s == [s[0]] + s[1..];
    }
  }

  /** The elements of xs appended to acc, skipping any already present
      (the `if (!list.includes(x)) list.push(x)` idiom). */
  function AppendNew<T(==)>(acc: seq<T>, xs: seq<T>): (r: seq<T>)
    decreases |xs|
  {
    if xs == [] then acc
    else AppendNew(if xs[0] in acc then acc else acc + [xs[0]], xs[1..])
  }

  /** Pushing one more candidate: it is appended unless already present. */
  lemma {:induction false} AppendNewSnoc<T>(acc: seq<T>, xs: seq<T>, x: T)
    ensures AppendNew(acc, xs + [x]) ==
      if x in AppendNew(acc, xs) then AppendNew(acc, xs) else AppendNew(acc, xs) + [x]
    decreases |xs|
  {
    if xs == [] {
      assert [x][1..] == [];
    } else {
      assert (xs + [x])[1..] == xs[1..] + [x];
      var acc' := if xs[0] in acc then acc else acc + [xs[0]];
      AppendNewSnoc(acc', xs[1..], x);
    }
  }

  predicate NoDuplicates<T(==)>(s: seq<T>) {
    forall i, j | 0 <= i < j < |s| :: s[i] != s[j]
  }

  /** Position of the first occurrence of x in s. */
  function IndexOf<T(==)>(s: seq<T>, x: T): (k: nat)
    requires x in s
    ensures k < |s| && s[k] == x && x !in s[..k]
  {
    if s[0] == x then 0 else 1 + IndexOf(s[1..], x)
  }

  /** Position of the first element whose key is key, or |s| when there is
      none: the lookup of a key among an object's entries. */
  function KeyIndex<T>(s: seq<T>, keyOf: T -> string, key: string): (i: nat)
    ensures i <= |s|
    ensures i < |s| ==> keyOf(s[i]) == key
    ensures forall j | 0 <= j < i :: keyOf(s[j]) != key
  {
    if s == [] then 0
    else if keyOf(s[0]) == key then 0
    else 1 + KeyIndex(s[1..], keyOf, key)
  }

  /** Replacing an entry by one with the same key moves no key. */
  lemma KeyIndexUpdate<T>(s: seq<T>, keyOf: T -> string, i: nat, x: T, key: string)
    requires i < |s| && keyOf(x) == keyOf(s[i])
    ensures KeyIndex(s[i := x], keyOf, key) == KeyIndex(s, keyOf, key)
  {
    var r := s[i := x];
    assert forall j | 0 <= j < |s| :: keyOf(r[j]) == keyOf(s[j]);
    var k := KeyIndex(s, keyOf, key);
    assert k < |s| ==> keyOf(r[k]) == key;
  }

  /** Appending an entry finds it only when the key was missing before. */
  lemma KeyIndexAppend<T>(s: seq<T>, keyOf: T -> string, x: T, key: string)
    ensures KeyIndex(s + [x], keyOf, key) ==
      (if KeyIndex(s, keyOf, key) < |s| then KeyIndex(s, keyOf, key) else if keyOf(x) == key then |s| else |s| + 1)
  {
    var r := s + [x];
    var k := KeyIndex(s, keyOf, key);
    assert forall j | 0 <= j < |s| :: r[j] == s[j];
    if k < |s| {
      assert keyOf(r[k]) == key;
    } else {
      assert r[|s|] == x;
    }
  }

  /** AppendNew keeps acc as a prefix and adds exactly the missing elements of xs,
      each once. */
  lemma {:induction false} AppendNewSpec<T>(acc: seq<T>, xs: seq<T>)
    requires NoDuplicates(acc)
    ensures NoDuplicates(AppendNew(acc, xs))
    ensures acc <= AppendNew(acc, xs)
    ensures forall x :: x in AppendNew(acc, xs) <==> x in acc || x in xs
    decreases |xs|
  {
    if xs != [] {
      var acc' := if xs[0] in acc then acc else acc + [xs[0]];
      AppendNewSpec(acc', xs[1..]);
      assert AppendNew(acc, xs) == AppendNew(acc', xs[1..]);
      assert forall x :: x in xs <==> x == xs[0] || x in xs[1..];
    }
  }

  /** The positions from i on of the elements satisfying p, in increasing order. */
  function Positions<T>(s: seq<T>, p: T -> bool, i: nat): (r: seq<nat>)
    requires i <= |s|
    decreases |s| - i
  {
    if i == |s| then []
    else (if p(s[i]) then [i] else []) + Positions(s, p, i + 1)
  }

  /** Positions lists, in increasing order, exactly the positions from i on
      whose elements satisfy p. */
  lemma {:induction false} PositionsSpec<T>(s: seq<T>, p: T -> bool, i: nat)
    requires i <= |s|
    ensures forall k | 0 <= k < |Positions(s, p, i)| ::
      i <= Positions(s, p, i)[k] < |s| && p(s[Positions(s, p, i)[k]])
    ensures forall k, m | 0 <= k < m < |Positions(s, p, i)| ::
      Positions(s, p, i)[k] < Positions(s, p, i)[m]
    ensures forall j | i <= j < |s| && p(s[j]) :: j in Positions(s, p, i)
    decreases |s| - i
  {
    if i < |s| {
      PositionsSpec(s, p, i + 1);
    }
  }

  /** Array.prototype.findIndex: the first position whose element satisfies
      p, or -1. */
  function FindFirst<T>(s: seq<T>, p: T -> bool): (i: int)
    ensures -1 <= i < |s|
    decreases |s|
  {
    if s == [] then -1
    else if p(s[0]) then 0
    else
      var i := FindFirst(s[1..], p);
      if i == -1 then -1 else i + 1
  }

  /** findIndex gives -1 exactly when no element satisfies p, and otherwise
      the first one that does. */
  lemma {:induction false} FindFirstSpec<T>(s: seq<T>, p: T -> bool)
    ensures var i := FindFirst(s, p);
      (i == -1 <==> forall j | 0 <= j < |s| :: !p(s[j])) &&
      (i >= 0 ==> p(s[i]) && forall j | 0 <= j < i :: !p(s[j]))
    decreases |s|
  {
    if s != [] && !p(s[0]) {
      FindFirstSpec(s[1..], p);
      assert forall j | 1 <= j < |s| :: s[j] == s[1..][j - 1];
    }
  }
}
