/** Array.prototype.sort with a comparator, modelled as the stable insertion
    sort that engines use: an element moves in front of every already sorted
    element the comparator puts after it (a positive result), and stays behind
    the others. */
module StableSort {

  import opened Seqs

  /** The comparator facts under which any stable sort has a unique result:
      on the elements being sorted, `cmp(a, b) <= 0` is total and transitive. */
  ghost predicate TotalPreorderOn<T>(cmp: (T, T) -> int, xs: seq<T>) {
    (forall a, b | a in xs && b in xs :: cmp(a, b) <= 0 || cmp(b, a) <= 0) &&
    (forall a, b, c | a in xs && b in xs && c in xs ::
       cmp(a, b) <= 0 && cmp(b, c) <= 0 ==> cmp(a, c) <= 0)
  }

  /** No element is followed by one the comparator puts before it. */
  ghost predicate Sorted<T>(cmp: (T, T) -> int, s: seq<T>) {
    forall i, j | 0 <= i < j < |s| :: cmp(s[i], s[j]) <= 0
  }

  /** a and b compare equal both ways. */
  predicate Equiv<T>(cmp: (T, T) -> int, a: T, b: T) {
    cmp(a, b) <= 0 && cmp(b, a) <= 0
  }

  /** One insertion step: x enters the sorted prefix s from the right. */
  function Insert<T>(s: seq<T>, x: T, cmp: (T, T) -> int): (r: seq<T>)
    ensures multiset(r) == multiset(s) + multiset{x}
    decreases |s|
  {
    if s == [] then [x]
    else if cmp(s[|s| - 1], x) > 0 then
      assert s == s[..|s| - 1] + [s[|s| - 1]];
      Insert(s[..|s| - 1], x, cmp) + [s[|s| - 1]]
    else s + [x]
  }

  /** `[...s].sort(cmp)`: a new array holding a permutation of s. */
  function SortBy<T>(s: seq<T>, cmp: (T, T) -> int): (r: seq<T>)
    ensures multiset(r) == multiset(s)
    decreases |s|
  {
    if s == [] then []
    else
      assert s == s[..|s| - 1] + [s[|s| - 1]];
      Insert(SortBy(s[..|s| - 1], cmp), s[|s| - 1], cmp)
  }

  lemma Total<T>(cmp: (T, T) -> int, xs: seq<T>, a: T, b: T)
    requires TotalPreorderOn(cmp, xs) && a in xs && b in xs
    ensures cmp(a, b) <= 0 || cmp(b, a) <= 0
  {
  }

  lemma Transitive<T>(cmp: (T, T) -> int, xs: seq<T>, a: T, b: T, c: T)
    requires TotalPreorderOn(cmp, xs) && a in xs && b in xs && c in xs
    requires cmp(a, b) <= 0 && cmp(b, c) <= 0
    ensures cmp(a, c) <= 0
  {
  }

  lemma SortedSnoc<T>(cmp: (T, T) -> int, t: seq<T>, z: T)
    requires Sorted(cmp, t)
    requires forall i | 0 <= i < |t| :: cmp(t[i], z) <= 0
    ensures Sorted(cmp, t + [z])
  {
    var r := t + [z];
    forall i, j | 0 <= i < j < |r| ensures cmp(r[i], r[j]) <= 0 {
      if j < |t| {
        assert r[i] == t[i] && r[j] == t[j];
      }
    }
  }

  lemma {:induction false} InsertSorted<T>(s: seq<T>, x: T, cmp: (T, T) -> int, xs: seq<T>)
    requires TotalPreorderOn(cmp, xs)
    requires forall y | y in s :: y in xs
    requires x in xs
    requires Sorted(cmp, s)
    ensures Sorted(cmp, Insert(s, x, cmp))
    decreases |s|
  {
    if s != [] {
      var init, last := s[..|s| - 1], s[|s| - 1];
      assert last in xs;
      if cmp(last, x) > 0 {
        assert forall y | y in init :: y in s;
        assert Sorted(cmp, init);
        InsertSorted(init, x, cmp, xs);
        var t := Insert(init, x, cmp);
        Total(cmp, xs, last, x);
        forall i | 0 <= i < |t| ensures cmp(t[i], last) <= 0 {
          assert t[i] in multiset(t);
          if t[i] != x {
            assert t[i] in multiset(init);
            var k :| 0 <= k < |init| && init[k] == t[i];
            assert s[k] == t[i];
          }
        }
        SortedSnoc(cmp, t, last);
      } else {
        forall i | 0 <= i < |s| ensures cmp(s[i], x) <= 0 {
          if i < |s| - 1 {
            assert s[i] in xs;
            Transitive(cmp, xs, s[i], last, x);
          }
        }
        SortedSnoc(cmp, s, x);
      }
    }
  }

  /** Under a consistent comparator the result is sorted. */
  lemma {:induction false} SortBySorted<T>(s: seq<T>, cmp: (T, T) -> int)
    requires TotalPreorderOn(cmp, s)
    ensures Sorted(cmp, SortBy(s, cmp))
    decreases |s|
  {
    if s != [] {
      var init := s[..|s| - 1];
      assert forall y | y in init :: y in s;
      PreorderSub(cmp, s, init);
      SortBySorted(init, cmp);
      var t := SortBy(init, cmp);
      forall y | y in t ensures y in s {
        assert y in multiset(t);
      }
      InsertSorted(t, s[|s| - 1], cmp, s);
    }
  }

  lemma PreorderSub<T>(cmp: (T, T) -> int, xs: seq<T>, ys: seq<T>)
    requires TotalPreorderOn(cmp, xs)
    requires forall y | y in ys :: y in xs
    ensures TotalPreorderOn(cmp, ys)
  {
  }

  lemma {:induction false} InsertFilter<T>(s: seq<T>, x: T, cmp: (T, T) -> int, xs: seq<T>, y: T, p: T -> bool)
    requires TotalPreorderOn(cmp, xs)
    requires forall z | z in s :: z in xs
    requires x in xs && y in xs
    requires forall z :: p(z) <==> Equiv(cmp, z, y)
    ensures Filter(Insert(s, x, cmp), p) == Filter(s, p) + (if p(x) then [x] else [])
    decreases |s|
  {
    if s == [] {
      assert Filter([x], p) == (if p(x) then [x] else []) + Filter([x][1..], p);
    } else {
      var init, last := s[..|s| - 1], s[|s| - 1];
      assert s == init + [last];
      assert last in xs;
      if cmp(last, x) > 0 {
        assert forall z | z in init :: z in s;
        InsertFilter(init, x, cmp, xs, y, p);
        if p(x) && p(last) {
          Transitive(cmp, xs, last, y, x);
          assert false;
        }
        var t := Insert(init, x, cmp);
        assert Insert(s, x, cmp) == t + [last];
        FilterSwap(init, t, x, last, p);
      } else {
        FilterSnoc(s, x, p);
      }
    }
  }

  /** When x and last are not both kept, kept elements keep their order
      whether x is placed before or after last. */
  lemma FilterSwap<T>(init: seq<T>, t: seq<T>, x: T, last: T, p: T -> bool)
    requires !(p(x) && p(last))
    requires Filter(t, p) == Filter(init, p) + (if p(x) then [x] else [])
    ensures Filter(t + [last], p) == Filter(init + [last], p) + (if p(x) then [x] else [])
  {
    FilterSnoc(t, last, p);
    FilterSnoc(init, last, p);
    var px := if p(x) then [x] else [];
    var pl := if p(last) then [last] else [];
    assert px + pl == pl + px;
    calc {
      Filter(t + [last], p);
      Filter(init, p) + px + pl;
      Filter(init, p) + pl + px;
      Filter(init + [last], p) + px;
    }
  }

  /** Stability: the elements that compare equal to y come out in their input order. */
  lemma {:induction false} SortByStable<T>(s: seq<T>, cmp: (T, T) -> int, y: T, p: T -> bool)
    requires TotalPreorderOn(cmp, s)
    requires y in s
    requires forall z :: p(z) <==> Equiv(cmp, z, y)
    ensures Filter(SortBy(s, cmp), p) == Filter(s, p)
  {
    var xs := s;
    SortByStableIn(s, cmp, xs, y, p);
  }

  lemma {:induction false} SortByStableIn<T>(s: seq<T>, cmp: (T, T) -> int, xs: seq<T>, y: T, p: T -> bool)
    requires TotalPreorderOn(cmp, xs)
    requires forall z | z in s :: z in xs
    requires y in xs
    requires forall z :: p(z) <==> Equiv(cmp, z, y)
    ensures Filter(SortBy(s, cmp), p) == Filter(s, p)
    decreases |s|
  {
    if s != [] {
      var init, last := s[..|s| - 1], s[|s| - 1];
      assert s == init + [last];
      assert forall z | z in init :: z in s;
      SortByStableIn(init, cmp, xs, y, p);
      var t := SortBy(init, cmp);
      forall z | z in t ensures z in xs {
        assert z in multiset(t);
      }
      InsertFilter(t, last, cmp, xs, y, p);
      FilterSnoc(init, last, p);
    }
  }

  /** Sorting input that is already sorted leaves it as it is. */
  lemma {:induction false} SortByOfSorted<T>(s: seq<T>, cmp: (T, T) -> int)
    requires Sorted(cmp, s)
    ensures SortBy(s, cmp) == s
    decreases |s|
  {
    if s != [] {
      var init := s[..|s| - 1];
      assert Sorted(cmp, init);
      SortByOfSorted(init, cmp);
      if init != [] {
        assert cmp(init[|init| - 1], s[|s| - 1]) <= 0;
      }
      assert init + [s[|s| - 1]] == s;
    }
  }
}
