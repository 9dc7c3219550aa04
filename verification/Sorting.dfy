/** The contract of the standard library's stable `sort_by`, as a function. */
module Sorting {
  import opened Prelude

  ghost predicate TotalPreorder<T(!new)>(le: (T, T) -> bool) {
    && (forall x, y :: le(x, y) || le(y, x))
    && (forall x, y, z :: le(x, y) && le(y, z) ==> le(x, z))
  }

  ghost predicate SortedBy<T>(s: seq<T>, le: (T, T) -> bool) {
    forall i, j :: 0 <= i < j < |s| ==> le(s[i], s[j])
  }

  /** Puts `x` before the first element that it does not exceed. */
  function Insert<T>(x: T, s: seq<T>, le: (T, T) -> bool): (r: seq<T>)
    ensures multiset(r) == multiset{x} + multiset(s)
  {
    if s == [] || le(x, s[0]) then [x] + s
    else
      assert s == [s[0]] + s[1..];
      [s[0]] + Insert(x, s[1..], le)
  }

  /** Elements that compare equal keep their order. */
  function StableSort<T>(s: seq<T>, le: (T, T) -> bool): (r: seq<T>)
    ensures multiset(r) == multiset(s)
  {
    if s == [] then []
    else
      assert s == [s[0]] + s[1..];
      Insert(s[0], StableSort(s[1..], le), le)
  }

  lemma {:induction false} InsertSorted<T(!new)>(x: T, s: seq<T>, le: (T, T) -> bool)
    requires TotalPreorder(le) && SortedBy(s, le)
    ensures SortedBy(Insert(x, s, le), le)
  {
    if s != [] {
      if le(x, s[0]) {
        var r := [x] + s;
        forall i, j | 0 <= i < j < |r| ensures le(r[i], r[j]) {
          assert j > 1 ==> le(s[0], s[j - 1]);
        }
      } else {
        InsertSorted(x, s[1..], le);
        var rest := Insert(x, s[1..], le);
        forall j | 0 <= j < |rest| ensures le(s[0], rest[j]) {
          assert rest[j] in multiset(rest);
        }
      }
    }
  }

  lemma {:induction false} StableSortSorted<T(!new)>(s: seq<T>, le: (T, T) -> bool)
    requires TotalPreorder(le)
    ensures SortedBy(StableSort(s, le), le)
  {
    if s != [] {
      StableSortSorted(s[1..], le);
      InsertSorted(s[0], StableSort(s[1..], le), le);
    }
  }

  /** The elements of `s` that compare equal to `x`, in order. */
  function EqualTo<T>(s: seq<T>, x: T, le: (T, T) -> bool): seq<T> {
    if s == [] then []
    else (if le(x, s[0]) && le(s[0], x) then [s[0]] else []) + EqualTo(s[1..], x, le)
  }

  lemma EqualToHead<T>(y: T, s: seq<T>, x: T, le: (T, T) -> bool)
    ensures EqualTo([y] + s, x, le) == (if le(x, y) && le(y, x) then [y] else []) + EqualTo(s, x, le)
  {
    assert ([y] + s)[1..] == s;
  }

  /** Two elements in strict order are not both equal to `x`, so they may change places. */
  lemma StrictlyOrderedSwap<T(!new)>(y: T, z: T, s: seq<T>, x: T, le: (T, T) -> bool)
    requires TotalPreorder(le) && !le(y, z)
    ensures EqualTo([z] + ([y] + s), x, le) == EqualTo([y] + ([z] + s), x, le)
  {
    EqualToHead(z, [y] + s, x, le);
    EqualToHead(y, s, x, le);
    EqualToHead(y, [z] + s, x, le);
    EqualToHead(z, s, x, le);
    assert !(le(y, x) && le(x, z));
  }

  lemma {:induction false} InsertStable<T(!new)>(y: T, s: seq<T>, x: T, le: (T, T) -> bool)
    requires TotalPreorder(le)
    ensures EqualTo(Insert(y, s, le), x, le) == EqualTo([y] + s, x, le)
  {
    if s != [] && !le(y, s[0]) {
      InsertStable(y, s[1..], x, le);
      EqualToHead(s[0], Insert(y, s[1..], le), x, le);
      EqualToHead(s[0], [y] + s[1..], x, le);
      StrictlyOrderedSwap(y, s[0], s[1..], x, le);
      assert [s[0]] + s[1..] == s;
    }
  }

  /** Sorting keeps the order among elements that compare equal. */
  lemma {:induction false} StableSortStable<T(!new)>(s: seq<T>, x: T, le: (T, T) -> bool)
    requires TotalPreorder(le)
    ensures EqualTo(StableSort(s, le), x, le) == EqualTo(s, x, le)
  {
    if s != [] {
      StableSortStable(s[1..], x, le);
      InsertStable(s[0], StableSort(s[1..], le), x, le);
      var sorted := StableSort(s[1..], le);
      assert ([s[0]] + sorted)[1..] == sorted;
    }
  }

  /** `b` is `a` in order, and elements that compare equal keep theirs. */
  ghost predicate SortsStably<T(!new)>(a: seq<T>, b: seq<T>, le: (T, T) -> bool) {
    && multiset(a) == multiset(b) && SortedBy(b, le)
    && forall x :: EqualTo(b, x, le) == EqualTo(a, x, le)
  }

  lemma StableSortSorts<T(!new)>(s: seq<T>, le: (T, T) -> bool)
    requires TotalPreorder(le)
    ensures SortsStably(s, StableSort(s, le), le)
  {
    StableSortSorted(s, le);
    forall x ensures EqualTo(StableSort(s, le), x, le) == EqualTo(s, x, le) {
      StableSortStable(s, x, le);
    }
  }

  // ---------- Leaving elements out ----------

  function Filter<T>(s: seq<T>, keep: T -> bool): seq<T> {
    if s == [] then []
    else if keep(s[0]) then [s[0]] + Filter(s[1..], keep)
    else Filter(s[1..], keep)
  }

  lemma {:induction false} FilteredFrom<T>(s: seq<T>, keep: T -> bool)
    ensures forall x :: x in Filter(s, keep) ==> x in s && keep(x)
  {
    if s != [] {
      FilteredFrom(s[1..], keep);
    }
  }

  lemma {:induction false} FilterJoins<T>(a: seq<T>, b: seq<T>, keep: T -> bool)
    ensures Filter(a + b, keep) == Filter(a, keep) + Filter(b, keep)
  {
    if a == [] {
      assert a + b == b;
    } else {
      FilterJoins(a[1..], b, keep);
      FilterHead(a[0], a[1..] + b, keep);
      assert a + b == [a[0]] + (a[1..] + b);
      assert [a[0]] + Filter(a[1..], keep) + Filter(b, keep) == [a[0]] + (Filter(a[1..], keep) + Filter(b, keep));
    }
  }

  lemma {:induction false} FilterSorted<T(!new)>(s: seq<T>, keep: T -> bool, le: (T, T) -> bool)
    requires SortedBy(s, le)
    ensures SortedBy(Filter(s, keep), le)
  {
    if s != [] {
      FilterSorted(s[1..], keep, le);
      FilteredFrom(s[1..], keep);
      var rest := Filter(s[1..], keep);
      forall j | 0 <= j < |rest| ensures le(s[0], rest[j]) {
        assert rest[j] in s[1..];
      }
    }
  }

  lemma FilterHead<T>(y: T, s: seq<T>, keep: T -> bool)
    ensures Filter([y] + s, keep) == if keep(y) then [y] + Filter(s, keep) else Filter(s, keep)
  {
    assert ([y] + s)[1..] == s;
  }

  lemma {:induction false} FilterEqualTo<T>(s: seq<T>, keep: T -> bool, x: T, le: (T, T) -> bool)
    ensures EqualTo(Filter(s, keep), x, le) == Filter(EqualTo(s, x, le), keep)
  {
    if s != [] {
      FilterEqualTo(s[1..], keep, x, le);
      EqualToOne(s[0], s[1..], x, le);
      if keep(s[0]) {
        EqualToOne(s[0], Filter(s[1..], keep), x, le);
      }
      FilterHead(s[0], EqualTo(s[1..], x, le), keep);
      assert [s[0]] + s[1..] == s;
    }
  }

  lemma EqualToOne<T>(y: T, s: seq<T>, x: T, le: (T, T) -> bool)
    ensures EqualTo([y] + s, x, le) == if le(x, y) && le(y, x) then [y] + EqualTo(s, x, le) else EqualTo(s, x, le)
  {
    EqualToHead(y, s, x, le);
    assert [] + EqualTo(s, x, le) == EqualTo(s, x, le);
  }

  /** A stable sort also sorts what is left when elements are left out. */
  lemma FilterSortsStably<T(!new)>(a: seq<T>, b: seq<T>, keep: T -> bool, le: (T, T) -> bool)
    requires SortsStably(a, b, le)
    ensures SortedBy(Filter(b, keep), le)
    ensures forall x :: EqualTo(Filter(b, keep), x, le) == EqualTo(Filter(a, keep), x, le)
  {
    FilterSorted(b, keep, le);
    forall x ensures EqualTo(Filter(b, keep), x, le) == EqualTo(Filter(a, keep), x, le) {
      FilterEqualTo(a, keep, x, le);
      FilterEqualTo(b, keep, x, le);
    }
  }

  // ---------- The elements of a permutation ----------

  lemma SameElements<T>(a: seq<T>, b: seq<T>)
    requires multiset(a) == multiset(b)
    ensures Elements(a) == Elements(b) && |a| == |b|
    ensures Distinct(a) <==> Distinct(b)
  {
    forall x ensures x in a <==> x in b {
      assert x in a <==> x in multiset(a);
      assert x in b <==> x in multiset(b);
    }
    assert |a| == |multiset(a)| && |b| == |multiset(b)|;
    DistinctMultiset(a);
    DistinctMultiset(b);
  }

  lemma {:induction false} DistinctMultiset<T>(s: seq<T>)
    ensures Distinct(s) <==> forall x :: x in s ==> multiset(s)[x] == 1
  {
    if s != [] {
      var front, last := s[..|s| - 1], s[|s| - 1];
      DistinctMultiset(front);
      assert s == front + [last];
      assert multiset(s) == multiset(front) + multiset{last};
      if Distinct(s) {
        assert last !in front;
        assert last !in multiset(front);
      } else if Distinct(front) {
        var i, j :| 0 <= i < j < |s| && s[i] == s[j];
        assert j == |front| && front[i] == last;
        assert last in multiset(front) && multiset(s)[last] > 1;
      } else {
        var x :| x in front && multiset(front)[x] != 1;
        assert multiset(s)[x] != 1;
      }
    }
  }
}
