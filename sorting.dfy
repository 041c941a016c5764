/** Ordering a table by a key, as Python's `sorted(..., key=...)` and SQL's `ORDER BY` do it:
    a stable insertion sort over a strict ordering `less` of the rows. */
module Sorting {

  /** `less` is asymmetric and "not after" is transitive: a strict weak order, as a
      comparison of keys is. */
  ghost predicate StrictWeakOrder<T(!new)>(less: (T, T) -> bool) {
    && (forall a, b :: less(a, b) ==> !less(b, a))
    && (forall a, b, c :: !less(b, a) && !less(c, b) ==> !less(c, a))
  }

  /** No row comes after a row that it is ordered before. */
  predicate SortedBy<T>(s: seq<T>, less: (T, T) -> bool) {
    forall i, j :: 0 <= i < j < |s| ==> !less(s[j], s[i])
  }

  /** Places `x` before the first row not ordered before it. */
  function Insert<T>(x: T, s: seq<T>, less: (T, T) -> bool): (r: seq<T>)
    ensures multiset(r) == multiset(s) + multiset{x}
    ensures |r| == |s| + 1
  {
    if s == [] || !less(s[0], x) then [x] + s
    else
      assert s == [s[0]] + s[1..];
      [s[0]] + Insert(x, s[1..], less)
  }

  lemma {:induction false} InsertSorted<T(!new)>(x: T, s: seq<T>, less: (T, T) -> bool)
    requires StrictWeakOrder(less) && SortedBy(s, less)
    ensures SortedBy(Insert(x, s, less), less)
  {
    var r := Insert(x, s, less);
    if s == [] || !less(s[0], x) {
      forall j | 1 <= j < |r|
        ensures !less(r[j], x)
      {
        assert r[j] == s[j - 1];
        if j > 1 {
          assert !less(s[j - 1], s[0]);
        }
      }
    } else {
      InsertSorted(x, s[1..], less);
      var tail := Insert(x, s[1..], less);
      assert r == [s[0]] + tail;
      forall j | 0 <= j < |tail|
        ensures !less(tail[j], s[0])
      {
        assert tail[j] in multiset(tail);
        if tail[j] != x {
          assert tail[j] in multiset(s[1..]);
          var m :| 0 <= m < |s[1..]| && s[1..][m] == tail[j];
          assert s[m + 1] == tail[j];
        }
      }
    }
  }

  /** The rows ordered by `less`; rows with equal keys keep their relative order. */
  function SortBy<T>(s: seq<T>, less: (T, T) -> bool): (r: seq<T>)
    ensures multiset(r) == multiset(s)
    ensures |r| == |s|
  {
    if s == [] then []
    else
      assert s == [s[0]] + s[1..];
      Insert(s[0], SortBy(s[1..], less), less)
  }

  /** The result is ordered, and holds exactly the rows it was given. */
  lemma {:induction false} SortBySorted<T(!new)>(s: seq<T>, less: (T, T) -> bool)
    requires StrictWeakOrder(less)
    ensures SortedBy(SortBy(s, less), less)
    ensures forall x :: x in SortBy(s, less) <==> x in s
  {
    if s != [] {
      SortBySorted(s[1..], less);
      InsertSorted(s[0], SortBy(s[1..], less), less);
    }
    forall x
      ensures x in SortBy(s, less) <==> x in s
    {
      assert x in SortBy(s, less) <==> x in multiset(SortBy(s, less));
      assert x in s <==> x in multiset(s);
    }
  }

  /** Rows already in order come out unchanged: equal keys are never swapped. */
  lemma {:induction false} SortByKeepsSorted<T>(s: seq<T>, less: (T, T) -> bool)
    requires SortedBy(s, less)
    ensures SortBy(s, less) == s
  {
    if s != [] {
      assert SortedBy(s[1..], less);
      SortByKeepsSorted(s[1..], less);
      assert s == [s[0]] + s[1..];
    }
  }
}
