/** Shared vocabulary: an optional value and the units the attendance code counts in. */
module Base {

  /** A value that may be absent (Python's None, JavaScript's undefined, a nullable column). */
  datatype Option<T> = None | Some(value: T) {
    function GetOr(default: T): T {
      match this
      case Some(v) => v
      case None => default
    }
  }

  const SecondsPerMinute: int := 60
  const SecondsPerHour: int := 3600
  const SecondsPerDay: int := 86400

  /** The time of day of an instant, as a Time column stores it (seconds after midnight). */
  function TimeOf(instant: int): (t: int)
    ensures 0 <= t < SecondsPerDay
    ensures (instant - t) % SecondsPerDay == 0
  {
    instant % SecondsPerDay
  }

  /** The day ordinal of an instant (what `datetime.date()` keeps). */
  function DayOf(instant: int): int {
    instant / SecondsPerDay
  }

  /** `datetime.combine(day, t)`: the instant at time of day `t` on day ordinal `day`. */
  function Combine(day: int, t: int): int {
    day * SecondsPerDay + t
  }

  /** Every element of `s` satisfies `ok`, checked from the last element back, as a loop that
      goes through the elements and remembers a failure reaches it. */
  predicate AllOf<T>(s: seq<T>, ok: T -> bool) {
    s == [] || (AllOf(s[..|s| - 1], ok) && ok(s[|s| - 1]))
  }

  lemma {:induction false} AllOfEach<T>(s: seq<T>, ok: T -> bool)
    ensures AllOf(s, ok) <==> forall k :: 0 <= k < |s| ==> ok(s[k])
  {
    if s != [] {
      var front := s[..|s| - 1];
      AllOfEach(front, ok);
      assert forall k :: 0 <= k < |front| ==> front[k] == s[k];
    }
  }

  /** One more element: the prefix check extends by that element's check. */
  lemma AllOfStep<T>(s: seq<T>, i: nat, ok: T -> bool)
    requires i < |s|
    ensures AllOf(s[..i + 1], ok) <==> AllOf(s[..i], ok) && ok(s[i])
  {
    assert s[..i + 1][..i] == s[..i];
  }

  /** `r` is `s` with some elements left out and the rest in their order (matched greedily
      from the front). */
  predicate Subsequence<T(==)>(r: seq<T>, s: seq<T>)
    decreases |s|
  {
    r == [] || (s != [] && if r[0] == s[0] then Subsequence(r[1..], s[1..]) else Subsequence(r, s[1..]))
  }

  /** A query's `WHERE` over a table: the rows `keep` accepts, in table order. */
  function Filter<T>(s: seq<T>, keep: T -> bool): (r: seq<T>)
    ensures |r| <= |s|
    ensures forall k :: 0 <= k < |r| ==> keep(r[k])
  {
    if s == [] then []
    else if keep(s[0]) then [s[0]] + Filter(s[1..], keep)
    else Filter(s[1..], keep)
  }

  /** Every row is kept as often as the table holds it when `keep` accepts it, and not at all
      otherwise: no row is dropped, duplicated or invented. */
  lemma {:induction false} FilterCounts<T(!new)>(s: seq<T>, keep: T -> bool)
    ensures forall x :: multiset(Filter(s, keep))[x] == if keep(x) then multiset(s)[x] else 0
  {
    if s != [] {
      FilterCounts(s[1..], keep);
      assert s == [s[0]] + s[1..];
      assert multiset(s) == multiset{s[0]} + multiset(s[1..]);
      if keep(s[0]) {
        assert multiset(Filter(s, keep)) == multiset{s[0]} + multiset(Filter(s[1..], keep));
      }
    }
  }

  /** The kept rows are exactly the table's rows that `keep` accepts. */
  lemma FilterMembers<T(!new)>(s: seq<T>, keep: T -> bool)
    ensures forall x :: x in Filter(s, keep) <==> x in s && keep(x)
  {
    FilterCounts(s, keep);
    forall x
      ensures x in Filter(s, keep) <==> x in s && keep(x)
    {
      assert x in Filter(s, keep) <==> x in multiset(Filter(s, keep));
      assert x in s <==> x in multiset(s);
    }
  }

  /** The kept rows keep their table order. */
  lemma {:induction false} FilterOrder<T>(s: seq<T>, keep: T -> bool)
    ensures Subsequence(Filter(s, keep), s)
  {
    if s != [] {
      FilterOrder(s[1..], keep);
      var rest := Filter(s[1..], keep);
      if keep(s[0]) {
        assert ([s[0]] + rest)[1..] == rest;
      } else if rest != [] {
        assert keep(rest[0]);
      }
    }
  }

  /** Filtering commutes with concatenation: the kept rows of each part, in order. */
  lemma {:induction false} FilterConcat<T>(a: seq<T>, b: seq<T>, keep: T -> bool)
    ensures Filter(a + b, keep) == Filter(a, keep) + Filter(b, keep)
  {
    if a == [] {
      assert a + b == b;
    } else {
      assert (a + b)[0] == a[0] && (a + b)[1..] == a[1..] + b;
      FilterConcat(a[1..], b, keep);
    }
  }

  /** A table whose every row is kept comes back whole. */
  lemma {:induction false} FilterAllKept<T>(s: seq<T>, keep: T -> bool)
    requires forall k :: 0 <= k < |s| ==> keep(s[k])
    ensures Filter(s, keep) == s
  {
    if s != [] {
      FilterAllKept(s[1..], keep);
      assert s == [s[0]] + s[1..];
    }
  }

  lemma CombineSplits(instant: int)
    ensures Combine(DayOf(instant), TimeOf(instant)) == instant
  {
  }

  /** Every two rows of `s`, in table order, stand in `rel`: the form of a uniqueness
      constraint. */
  predicate Pairwise<T>(s: seq<T>, rel: (T, T) -> bool) {
    forall i, j :: 0 <= i < j < |s| ==> rel(s[i], s[j])
  }

  /** Every element of a subsequence is an element of the sequence. */
  lemma {:induction false} SubsequenceMembers<T>(r: seq<T>, s: seq<T>)
    requires Subsequence(r, s)
    ensures forall x :: x in r ==> x in s
    decreases |s|
  {
    if r != [] {
      if r[0] == s[0] {
        SubsequenceMembers(r[1..], s[1..]);
        assert r == [r[0]] + r[1..];
      } else {
        SubsequenceMembers(r, s[1..]);
      }
    }
  }

  /** Leaving rows out in table order keeps every pairwise constraint of the table. */
  lemma {:induction false} SubsequencePairwise<T>(r: seq<T>, s: seq<T>, rel: (T, T) -> bool)
    requires Subsequence(r, s) && Pairwise(s, rel)
    ensures Pairwise(r, rel)
    decreases |s|
  {
    if r != [] {
      var tail := s[1..];
      assert Pairwise(tail, rel) by {
        forall i, j | 0 <= i < j < |tail| ensures rel(tail[i], tail[j]) {
          assert tail[i] == s[i + 1] && tail[j] == s[j + 1];
        }
      }
      if r[0] == s[0] {
        var rest := r[1..];
        SubsequencePairwise(rest, tail, rel);
        SubsequenceMembers(rest, tail);
        forall i, j | 0 <= i < j < |r| ensures rel(r[i], r[j]) {
          assert r[j] == rest[j - 1] && r[j] in tail;
          var m :| 0 <= m < |tail| && tail[m] == r[j];
          if i == 0 {
            assert s[m + 1] == r[j];
          } else {
            assert r[i] == rest[i - 1];
          }
        }
      } else {
        SubsequencePairwise(r, tail, rel);
      }
    }
  }

  /** Deleting one row keeps every pairwise constraint of the table. */
  lemma RemovePairwise<T>(s: seq<T>, k: nat, rel: (T, T) -> bool)
    requires k < |s| && Pairwise(s, rel)
    ensures Pairwise(s[..k] + s[k + 1..], rel)
  {
    var r := s[..k] + s[k + 1..];
    forall i, j | 0 <= i < j < |r| ensures rel(r[i], r[j]) {
      var i' := if i < k then i else i + 1;
      var j' := if j < k then j else j + 1;
      assert r[i] == s[i'] && r[j] == s[j'];
    }
  }
}
