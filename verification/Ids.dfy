/** Identifiers, insertion-ordered collections and small facts about duplicate-free sequences. */
module Ids {

  /** An opaque string identifier; every engine compares ids by equality only. */
  datatype Id = Id(name: string)

  ghost predicate Distinct<T(!new)>(s: seq<T>) {
    forall i, j :: 0 <= i < j < |s| ==> s[i] != s[j]
  }

  /** `Set.add` / `Map.set` on an insertion-ordered collection: a present key keeps its place. */
  function AddOnce<T(==, !new)>(s: seq<T>, x: T): (r: seq<T>)
    ensures x in r
    ensures forall y :: y in r <==> y in s || y == x
    ensures Distinct(s) ==> Distinct(r)
  {
    if x in s then s else s + [x]
  }

  /** A duplicate-free sequence over a finite set is no longer than the set is large. */
  lemma {:induction false} DistinctBound<T(!new)>(s: seq<T>, u: set<T>)
    requires Distinct(s)
    requires forall x :: x in s ==> x in u
    ensures |s| <= |u|
    decreases |s|
  {
    if s != [] {
      var last := s[|s| - 1];
      var front := s[..|s| - 1];
      forall x | x in front ensures x in u - {last} {
        assert x != last;
      }
      DistinctBound(front, u - {last});
    }
  }

  /** Equal lengths and containment in a duplicate-free sequence mean the same elements. */
  lemma DistinctCovers<T(!new)>(s: seq<T>, t: seq<T>)
    requires Distinct(s) && Distinct(t)
    requires forall x :: x in s ==> x in t
    requires |s| == |t|
    ensures forall x :: x in t ==> x in s
  {
    forall x | x in t ensures x in s {
      if x !in s {
        var u := (set y | y in t) - {x};
        DistinctBound(s, u);
        DistinctCardinality(t);
      }
    }
  }

  lemma {:induction false} DistinctCardinality<T(!new)>(s: seq<T>)
    requires Distinct(s)
    ensures |set y | y in s| == |s|
    decreases |s|
  {
    if s != [] {
      var last := s[|s| - 1];
      var front := s[..|s| - 1];
      DistinctCardinality(front);
      assert (set y | y in s) == (set y | y in front) + {last} by {
        assert s == front + [last];
      }
      assert last !in front;
    }
  }
}
