/** Where an item stands at a boundary, and what a set of items adds up to there. */
module FlowLanes {
  import opened Options

  /** A work item that counts, with its lifecycle timestamps. */
  datatype Work = Work(createdAt: Option<real>, startedAt: Option<real>, completedAt: Option<real>, measure: real)

  predicate By(at: Option<real>, t: real) {
    at.Some? && at.value <= t
  }

  predicate InScope(w: Work, t: real) {
    w.createdAt.None? || w.createdAt.value <= t
  }

  predicate IsDone(w: Work, t: real) {
    InScope(w, t) && By(w.completedAt, t)
  }

  predicate IsActive(w: Work, t: real) {
    InScope(w, t) && !By(w.completedAt, t) && By(w.startedAt, t)
  }

  predicate IsBacklog(w: Work, t: real) {
    InScope(w, t) && !By(w.completedAt, t) && !By(w.startedAt, t)
  }

  /** Done at the boundary and completed after the previous one, if there is one. */
  predicate FinishedSince(w: Work, previous: Option<real>, t: real) {
    IsDone(w, t) && (previous.None? || w.completedAt.value > previous.value)
  }

  function If(b: bool, x: real): real {
    if b then x else 0.0
  }

  function Scope(ws: seq<Work>, t: real): real {
    if ws == [] then 0.0 else Scope(ws[..|ws| - 1], t) + If(InScope(ws[|ws| - 1], t), ws[|ws| - 1].measure)
  }

  function Done(ws: seq<Work>, t: real): real {
    if ws == [] then 0.0 else Done(ws[..|ws| - 1], t) + If(IsDone(ws[|ws| - 1], t), ws[|ws| - 1].measure)
  }

  function Active(ws: seq<Work>, t: real): real {
    if ws == [] then 0.0 else Active(ws[..|ws| - 1], t) + If(IsActive(ws[|ws| - 1], t), ws[|ws| - 1].measure)
  }

  function Backlog(ws: seq<Work>, t: real): real {
    if ws == [] then 0.0 else Backlog(ws[..|ws| - 1], t) + If(IsBacklog(ws[|ws| - 1], t), ws[|ws| - 1].measure)
  }

  function Throughput(ws: seq<Work>, previous: Option<real>, t: real): real {
    if ws == [] then 0.0
    else Throughput(ws[..|ws| - 1], previous, t) + If(FinishedSince(ws[|ws| - 1], previous, t), ws[|ws| - 1].measure)
  }

  ghost predicate NoneNegative(ws: seq<Work>) {
    forall w :: w in ws ==> w.measure >= 0.0
  }

  /** Nothing falls between the lanes. */
  lemma {:induction false} LanesMakeScope(ws: seq<Work>, t: real)
    ensures Scope(ws, t) == Backlog(ws, t) + Active(ws, t) + Done(ws, t)
    decreases |ws|
  {
    if ws != [] { LanesMakeScope(ws[..|ws| - 1], t); }
  }

  /** Scope and done only grow. */
  lemma {:induction false} LanesGrow(ws: seq<Work>, t: real, u: real)
    requires NoneNegative(ws) && t <= u
    ensures 0.0 <= Scope(ws, t) <= Scope(ws, u) && 0.0 <= Done(ws, t) <= Done(ws, u) && Done(ws, t) <= Scope(ws, t)
    decreases |ws|
  {
    if ws != [] {
      assert ws[|ws| - 1] in ws;
      LanesGrow(ws[..|ws| - 1], t, u);
    }
  }

  // ---------------------------------------------------------------------------------------------
  // Throughput over the buckets

  ghost predicate Increasing(ps: seq<real>) {
    forall i, j :: 0 <= i < j < |ps| ==> ps[i] < ps[j]
  }

  function Previous(ps: seq<real>, i: nat): Option<real>
    requires i < |ps|
  {
    if i == 0 then None else Some(ps[i - 1])
  }

  /** All throughput up to and including bucket `i`. */
  function Cumulative(ws: seq<Work>, ps: seq<real>, i: nat): real
    requires i < |ps|
  {
    (if i == 0 then 0.0 else Cumulative(ws, ps, i - 1)) + Throughput(ws, Previous(ps, i), ps[i])
  }

  /** Boundary `j` lies between the completion of the item and its creation, which is later. */
  predicate Splits(w: Work, t: real) {
    w.createdAt.Some? && By(w.completedAt, t) && t < w.createdAt.value
  }

  ghost predicate SplitBefore(w: Work, ps: seq<real>, i: nat)
    requires i < |ps|
  {
    exists j :: 0 <= j <= i && Splits(w, ps[j])
  }

  /** The work done by boundary `i` that no bucket counted: completed before a boundary at which it was not created yet. */
  ghost function Uncounted(ws: seq<Work>, ps: seq<real>, i: nat): real
    requires i < |ps|
  {
    if ws == [] then 0.0
    else
      var w := ws[|ws| - 1];
      Uncounted(ws[..|ws| - 1], ps, i) + If(IsDone(w, ps[i]) && SplitBefore(w, ps, i), w.measure)
  }

  lemma {:induction false} CumulativeSplits(ws: seq<Work>, w: Work, ps: seq<real>, i: nat)
    requires i < |ps|
    ensures Cumulative(ws + [w], ps, i) == Cumulative(ws, ps, i) + Cumulative([w], ps, i)
    decreases i
  {
    ThroughputSplits(ws, w, Previous(ps, i), ps[i]);
    hide Throughput;
    if i > 0 { CumulativeSplits(ws, w, ps, i - 1); }
  }

  lemma ThroughputSplits(ws: seq<Work>, w: Work, previous: Option<real>, t: real)
    ensures Throughput(ws + [w], previous, t) == Throughput(ws, previous, t) + Throughput([w], previous, t)
  {
    assert (ws + [w])[..|ws|] == ws;
    assert [w][..0] == [];
  }

  /** One item: counted by bucket `i` exactly if done by then, unless some boundary up to `i` split it. */
  lemma {:induction false} CountedOnce(w: Work, ps: seq<real>, i: nat)
    requires i < |ps| && Increasing(ps)
    ensures Cumulative([w], ps, i) == If(IsDone(w, ps[i]) && !SplitBefore(w, ps, i), w.measure)
    decreases i
  {
    assert [w][..0] == [];
    assert Throughput([w], Previous(ps, i), ps[i]) == If(FinishedSince(w, Previous(ps, i), ps[i]), w.measure);
    if i > 0 {
      CountedOnce(w, ps, i - 1);
      assert ps[i - 1] < ps[i];
      SplitUpTo(w, ps, i);
      if By(w.completedAt, ps[i - 1]) && w.createdAt.Some? && ps[i - 1] < w.createdAt.value { assert Splits(w, ps[i - 1]); }
      if IsDone(w, ps[i - 1]) { assert !Splits(w, ps[i]); }
      if !By(w.completedAt, ps[i - 1]) { NotSplitYet(w, ps, i - 1); }
    } else {
      SplitUpTo(w, ps, 0);
    }
  }

  lemma SplitUpTo(w: Work, ps: seq<real>, i: nat)
    requires i < |ps|
    ensures SplitBefore(w, ps, i) <==> Splits(w, ps[i]) || (i > 0 && SplitBefore(w, ps, i - 1))
  {
    hide Splits;
    if i > 0 && SplitBefore(w, ps, i - 1) {
      var j :| 0 <= j <= i - 1 && Splits(w, ps[j]);
      assert SplitBefore(w, ps, i);
    }
  }

  lemma NotSplitYet(w: Work, ps: seq<real>, i: nat)
    requires i < |ps| && Increasing(ps) && !By(w.completedAt, ps[i])
    ensures !SplitBefore(w, ps, i)
  {
  }

  /** Done is what the buckets counted plus what they could not. */
  lemma {:induction false} DoneIsCountedOrNot(ws: seq<Work>, ps: seq<real>, i: nat)
    requires i < |ps| && Increasing(ps)
    ensures Done(ws, ps[i]) == Cumulative(ws, ps, i) + Uncounted(ws, ps, i)
    decreases |ws|
  {
    if ws == [] {
      NothingCounted(ps, i);
    } else {
      var front, w := ws[..|ws| - 1], ws[|ws| - 1];
      assert ws == front + [w];
      hide IsDone, SplitBefore, Increasing, Cumulative;
      DoneIsCountedOrNot(front, ps, i);
      CumulativeSplits(front, w, ps, i);
      CountedOnce(w, ps, i);
    }
  }

  lemma {:induction false} NothingCounted(ps: seq<real>, i: nat)
    requires i < |ps|
    ensures Cumulative([], ps, i) == 0.0
    decreases i
  {
    if i > 0 { NothingCounted(ps, i - 1); }
  }

  /** Some item with weight, created by the last boundary, has a boundary between its completion and its creation. */
  ghost predicate SplitItem(ws: seq<Work>, ps: seq<real>) {
    exists w, j :: w in ws && 0 <= j < |ps| && w.measure > 0.0 && InScope(w, ps[|ps| - 1]) && Splits(w, ps[j])
  }

  lemma {:induction false} UncountedSign(ws: seq<Work>, ps: seq<real>, i: nat)
    requires i < |ps| && NoneNegative(ws)
    ensures Uncounted(ws, ps, i) >= 0.0
    ensures Uncounted(ws, ps, i) > 0.0 <==> exists w :: w in ws && w.measure > 0.0 && IsDone(w, ps[i]) && SplitBefore(w, ps, i)
    decreases |ws|
  {
    hide IsDone, SplitBefore;
    if ws != [] {
      var front, w := ws[..|ws| - 1], ws[|ws| - 1];
      assert w in ws && forall v :: v in ws <==> v in front || v == w;
      UncountedSign(front, ps, i);
    }
  }

  /** The buckets add up to done at every boundary exactly if no counted item is split by a boundary that way. */
  lemma ThroughputConserved(ws: seq<Work>, ps: seq<real>)
    requires Increasing(ps) && NoneNegative(ws)
    ensures (forall i :: 0 <= i < |ps| ==> Cumulative(ws, ps, i) == Done(ws, ps[i])) <==> !SplitItem(ws, ps)
    ensures forall i :: 0 <= i < |ps| ==> Cumulative(ws, ps, i) <= Done(ws, ps[i])
  {
    hide Cumulative, Done, Uncounted;
    forall i | 0 <= i < |ps|
      ensures Cumulative(ws, ps, i) <= Done(ws, ps[i])
      ensures Cumulative(ws, ps, i) == Done(ws, ps[i]) <==> Uncounted(ws, ps, i) == 0.0
    {
      DoneIsCountedOrNot(ws, ps, i);
      UncountedSign(ws, ps, i);
    }
    if SplitItem(ws, ps) {
      SplitLosesWork(ws, ps);
    } else {
      forall i | 0 <= i < |ps| ensures Uncounted(ws, ps, i) == 0.0 { UnsplitKeepsWork(ws, ps, i); }
    }
  }

  lemma SplitLosesWork(ws: seq<Work>, ps: seq<real>)
    requires Increasing(ps) && NoneNegative(ws) && SplitItem(ws, ps)
    ensures ps != [] && Uncounted(ws, ps, |ps| - 1) != 0.0
  {
    var w, j :| w in ws && 0 <= j < |ps| && w.measure > 0.0 && InScope(w, ps[|ps| - 1]) && Splits(w, ps[j]);
    var last := |ps| - 1;
    assert j < last ==> ps[j] < ps[last];
    assert SplitBefore(w, ps, last) && IsDone(w, ps[last]);
    UncountedSign(ws, ps, last);
  }

  lemma UnsplitKeepsWork(ws: seq<Work>, ps: seq<real>, i: nat)
    requires i < |ps| && Increasing(ps) && NoneNegative(ws) && !SplitItem(ws, ps)
    ensures Uncounted(ws, ps, i) == 0.0
  {
    UncountedSign(ws, ps, i);
  }

  /** Completed at 5 but created at 10: the boundary at 6 does not count it, and the one at 12 no longer does. */
  lemma EarlyCompletionIsNeverCounted()
    ensures var ws, ps := [Work(Some(10.0), None, Some(5.0), 1.0)], [6.0, 12.0];
            Cumulative(ws, ps, 1) == 0.0 && Done(ws, ps[1]) == 1.0
  {
    var w, ps := Work(Some(10.0), None, Some(5.0), 1.0), [6.0, 12.0];
    assert Splits(w, ps[0]);
    assert SplitBefore(w, ps, 1);
    CountedOnce(w, ps, 1);
  }
}
