/**
 * What a solved schedule means: feasibility, earliest and latest starts, optimality as a heaviest
 * walk, the exact meaning of float, and the critical chain.
 */
module CpmTheorems {
  import opened Ids
  import opened PrecedenceGraph
  import opened KahnSort
  import opened CpmSchedule

  function Index(order: seq<Id>, x: Id): (k: nat)
    requires x in order
    ensures k < |order| && order[k] == x
  {
    if order[0] == x then 0 else 1 + Index(order[1..], x)
  }

  lemma IndexUnique(order: seq<Id>, j: nat)
    requires Distinct(order) && j < |order|
    ensures Index(order, order[j]) == j
  {
  }

  lemma IndexClimbs(g: Graph, order: seq<Id>, a: Id, b: Id)
    requires Valid(g) && Topological(g, order) && Edge(g, a, b) && b in order
    ensures a in order && Index(order, a) < Index(order, b)
  {
    var k := Index(order, b);
    assert a in g.pred[order[k]];
    var j :| 0 <= j < k && order[j] == a;
    IndexUnique(order, j);
  }

  // ---------------------------------------------------------------------------------------------
  // Feasible start assignments

  ghost predicate StartOk(g: Graph, order: seq<Id>, start: map<Id, real>, finish: real, x: Id) {
    && x in g.succ && x in g.duration
    && x in start
    && start[x] >= 0.0
    && start[x] + g.duration[x] <= finish
    && forall y :: y in g.succ[x] && y in order ==> y in start && start[x] + g.duration[x] <= start[y]
  }

  /** Starts are non-negative, respect every edge between scheduled activities and end by `finish`. */
  ghost predicate Feasible(g: Graph, order: seq<Id>, start: map<Id, real>, finish: real) {
    && finish >= 0.0
    && forall x {:trigger StartOk(g, order, start, finish, x)} ::
         x in order ==> StartOk(g, order, start, finish, x)
  }

  /** No feasible schedule starts anything before its earliest start. */
  lemma {:induction false} EarliestIsLeast(g: Graph, s: Schedule, start: map<Id, real>, finish: real, x: Id)
    requires Solved(g, s) && Feasible(g, s.order, start, finish) && x in s.order
    ensures x in start && s.es[x] <= start[x] && s.ef[x] <= finish
    decreases Index(s.order, x)
  {
    assert ForwardAt(g, s.es, s.ef, x);
    assert StartOk(g, s.order, start, finish, x);
    if s.es[x] != 0.0 {
      var p :| p in g.pred[x] && p in s.ef && s.ef[p] == s.es[x];
      assert Edge(g, p, x);
      IndexClimbs(g, s.order, p, x);
      EarliestIsLeast(g, s, start, finish, p);
      assert ForwardAt(g, s.es, s.ef, p);
      assert StartOk(g, s.order, start, finish, p);
    }
  }

  /** No feasible schedule is shorter than the project duration. */
  lemma NothingIsShorter(g: Graph, s: Schedule, start: map<Id, real>, finish: real)
    requires Solved(g, s) && Feasible(g, s.order, start, finish)
    ensures s.end <= finish
  {
    if s.end != 0.0 {
      var x :| x in s.order && x in s.ef && s.ef[x] == s.end;
      EarliestIsLeast(g, s, start, finish, x);
    }
  }

  /** A feasible schedule that ends on time starts nothing after its latest start. */
  lemma {:induction false} LatestIsGreatest(g: Graph, s: Schedule, start: map<Id, real>, x: Id)
    requires Solved(g, s) && Feasible(g, s.order, start, s.end) && x in s.order
    ensures x in start && start[x] <= s.ls[x]
    decreases |s.order| - Index(s.order, x)
  {
    assert BackwardAt(g, s.order, s.end, s.ls, s.lf, x);
    assert StartOk(g, s.order, start, s.end, x);
    if s.lf[x] != s.end {
      var y :| y in g.succ[x] && y in s.order && y in s.ls && s.lf[x] == s.ls[y];
      assert Edge(g, x, y);
      IndexClimbs(g, s.order, x, y);
      LatestIsGreatest(g, s, start, y);
    }
  }

  lemma EarliestIsFeasible(g: Graph, s: Schedule)
    requires Solved(g, s)
    ensures Feasible(g, s.order, s.es, s.end)
  {
    forall x | x in s.order ensures StartOk(g, s.order, s.es, s.end, x) {
      assert ForwardAt(g, s.es, s.ef, x);
      forall y | y in g.succ[x] && y in s.order ensures y in s.es && s.es[x] + g.duration[x] <= s.es[y] {
        assert Edge(g, x, y);
        assert ForwardAt(g, s.es, s.ef, y);
      }
    }
  }

  lemma LatestIsFeasible(g: Graph, s: Schedule)
    requires Solved(g, s)
    ensures Feasible(g, s.order, s.ls, s.end)
  {
    EarliestIsFeasible(g, s);
    forall x | x in s.order ensures StartOk(g, s.order, s.ls, s.end, x) {
      assert BackwardAt(g, s.order, s.end, s.ls, s.lf, x);
      LatestIsGreatest(g, s, s.es, x);
      assert ForwardAt(g, s.es, s.ef, x);
      forall y | y in g.succ[x] && y in s.order ensures y in s.ls && s.ls[x] + g.duration[x] <= s.ls[y] {
        assert BackwardAt(g, s.order, s.end, s.ls, s.lf, y);
      }
    }
  }

  // ---------------------------------------------------------------------------------------------
  // Heaviest walks

  function Weight(g: Graph, p: seq<Id>): real
    requires forall x :: x in p ==> x in g.duration
  {
    if p == [] then 0.0 else Weight(g, p[..|p| - 1]) + g.duration[p[|p| - 1]]
  }

  /** A walk over scheduled activities. */
  ghost predicate ScheduledWalk(g: Graph, order: seq<Id>, p: seq<Id>) {
    Walk(g, p) && forall x :: x in p ==> x in order && x in g.duration
  }

  lemma {:induction false} WeightSplit(g: Graph, p: seq<Id>, q: seq<Id>)
    requires forall x :: x in p + q ==> x in g.duration
    ensures forall x :: x in p ==> x in g.duration
    ensures forall x :: x in q ==> x in g.duration
    ensures Weight(g, p + q) == Weight(g, p) + Weight(g, q)
    decreases |q|
  {
    assert forall x :: x in p ==> x in p + q;
    assert forall x :: x in q ==> x in p + q;
    if q == [] {
      assert p + q == p;
    } else {
      var r := q[..|q| - 1];
      assert (p + q)[..|p + q| - 1] == p + r;
      assert forall x :: x in p + r ==> x in p + q;
      WeightSplit(g, p, r);
    }
  }

  /** Every walk to `x` fits before its earliest finish. */
  lemma {:induction false} WalksToFit(g: Graph, s: Schedule, p: seq<Id>)
    requires Solved(g, s) && ScheduledWalk(g, s.order, p)
    ensures p[|p| - 1] in s.ef && Weight(g, p) <= s.ef[p[|p| - 1]]
    decreases |p|
  {
    var x := p[|p| - 1];
    assert ForwardAt(g, s.es, s.ef, x);
    var front := p[..|p| - 1];
    if front == [] {
      assert Weight(g, p) == g.duration[x];
    } else {
      WalkPrefix(g, p, |p| - 1);
      WalksToFit(g, s, front);
      assert Link(g, p, |p| - 2);
      assert Edge(g, front[|front| - 1], x);
    }
  }

  /** Every scheduled walk from `x` fits after its latest start. */
  lemma {:induction false} WalksFromFit(g: Graph, s: Schedule, p: seq<Id>)
    requires Solved(g, s) && ScheduledWalk(g, s.order, p)
    ensures p[0] in s.ls && Weight(g, p) <= s.end - s.ls[p[0]]
    decreases |p|
  {
    var x := p[0];
    assert BackwardAt(g, s.order, s.end, s.ls, s.lf, x);
    var tail := p[1..];
    WeightOfRest(g, p);
    if tail != [] {
      WalkSuffix(g, p, 1);
      WalksFromFit(g, s, tail);
      assert Link(g, p, 0);
      assert Edge(g, x, tail[0]);
    }
  }

  /** Consecutive activities touch: the earlier one's finish is the later one's start. */
  ghost predicate Tight(s: Schedule, p: seq<Id>) {
    && (forall x :: x in p ==> x in s.es && x in s.ef)
    && forall i :: 0 <= i < |p| - 1 ==> Touch(s, p, i)
  }

  ghost predicate Touch(s: Schedule, p: seq<Id>, i: int)
    requires forall x :: x in p ==> x in s.es && x in s.ef
    requires 0 <= i < |p| - 1
  {
    s.ef[p[i]] == s.es[p[i + 1]]
  }

  lemma TightAppend(s: Schedule, p: seq<Id>, x: Id)
    requires Tight(s, p) && |p| >= 1
    requires x in s.es && x in s.ef && s.ef[p[|p| - 1]] == s.es[x]
    ensures Tight(s, p + [x])
  {
    var q := p + [x];
    forall i | 0 <= i < |q| - 1 ensures Touch(s, q, i) {
      if i < |p| - 1 { assert Touch(s, p, i); }
    }
  }

  /** A walk from time zero, without gaps, that explains the earliest finish of `x`. */
  lemma {:induction false} HeaviestTo(g: Graph, s: Schedule, x: Id) returns (p: seq<Id>)
    requires Solved(g, s) && x in s.order
    ensures ScheduledWalk(g, s.order, p) && p[|p| - 1] == x
    ensures Tight(s, p) && s.es[p[0]] == 0.0
    ensures Weight(g, p) == s.ef[x]
    decreases Index(s.order, x)
  {
    hide Distinct, Maximal, BackwardOn;
    assert ForwardAt(g, s.es, s.ef, x);
    if s.es[x] == 0.0 {
      p := [x];
      assert Weight(g, []) == 0.0;
    } else {
      var y :| y in g.pred[x] && y in s.ef && s.ef[y] == s.es[x];
      assert Edge(g, y, x);
      IndexClimbs(g, s.order, y, x);
      hide *;
      var q := HeaviestTo(g, s, y);
      p := q + [x];
      HeaviestOn(g, s, q, y, x);
    }
  }

  lemma HeaviestOn(g: Graph, s: Schedule, q: seq<Id>, y: Id, x: Id)
    requires Solved(g, s) && x in s.order && Edge(g, y, x) && x in s.es && x in s.ef && y in s.ef && s.ef[y] == s.es[x]
    requires ScheduledWalk(g, s.order, q) && q[|q| - 1] == y && Tight(s, q) && s.es[q[0]] == 0.0
    requires Weight(g, q) == s.ef[y]
    ensures ScheduledWalk(g, s.order, q + [x]) && Tight(s, q + [x]) && Weight(g, q + [x]) == s.ef[x]
  {
    hide Distinct, Topological, Maximal, Backward, BackwardOn;
    assert ForwardAt(g, s.es, s.ef, x);
    WalkAppend(g, q, x);
    assert (q + [x])[..|q|] == q;
    TightAppend(s, q, x);
  }

  /** A scheduled walk that explains the latest start of `x`. */
  lemma {:induction false} HeaviestFrom(g: Graph, s: Schedule, x: Id) returns (p: seq<Id>)
    requires Solved(g, s) && x in s.order
    ensures ScheduledWalk(g, s.order, p) && p[0] == x
    ensures Weight(g, p) == s.end - s.ls[x]
    decreases |s.order| - Index(s.order, x)
  {
    assert BackwardAt(g, s.order, s.end, s.ls, s.lf, x);
    assert Weight(g, []) == 0.0;
    assert Weight(g, [x]) == g.duration[x];
    if s.lf[x] == s.end {
      p := [x];
    } else {
      var y :| y in g.succ[x] && y in s.order && y in s.ls && s.lf[x] == s.ls[y];
      assert Edge(g, x, y);
      IndexClimbs(g, s.order, x, y);
      var q := HeaviestFrom(g, s, y);
      p := [x] + q;
      WalkPrepend(g, x, q);
      WeightSplit(g, [x], q);
    }
  }

  /** The project duration is the weight of the heaviest scheduled walk. */
  lemma EndIsHeaviest(g: Graph, s: Schedule)
    requires Solved(g, s)
    ensures forall p :: ScheduledWalk(g, s.order, p) ==> Weight(g, p) <= s.end
    ensures s.order == [] ==> s.end == 0.0
    ensures s.order != [] ==> exists p :: ScheduledWalk(g, s.order, p) && Weight(g, p) == s.end
  {
    forall p | ScheduledWalk(g, s.order, p) ensures Weight(g, p) <= s.end {
      WalkFits(g, s, p);
    }
    if s.order != [] {
      var p := HeaviestWalk(g, s);
    }
  }

  lemma WalkFits(g: Graph, s: Schedule, p: seq<Id>)
    requires Solved(g, s) && ScheduledWalk(g, s.order, p)
    ensures Weight(g, p) <= s.end
  {
    WalksToFit(g, s, p);
  }

  lemma HeaviestWalk(g: Graph, s: Schedule) returns (p: seq<Id>)
    requires Solved(g, s) && s.order != []
    ensures ScheduledWalk(g, s.order, p) && Weight(g, p) == s.end
  {
    var x := EndReached(g, s);
    p := HeaviestTo(g, s, x);
  }

  lemma EndReached(g: Graph, s: Schedule) returns (x: Id)
    requires Solved(g, s) && s.order != []
    ensures x in s.order && x in s.ef && s.ef[x] == s.end
  {
    if s.end == 0.0 {
      x := s.order[0];
      assert ForwardAt(g, s.es, s.ef, x);
    } else {
      x :| x in s.order && x in s.ef && s.ef[x] == s.end;
    }
  }

  // ---------------------------------------------------------------------------------------------
  // Float

  function Float(s: Schedule, x: Id): real
    requires x in s.ls && x in s.es
  {
    s.ls[x] - s.es[x]
  }

  /**
   * Float is exactly the room left by the heaviest scheduled walk through the activity, and it is
   * never negative.
   */
  lemma FloatIsSlack(g: Graph, s: Schedule, x: Id)
    requires Solved(g, s) && x in s.order
    ensures x in s.ls && x in s.es && Float(s, x) >= 0.0
    ensures forall p :: ScheduledWalk(g, s.order, p) && x in p ==> Weight(g, p) <= s.end - Float(s, x)
    ensures exists p :: ScheduledWalk(g, s.order, p) && x in p && Weight(g, p) == s.end - Float(s, x)
  {
    EarliestIsFeasible(g, s);
    LatestIsGreatest(g, s, s.es, x);
    assert ForwardAt(g, s.es, s.ef, x);
    assert BackwardAt(g, s.order, s.end, s.ls, s.lf, x);
    forall p | ScheduledWalk(g, s.order, p) && x in p ensures Weight(g, p) <= s.end - Float(s, x) {
      WalkThroughFits(g, s, p, x);
    }
    var p := HeaviestThrough(g, s, x);
  }

  lemma HeaviestThrough(g: Graph, s: Schedule, x: Id) returns (p: seq<Id>)
    requires Solved(g, s) && x in s.order
    ensures ScheduledWalk(g, s.order, p) && x in p
    ensures Weight(g, p) == s.end - Float(s, x)
  {
    var a := HeaviestTo(g, s, x);
    var b := HeaviestFrom(g, s, x);
    p := a + b[1..];
    WalkJoin(g, a, b);
    assert forall y :: y in b[1..] ==> y in b;
    WeightSplit(g, a, b[1..]);
    WeightOfRest(g, b);
    assert ForwardAt(g, s.es, s.ef, x);
    assert a[|a| - 1] in p;
  }

  lemma WeightOfRest(g: Graph, p: seq<Id>)
    requires p != [] && forall x :: x in p ==> x in g.duration
    ensures forall x :: x in p[1..] ==> x in g.duration
    ensures Weight(g, p) == g.duration[p[0]] + Weight(g, p[1..])
  {
    assert p == [p[0]] + p[1..];
    WeightSplit(g, [p[0]], p[1..]);
    assert Weight(g, []) == 0.0;
    assert Weight(g, [p[0]]) == g.duration[p[0]];
  }

  lemma WalkThroughFits(g: Graph, s: Schedule, p: seq<Id>, x: Id)
    requires Solved(g, s) && ScheduledWalk(g, s.order, p) && x in p
    requires x in s.ls && x in s.es
    ensures Weight(g, p) <= s.end - Float(s, x)
  {
    hide *;
    var i :| 0 <= i < |p| && p[i] == x;
    var a, b := p[..i + 1], p[i..];
    HalvesOfWalk(g, s, p, i);
    WalksToFit(g, s, a);
    WalksFromFit(g, s, b);
    WeightOfHalves(g, p, i);
    FinishIs(g, s, x);
    FloatIs(s, x);
  }

  lemma HalvesOfWalk(g: Graph, s: Schedule, p: seq<Id>, i: nat)
    requires Solved(g, s) && ScheduledWalk(g, s.order, p) && i < |p|
    ensures ScheduledWalk(g, s.order, p[..i + 1]) && ScheduledWalk(g, s.order, p[i..])
    ensures p[i] in s.order && forall x :: x in p ==> x in g.duration
  {
    hide Walk, Topological, Maximal, Forward, Backward, IsEnd, Valid;
    WalkPrefix(g, p, i + 1);
    WalkSuffix(g, p, i);
  }

  /** The two parts share the activity they meet in. */
  lemma WeightOfHalves(g: Graph, p: seq<Id>, i: nat)
    requires i < |p| && forall x :: x in p ==> x in g.duration
    ensures forall x :: x in p[..i + 1] || x in p[i..] ==> x in g.duration
    ensures Weight(g, p) == Weight(g, p[..i + 1]) + Weight(g, p[i..]) - g.duration[p[i]]
  {
    hide Weight;
    assert p == p[..i + 1] + p[i..][1..];
    WeightSplit(g, p[..i + 1], p[i..][1..]);
    WeightOfRest(g, p[i..]);
  }

  lemma FinishIs(g: Graph, s: Schedule, x: Id)
    requires Solved(g, s) && x in s.order
    ensures x in g.duration && x in s.es && x in s.ef && s.ef[x] == s.es[x] + g.duration[x]
  {
    hide Valid, Topological, Maximal, Backward, IsEnd;
    assert ForwardAt(g, s.es, s.ef, x);
  }

  lemma FloatIs(s: Schedule, x: Id)
    requires x in s.ls && x in s.es
    ensures Float(s, x) == s.ls[x] - s.es[x]
  {
  }

  /**
   * A non-empty schedule has an edge-connected chain of zero-float activities, without gaps, from
   * time zero to the project's end.
   */
  lemma CriticalChain(g: Graph, s: Schedule) returns (p: seq<Id>)
    requires Solved(g, s) && s.order != []
    ensures ScheduledWalk(g, s.order, p) && Tight(s, p)
    ensures s.es[p[0]] == 0.0 && s.ef[p[|p| - 1]] == s.end
    ensures forall x :: x in p ==> x in s.ls && Float(s, x) == 0.0
  {
    var x := EndReached(g, s);
    p := HeaviestTo(g, s, x);
    forall y | y in p ensures y in s.ls && Float(s, y) == 0.0 {
      assert ForwardAt(g, s.es, s.ef, y);
      assert BackwardAt(g, s.order, s.end, s.ls, s.lf, y);
      FloatIsSlack(g, s, y);
      WalkThroughFits(g, s, p, y);
    }
  }

  // ---------------------------------------------------------------------------------------------
  // Sensitivity

  /** The same graph with one activity lengthened. */
  function Lengthen(g: Graph, x: Id, d: real): Graph
    requires x in g.duration
  {
    g.(duration := g.duration[x := g.duration[x] + d])
  }

  lemma LengthenValid(g: Graph, x: Id, d: real)
    requires Valid(g) && x in g.duration && d >= 0.0
    ensures Valid(Lengthen(g, x, d))
    ensures forall a, b :: Edge(g, a, b) <==> Edge(Lengthen(g, x, d), a, b)
  {
    hide Distinct;
    forall a, b ensures Edge(g, a, b) <==> Edge(Lengthen(g, x, d), a, b) {}
  }

  lemma LengthenKeepsWalks(g: Graph, x: Id, d: real)
    requires Valid(g) && x in g.duration && d >= 0.0
    ensures Valid(Lengthen(g, x, d))
    ensures forall p :: Walk(g, p) <==> Walk(Lengthen(g, x, d), p)
  {
    var h := Lengthen(g, x, d);
    LengthenValid(g, x, d);
    forall p ensures Walk(g, p) <==> Walk(h, p) {
      LengthenKeepsWalk(g, x, d, p);
    }
  }

  lemma LengthenKeepsWalk(g: Graph, x: Id, d: real, p: seq<Id>)
    requires x in g.duration
    ensures Walk(g, p) <==> Walk(Lengthen(g, x, d), p)
  {
    var h := Lengthen(g, x, d);
    forall i | 0 <= i < |p| - 1 ensures Link(g, p, i) <==> Link(h, p, i) {}
  }

  /** Both solutions schedule the same activities. */
  lemma LengthenKeepsScheduled(g: Graph, s: Schedule, t: Schedule, x: Id, d: real)
    requires x in g.duration && d >= 0.0
    requires Solved(g, s) && Solved(Lengthen(g, x, d), t)
    ensures forall y :: y in s.order <==> y in t.order
  {
    var h := Lengthen(g, x, d);
    LengthenKeepsWalks(g, x, d);
    assert forall c :: Cycle(g, c) <==> Cycle(h, c);
    forall y ensures y in s.order <==> y in t.order {
      if y in g.ids {
        UnscheduledIffCycle(g, s.order, y);
        UnscheduledIffCycle(h, t.order, y);
        assert forall c, p :: WalkBetween(g, p, c, y) <==> WalkBetween(h, p, c, y);
        assert InOrAfterCycle(g, y) <==> InOrAfterCycle(h, y);
      }
    }
  }

  lemma {:induction false} LengthenWeight(g: Graph, x: Id, d: real, p: seq<Id>)
    requires x in g.duration && Distinct(p) && forall y :: y in p ==> y in g.duration
    ensures Weight(Lengthen(g, x, d), p) == Weight(g, p) + (if x in p then d else 0.0)
    decreases |p|
  {
    if p != [] {
      LengthenWeight(g, x, d, p[..|p| - 1]);
      assert p == p[..|p| - 1] + [p[|p| - 1]];
    }
  }

  lemma ScheduledWalkDistinct(g: Graph, order: seq<Id>, p: seq<Id>)
    requires Valid(g) && Topological(g, order) && ScheduledWalk(g, order, p)
    ensures Distinct(p)
  {
    forall i, j | 0 <= i < j < |p| ensures p[i] != p[j] {
      WalkPrefix(g, p, j + 1);
      assert p[..j + 1][j] == p[j];
      var k := Index(order, p[j]);
      ScheduledWalkClimbs(g, order, p[..j + 1], k);
      assert p[..j + 1][i] in order[..k];
    }
  }

  lemma SensitivityAtMost(g: Graph, s: Schedule, t: Schedule, x: Id, d: real)
    requires x in g.duration && d >= 0.0 && x in s.order
    requires Solved(g, s) && Solved(Lengthen(g, x, d), t) && t.order != []
    ensures t.end <= s.end + Max(0.0, d - Float(s, x))
  {
    var p := HeaviestWalk(Lengthen(g, x, d), t);
    LengthenWalk(g, s, t, x, d, p);
    WalkFits(g, s, p);
    if x in p { WalkThroughFits(g, s, p, x); }
  }

  lemma SensitivityAtLeast(g: Graph, s: Schedule, t: Schedule, x: Id, d: real, p: seq<Id>)
    requires x in g.duration && d >= 0.0 && x in s.order
    requires Solved(g, s) && Solved(Lengthen(g, x, d), t)
    requires ScheduledWalk(g, s.order, p)
    ensures t.end >= Weight(g, p) + if x in p then d else 0.0
  {
    LengthenWalk(g, s, t, x, d, p);
    WalkFits(Lengthen(g, x, d), t, p);
  }

  /** Lengthening one scheduled activity by `d` moves the project's end by exactly max(0, d - float). */
  lemma Sensitivity(g: Graph, s: Schedule, t: Schedule, x: Id, d: real)
    requires x in g.duration && d >= 0.0 && x in s.order
    requires Solved(g, s) && Solved(Lengthen(g, x, d), t)
    ensures t.end == s.end + Max(0.0, d - Float(s, x))
  {
    LengthenKeepsScheduled(g, s, t, x, d);
    assert x in t.order;
    SensitivityAtMost(g, s, t, x, d);
    var q := HeaviestWalk(g, s);
    SensitivityAtLeast(g, s, t, x, d, q);
    var r := HeaviestThrough(g, s, x);
    SensitivityAtLeast(g, s, t, x, d, r);
  }

  /** Scheduled walks carry over; one through the activity gains exactly `d`. */
  lemma LengthenWalk(g: Graph, s: Schedule, t: Schedule, x: Id, d: real, p: seq<Id>)
    requires x in g.duration && d >= 0.0
    requires Solved(g, s) && Solved(Lengthen(g, x, d), t)
    ensures ScheduledWalk(g, s.order, p) <==> ScheduledWalk(Lengthen(g, x, d), t.order, p)
    ensures ScheduledWalk(g, s.order, p) ==>
      Weight(Lengthen(g, x, d), p) == Weight(g, p) + (if x in p then d else 0.0)
  {
    LengthenKeepsWalk(g, x, d, p);
    LengthenKeepsScheduled(g, s, t, x, d);
    if ScheduledWalk(g, s.order, p) {
      ScheduledWalkDistinct(g, s.order, p);
      LengthenWeight(g, x, d, p);
    }
  }

  // ---------------------------------------------------------------------------------------------
  // The numbers are determined by the graph

  /** Same activities, durations and edges; the insertion orders may differ. */
  ghost predicate SameGraph(g: Graph, h: Graph) {
    && Valid(g) && Valid(h)
    && (forall x :: x in g.ids <==> x in h.ids)
    && g.duration == h.duration
    && (forall a, b :: Edge(g, a, b) <==> Edge(h, a, b))
  }

  lemma SameNeighbours(g: Graph, h: Graph, x: Id)
    requires SameGraph(g, h) && x in g.ids
    ensures x in g.pred && x in h.pred && x in g.succ && x in h.succ
    ensures forall y :: y in g.pred[x] <==> y in h.pred[x]
    ensures forall y :: y in g.succ[x] <==> y in h.succ[x]
  {
    forall y ensures y in g.pred[x] <==> y in h.pred[x] {
      assert Edge(g, y, x) <==> Edge(h, y, x);
    }
    forall y ensures y in g.succ[x] <==> y in h.succ[x] {
      assert Edge(g, x, y) <==> Edge(h, x, y);
    }
  }

  /** A solution depends on the graph only, not on the order its sets were filled in. */
  lemma SolvedTransfers(g: Graph, h: Graph, s: Schedule)
    requires SameGraph(g, h) && Solved(g, s)
    ensures Solved(h, s)
  {
    OrderTransfers(g, h, s.order);
    forall x | x in s.order
      ensures x in h.pred && x in h.succ && x in h.ids
      ensures ForwardAt(h, s.es, s.ef, x) && BackwardAt(h, s.order, s.end, s.ls, s.lf, x)
    {
      assert x in g.ids;
      SameNeighbours(g, h, x);
      assert ForwardAt(g, s.es, s.ef, x);
      assert BackwardAt(g, s.order, s.end, s.ls, s.lf, x);
    }
  }

  lemma OrderTransfers(g: Graph, h: Graph, order: seq<Id>)
    requires SameGraph(g, h) && Topological(g, order) && Maximal(g, order)
    ensures Topological(h, order) && Maximal(h, order)
  {
    forall i | 0 <= i < |order|
      ensures order[i] in h.pred && forall p :: p in h.pred[order[i]] ==> p in order[..i]
    {
      assert order[i] in g.ids;
      SameNeighbours(g, h, order[i]);
    }
    forall x | x in h.pred && x !in order ensures Blocked(h, order, x) {
      assert x in g.ids;
      SameNeighbours(g, h, x);
      assert Blocked(g, order, x);
    }
  }

  lemma SameScheduled(g: Graph, order: seq<Id>, other: seq<Id>)
    requires Valid(g)
    requires Topological(g, order) && Maximal(g, order) && Topological(g, other) && Maximal(g, other)
    ensures forall x :: x in order <==> x in other
    ensures forall x :: x in order ==> x in g.ids
  {
    forall x ensures x in order <==> x in other {
      if x in g.ids {
        UnscheduledIffCycle(g, order, x);
        UnscheduledIffCycle(g, other, x);
      }
    }
  }

  /** Two solutions of one graph schedule the same activities at the same times. */
  lemma SolutionIsUnique(g: Graph, s: Schedule, t: Schedule)
    requires Solved(g, s) && Solved(g, t)
    ensures s.end == t.end
    ensures forall x :: x in s.order <==> x in t.order
    ensures forall x :: x in s.order ==>
      s.es[x] == t.es[x] && s.ef[x] == t.ef[x] && s.ls[x] == t.ls[x] && s.lf[x] == t.lf[x]
  {
    SameScheduled(g, s.order, t.order);
    hide Valid, Topological, Maximal, Feasible;
    OtherIsFeasible(g, s, t);
    OtherIsFeasible(g, t, s);
    NothingIsShorter(g, s, t.es, t.end);
    NothingIsShorter(g, t, s.es, s.end);
    assert forall x :: x in s.order ==>
      x in s.es && x in t.es && x in s.ef && x in t.ef && x in s.ls && x in t.ls && x in s.lf && x in t.lf;
    hide *;
    forall x | x in s.order
      ensures s.es[x] == t.es[x] && s.ef[x] == t.ef[x] && s.ls[x] == t.ls[x] && s.lf[x] == t.lf[x]
    {
      EarliestIsLeast(g, s, t.es, t.end, x);
      EarliestIsLeast(g, t, s.es, s.end, x);
      LatestIsGreatest(g, s, t.ls, x);
      LatestIsGreatest(g, t, s.ls, x);
      FinishIs(g, s, x);
      FinishIs(g, t, x);
      LatestStartIs(g, s, x);
      LatestStartIs(g, t, x);
    }
  }

  lemma LatestStartIs(g: Graph, s: Schedule, x: Id)
    requires Solved(g, s) && x in s.order
    ensures x in g.duration && x in s.ls && x in s.lf && s.ls[x] == s.lf[x] - g.duration[x]
  {
    hide Valid, Topological, Maximal, Forward, IsEnd;
    assert BackwardAt(g, s.order, s.end, s.ls, s.lf, x);
  }

  lemma OtherIsFeasible(g: Graph, s: Schedule, t: Schedule)
    requires Solved(g, s) && Solved(g, t)
    requires forall x :: x in s.order <==> x in t.order
    ensures Feasible(g, s.order, t.es, t.end) && Feasible(g, s.order, t.ls, t.end)
  {
    EarliestIsFeasible(g, t);
    LatestIsFeasible(g, t);
    forall x | x in s.order
      ensures StartOk(g, s.order, t.es, t.end, x) && StartOk(g, s.order, t.ls, t.end, x)
    {
      assert StartOk(g, t.order, t.es, t.end, x) && StartOk(g, t.order, t.ls, t.end, x);
    }
  }
}
