/** Which activities the answer calls critical, told by walks through the graph alone, and what it reports of each. */
module CriticalActivities {
  import opened Ids
  import opened PrecedenceGraph
  import opened KahnSort
  import opened CpmSchedule
  import opened CpmTheorems
  import opened CriticalPath

  /** A whole number of units. */
  ghost predicate InUnits(x: real, unit: real) {
    exists k: int :: x == Times(k, unit)
  }

  function Times(k: int, unit: real): real {
    k as real * unit
  }

  lemma UnitsAdd(x: real, y: real, unit: real)
    requires InUnits(x, unit) && InUnits(y, unit)
    ensures InUnits(x + y, unit) && InUnits(x - y, unit)
  {
    var j: int :| x == Times(j, unit);
    var k: int :| y == Times(k, unit);
    assert x + y == Times(j + k, unit) && x - y == Times(j - k, unit);
  }

  lemma NoUnits(unit: real)
    ensures InUnits(0.0, unit)
  {
    assert 0.0 == Times(0, unit);
  }

  /** What is less than a unit is nothing. */
  lemma LessThanAUnit(x: real, unit: real)
    requires InUnits(x, unit) && 0.0 <= x < unit
    ensures x == 0.0
  {
    var k: int :| x == Times(k, unit);
    assert Times(k, unit) == -Times(-k, unit);
    if k >= 1 {
      AtLeastOne(k, unit);
    } else if k <= -1 {
      AtLeastOne(-k, unit);
    }
  }

  lemma AtLeastOne(k: int, unit: real)
    requires k >= 1 && unit > 0.0
    ensures Times(k, unit) >= unit
  {
    assert (k - 1) as real * unit >= 0.0;
  }

  lemma {:induction false} DurationInUnits(nodes: seq<CpmNode>, x: Id, unit: real)
    requires forall n :: n in nodes ==> InUnits(n.duration, unit)
    ensures InUnits(DurationOf(nodes, x), unit)
    decreases |nodes|
  {
    hide InUnits;
    NoUnits(unit);
    if nodes != [] {
      assert nodes[|nodes| - 1] in nodes;
      DurationInUnits(nodes[..|nodes| - 1], x, unit);
    }
  }

  lemma {:induction false} WeightInUnits(g: Graph, p: seq<Id>, unit: real)
    requires forall x :: x in p ==> x in g.duration && InUnits(g.duration[x], unit)
    ensures InUnits(Weight(g, p), unit)
    decreases |p|
  {
    hide InUnits;
    if p == [] {
      NoUnits(unit);
    } else {
      var front, last := p[..|p| - 1], p[|p| - 1];
      assert last in p && forall x :: x in front ==> x in p;
      WeightInUnits(g, front, unit);
      UnitsAdd(Weight(g, front), g.duration[last], unit);
    }
  }

  lemma WalkInUnits(nodes: seq<CpmNode>, edges: seq<CpmEdge>, g: Graph, order: seq<Id>, p: seq<Id>, unit: real)
    requires Describes(g, nodes, edges) && ScheduledWalk(g, order, p)
    requires forall n :: n in nodes ==> InUnits(n.duration, unit)
    ensures InUnits(Weight(g, p), unit)
  {
    hide InUnits, Edge, InputEdge, Walk, DurationOf;
    forall x | x in p ensures x in g.duration && InUnits(g.duration[x], unit) {
      DurationInUnits(nodes, x, unit);
    }
    WeightInUnits(g, p, unit);
  }

  /**
   * With durations in whole units of anything above a billionth, an activity is reported critical, and
   * listed, exactly if one of the heaviest walks of all passes through it.
   */
  lemma CriticalIffOnHeaviestWalk(nodes: seq<CpmNode>, edges: seq<CpmEdge>, r: CpmResult, g: Graph, unit: real, x: Id)
    requires Solves(r, nodes, edges) && Describes(g, nodes, edges) && x in r.order
    requires unit > 0.000000001 && forall n :: n in nodes ==> InUnits(n.duration, unit)
    ensures x in r.nodes
    ensures r.nodes[x].critical <==> exists p :: ScheduledWalk(g, r.order, p) && x in p && Weight(g, p) == r.projectDuration
    ensures r.nodes[x].critical <==> x in r.criticalPath
  {
    hide Describes, Solved, Solves, Reports, Walk, Weight, InUnits;
    AnswerFloat(nodes, edges, r, g, x);
    CriticalIsListed(nodes, edges, r, g, x);
    var p :| ScheduledWalk(g, r.order, p) && x in p && Weight(g, p) == r.projectDuration - r.nodes[x].slack;
    WalkInUnits(nodes, edges, g, r.order, p, unit);
    EndInUnits(nodes, edges, r, g, unit);
    UnitsAdd(r.projectDuration, Weight(g, p), unit);
    if r.nodes[x].critical { LessThanAUnit(r.nodes[x].slack, unit); }
  }

  lemma CriticalIsListed(nodes: seq<CpmNode>, edges: seq<CpmEdge>, r: CpmResult, g: Graph, x: Id)
    requires Solves(r, nodes, edges) && Describes(g, nodes, edges) && x in r.order
    ensures x in r.nodes && (r.nodes[x].critical <==> x in r.criticalPath)
  {
    hide Describes, Solved, Solves, Reports;
    var s := SolutionBehind(nodes, edges, r, g);
  }

  lemma EndInUnits(nodes: seq<CpmNode>, edges: seq<CpmEdge>, r: CpmResult, g: Graph, unit: real)
    requires Solves(r, nodes, edges) && Describes(g, nodes, edges) && r.order != []
    requires forall n :: n in nodes ==> InUnits(n.duration, unit)
    ensures InUnits(r.projectDuration, unit)
  {
    hide Describes, Solved, Solves, Reports, Walk, Weight, InUnits;
    var s := SolutionBehind(nodes, edges, r, g);
    EndIsHeaviest(g, s);
    var p :| ScheduledWalk(g, s.order, p) && Weight(g, p) == s.end;
    WalkInUnits(nodes, edges, g, s.order, p, unit);
  }

  // ---------------------------------------------------------------------------------------------
  // The report of one activity

  /** The last record of an id gives its duration, a negative one counting as none. */
  lemma {:induction false} LastDuration(nodes: seq<CpmNode>, k: nat)
    requires k < |nodes| && forall j :: k < j < |nodes| ==> nodes[j].id != nodes[k].id
    ensures DurationOf(nodes, nodes[k].id) == if nodes[k].duration > 0.0 then nodes[k].duration else 0.0
    decreases |nodes|
  {
    if k < |nodes| - 1 { LastDuration(nodes[..|nodes| - 1], k); }
  }

  /** A scheduled activity is reported under its own id, and its times differ by its duration and by its float. */
  lemma RowAddsUp(nodes: seq<CpmNode>, edges: seq<CpmEdge>, r: CpmResult, k: nat)
    requires Solves(r, nodes, edges) && k < |nodes| && nodes[k].id in r.order
    requires forall j :: k < j < |nodes| ==> nodes[j].id != nodes[k].id
    ensures nodes[k].id in r.nodes
    ensures var n := r.nodes[nodes[k].id];
      && n.id == nodes[k].id
      && n.duration == (if nodes[k].duration > 0.0 then nodes[k].duration else 0.0)
      && n.ef == n.es + n.duration && n.lf == n.ls + n.duration && n.slack == n.ls - n.es
  {
    var x := nodes[k].id;
    LastDuration(nodes, k);
    hide Describes, Solved, Solves, Reports, DurationOf;
    var g := Described(nodes, edges, r);
    var s := SolutionBehind(nodes, edges, r, g);
    DescribedDuration(nodes, edges, g, s, x);
    ReportedRow(g, r, s, x);
    TimesAddUp(g, s, x);
  }

  lemma DescribedDuration(nodes: seq<CpmNode>, edges: seq<CpmEdge>, g: Graph, s: Schedule, x: Id)
    requires Describes(g, nodes, edges) && Solved(g, s) && x in s.order
    ensures x in g.duration && g.duration[x] == DurationOf(nodes, x)
  {
    hide Forward, Backward, IsEnd, Maximal, Edge, InputEdge, Distinct;
  }

  lemma ReportedRow(g: Graph, r: CpmResult, s: Schedule, x: Id)
    requires Reports(r, g, s) && x in s.order
    ensures x in g.duration && x in s.es && x in s.ef && x in s.ls && x in s.lf
    ensures x in r.nodes && r.nodes[x] == ReportOf(g, s, x)
  {
    hide Valid, Topological, Maximal, Forward, Backward, IsEnd, Cycle, InOrAfterCycle, Keep, ReportOf;
  }

  lemma TimesAddUp(g: Graph, s: Schedule, x: Id)
    requires Solved(g, s) && x in s.order && x in g.duration && x in s.es && x in s.ef && x in s.ls && x in s.lf
    ensures s.ef[x] == s.es[x] + g.duration[x] && s.lf[x] == s.ls[x] + g.duration[x]
  {
    assert ForwardAt(g, s.es, s.ef, x);
    assert BackwardAt(g, s.order, s.end, s.ls, s.lf, x);
  }

  /** `s` lists some of `order` without changing their order. */
  ghost predicate KeepsOrder(s: seq<Id>, order: seq<Id>) {
    forall i, j :: 0 <= i < j < |s| ==> ComesBefore(order, s[i], s[j])
  }

  ghost predicate ComesBefore(order: seq<Id>, x: Id, y: Id) {
    exists a, b :: 0 <= a < b < |order| && order[a] == x && order[b] == y
  }

  lemma {:induction false} KeepKeepsOrder(order: seq<Id>, wanted: set<Id>)
    ensures KeepsOrder(Keep(order, wanted), order)
    decreases |order|
  {
    if order != [] {
      var n := |order| - 1;
      var front, kept, before := order[..n], Keep(order, wanted), Keep(order[..n], wanted);
      KeepKeepsOrder(front, wanted);
      KeepMembers(front, wanted);
      forall i, j | 0 <= i < j < |kept| ensures ComesBefore(order, kept[i], kept[j]) {
        if j < |before| {
          assert ComesBefore(front, before[i], before[j]);
          var a, b :| 0 <= a < b < |front| && front[a] == before[i] && front[b] == before[j];
          assert order[a] == kept[i] && order[b] == kept[j];
        } else {
          assert before[i] in front;
          var a :| 0 <= a < |front| && front[a] == before[i];
          assert order[a] == kept[i] && order[n] == kept[j];
        }
      }
    }
  }

  /** Critical activities are listed in the order of the schedule, those left out in the order of the records. */
  lemma ListsKeepOrder(nodes: seq<CpmNode>, edges: seq<CpmEdge>, r: CpmResult)
    requires Solves(r, nodes, edges)
    ensures KeepsOrder(r.criticalPath, r.order) && KeepsOrder(r.unscheduled, IdsOf(nodes))
  {
    hide Describes, Solved, Solves, Reports, KeepsOrder;
    var g := Described(nodes, edges, r);
    var s := SolutionBehind(nodes, edges, r, g);
    ListsKept(g, r, s);
    KeepKeepsOrder(s.order, set x | x in r.nodes && r.nodes[x].critical);
    KeepKeepsOrder(g.ids, set x | x in g.ids && x !in s.order);
    DescribedIds(nodes, edges, g);
  }

  lemma ListsKept(g: Graph, r: CpmResult, s: Schedule)
    requires Reports(r, g, s)
    ensures r.order == s.order
    ensures r.unscheduled == Keep(g.ids, set x | x in g.ids && x !in s.order)
    ensures r.criticalPath == Keep(s.order, set x | x in r.nodes && r.nodes[x].critical)
  {
    hide Solved, Cycle, InOrAfterCycle, Keep, ReportOf;
  }

  lemma DescribedIds(nodes: seq<CpmNode>, edges: seq<CpmEdge>, g: Graph)
    requires Describes(g, nodes, edges)
    ensures g.ids == IdsOf(nodes)
  {
    hide Valid, Edge, InputEdge, DurationOf, IdsOf;
  }
}
