/** The critical path solver: build the graph, sort it, run both passes and report each activity. */
module CriticalPath {
  import opened Ids
  import opened PrecedenceGraph
  import opened KahnSort
  import opened CpmSchedule
  import opened CpmTheorems

  /** The tolerance below which a float counts as critical. */
  const EPS: real := 0.000000001

  datatype CpmNodeResult = CpmNodeResult(
    id: Id, duration: real, es: real, ef: real, ls: real, lf: real, slack: real, critical: bool)

  datatype CpmResult = CpmResult(
    nodes: map<Id, CpmNodeResult>,
    order: seq<Id>,
    projectDuration: real,
    criticalPath: seq<Id>,
    hasCycle: bool,
    unscheduled: seq<Id>)

  /** The graph the inputs describe. */
  ghost predicate Describes(g: Graph, nodes: seq<CpmNode>, edges: seq<CpmEdge>) {
    && Valid(g)
    && g.ids == IdsOf(nodes)
    && (forall x :: x in g.ids ==> g.duration[x] == DurationOf(nodes, x))
    && (forall a, b :: Edge(g, a, b) <==> InputEdge(g.ids, edges, a, b))
  }

  function Keep(s: seq<Id>, wanted: set<Id>): seq<Id> {
    if s == [] then [] else
      Keep(s[..|s| - 1], wanted) + (if s[|s| - 1] in wanted then [s[|s| - 1]] else [])
  }

  function IsCritical(slack: real): bool {
    -EPS <= slack <= EPS
  }

  /** The report of one scheduled activity. */
  function ReportOf(g: Graph, s: Schedule, x: Id): CpmNodeResult
    requires x in g.duration && x in s.es && x in s.ef && x in s.ls && x in s.lf
  {
    CpmNodeResult(x, g.duration[x], s.es[x], s.ef[x], s.ls[x], s.lf[x], Float(s, x), IsCritical(Float(s, x)))
  }

  /** The result reports a solved schedule of the described graph. */
  ghost predicate Reports(r: CpmResult, g: Graph, s: Schedule) {
    && Solved(g, s)
    && r.order == s.order
    && r.projectDuration == s.end
    && (forall x :: x in r.nodes <==> x in s.order)
    && (forall x :: x in s.order ==> r.nodes[x] == ReportOf(g, s, x))
    && (r.hasCycle <==> exists c :: Cycle(g, c))
    && (forall x :: x in r.unscheduled <==> x in g.ids && InOrAfterCycle(g, x))
    && r.unscheduled == Keep(g.ids, set x | x in g.ids && x !in s.order)
    && r.criticalPath == Keep(s.order, set x | x in r.nodes && r.nodes[x].critical)
  }

  lemma {:induction false} KeepMembers(s: seq<Id>, wanted: set<Id>)
    ensures forall x :: x in Keep(s, wanted) <==> x in s && x in wanted
    decreases |s|
  {
    if s != [] {
      KeepMembers(s[..|s| - 1], wanted);
      assert s == s[..|s| - 1] + [s[|s| - 1]];
    }
  }

  /** `r` is what the solver may answer: the report of a solved schedule of the described graph. */
  ghost predicate Solves(r: CpmResult, nodes: seq<CpmNode>, edges: seq<CpmEdge>) {
    exists g, s :: Describes(g, nodes, edges) && Reports(r, g, s)
  }

  /** The activities were taken first in, first out, successors in the order the edges name them. */
  ghost predicate InQueueOrder(order: seq<Id>, nodes: seq<CpmNode>, edges: seq<CpmEdge>) {
    exists g :: Describes(g, nodes, edges) && EdgeOrder(g.ids, g.succ, edges) && Fifo(g, order)
  }

  method CriticalPath(nodes: seq<CpmNode>, edges: seq<CpmEdge>) returns (r: CpmResult)
    ensures Solves(r, nodes, edges)
    ensures InQueueOrder(r.order, nodes, edges)
  {
    hide Valid, Topological, Maximal, Forward, Backward, IsEnd, InputEdge, Edge, Reports, IsCritical, EdgeOrder, Fifo;
    var graph := BuildGraph(nodes, edges);
    var order := Sort(graph);
    assert InQueueOrder(order, nodes, edges) by { assert Describes(graph, nodes, edges); }
    var unscheduled := LeftOut(graph.ids, order);
    var es, ef := ForwardPass(graph, order);
    FinishesAreNonNegative(graph, order, es, ef);
    var end := ProjectEnd(order, ef);
    var ls, lf := BackwardPass(graph, order, end);
    ghost var s := Schedule(order, es, ef, ls, lf, end);
    PassesSolve(graph, s);
    var report, critical := Report(graph, s, order, es, ef, ls, lf);
    r := CpmResult(report, order, end, critical, |order| < |graph.ids|, unscheduled);
    Assemble(r, graph, s);
  }

  lemma Assemble(r: CpmResult, g: Graph, s: Schedule)
    requires Solved(g, s) && r.order == s.order && r.projectDuration == s.end
    requires forall x :: x in r.nodes <==> x in s.order
    requires forall x :: x in s.order ==> r.nodes[x] == ReportOf(g, s, x)
    requires r.hasCycle <==> |s.order| < |g.ids|
    requires r.unscheduled == Keep(g.ids, set x | x in g.ids && x !in s.order)
    requires r.criticalPath == Keep(s.order, set x | x in r.nodes && r.nodes[x].critical)
    ensures Reports(r, g, s)
  {
    hide Valid, Topological, Maximal, Forward, Backward, IsEnd, Cycle, InOrAfterCycle;
    LeftOutMeaning(g, s.order);
  }

  lemma FinishesAreNonNegative(g: Graph, order: seq<Id>, es: map<Id, real>, ef: map<Id, real>)
    requires Valid(g) && Forward(g, order, es, ef)
    ensures forall x :: x in order ==> x in g.duration && x in es && x in ef && ef[x] >= 0.0
  {
    forall x | x in order ensures x in g.duration && x in es && x in ef && ef[x] >= 0.0 {
      assert ForwardAt(g, es, ef, x);
    }
  }

  lemma PassesSolve(g: Graph, s: Schedule)
    requires Valid(g) && Topological(g, s.order) && Maximal(g, s.order)
    requires Forward(g, s.order, s.es, s.ef) && IsEnd(s.order, s.ef, s.end)
    requires Backward(g, s.order, s.end, s.ls, s.lf)
    ensures Solved(g, s)
  {
    FinishesAreNonNegative(g, s.order, s.es, s.ef);
    forall x | x in s.order ensures x in s.ls && x in s.lf {
      assert BackwardAt(g, s.order, s.end, s.ls, s.lf, x);
    }
  }

  lemma LeftOutMeaning(g: Graph, order: seq<Id>)
    requires Valid(g) && Topological(g, order) && Maximal(g, order)
    ensures |order| < |g.ids| <==> exists c :: Cycle(g, c)
    ensures forall x :: x in Keep(g.ids, set x | x in g.ids && x !in order) <==> x in g.ids && InOrAfterCycle(g, x)
  {
    ShortOrderIffCycle(g, order);
    KeepMembers(g.ids, set x | x in g.ids && x !in order);
    forall x | x in g.ids ensures x !in order <==> InOrAfterCycle(g, x) {
      UnscheduledIffCycle(g, order, x);
    }
  }

  method LeftOut(ids: seq<Id>, order: seq<Id>) returns (rest: seq<Id>)
    ensures rest == Keep(ids, set x | x in ids && x !in order)
  {
    rest := [];
    ghost var wanted := set x | x in ids && x !in order;
    for i := 0 to |ids|
      invariant rest == Keep(ids[..i], wanted)
    {
      assert ids[..i + 1][..i] == ids[..i];
      if ids[i] !in order {
        rest := rest + [ids[i]];
      }
    }
    assert ids[..|ids|] == ids;
  }

  method Report(g: Graph, ghost s: Schedule,
                order: seq<Id>, es: map<Id, real>, ef: map<Id, real>, ls: map<Id, real>, lf: map<Id, real>)
    returns (report: map<Id, CpmNodeResult>, critical: seq<Id>)
    requires s == Schedule(order, es, ef, ls, lf, s.end) && Timed(g, s)
    ensures forall x :: x in report <==> x in order
    ensures forall x :: x in order ==> report[x] == ReportOf(g, s, x)
    ensures critical == Keep(order, set x | x in report && report[x].critical)
  {
    hide IsCritical, Keep;
    ghost var wanted := set x | x in order && IsCritical(Float(s, x));
    report, critical := map[], [];
    KeepNone(wanted);
    for i := 0 to |order|
      invariant forall x :: x in report <==> x in order[..i]
      invariant forall x :: x in order[..i] ==> report[x] == ReportOf(g, s, x)
      invariant critical == Keep(order[..i], wanted)
    {
      var id := order[i];
      assert order[..i + 1] == order[..i] + [id];
      KeepOne(order[..i], id, wanted);
      var slack := ls[id] - es[id];
      var isCritical := IsCritical(slack);
      report := report[id := CpmNodeResult(id, g.duration[id], es[id], ef[id], ls[id], lf[id], slack, isCritical)];
      if isCritical {
        critical := critical + [id];
      }
    }
    assert order[..|order|] == order;
    assert wanted == set x | x in report && report[x].critical;
  }

  lemma KeepNone(wanted: set<Id>)
    ensures Keep([], wanted) == []
  {
  }

  lemma KeepOne(s: seq<Id>, x: Id, wanted: set<Id>)
    ensures Keep(s + [x], wanted) == Keep(s, wanted) + (if x in wanted then [x] else [])
  {
    assert (s + [x])[..|s|] == s;
  }

  // ---------------------------------------------------------------------------------------------
  // What an answer says about the inputs

  /** The answer reports the schedule's numbers. */
  ghost predicate Agrees(r: CpmResult, s: Schedule) {
    && r.order == s.order && r.projectDuration == s.end
    && forall x :: x in s.order ==>
         && x in r.nodes && x in s.es && x in s.ef && x in s.ls && x in s.lf
         && r.nodes[x].es == s.es[x] && r.nodes[x].ef == s.ef[x]
         && r.nodes[x].ls == s.ls[x] && r.nodes[x].lf == s.lf[x]
         && r.nodes[x].slack == Float(s, x)
         && (r.nodes[x].critical <==> IsCritical(r.nodes[x].slack))
         && (r.nodes[x].critical <==> x in r.criticalPath)
  }

  /** An answer reports a solution of whichever graph describes the inputs. */
  lemma SolutionBehind(nodes: seq<CpmNode>, edges: seq<CpmEdge>, r: CpmResult, g: Graph) returns (s: Schedule)
    requires Solves(r, nodes, edges) && Describes(g, nodes, edges)
    ensures Solved(g, s) && Agrees(r, s) && Reports(r, g, s)
  {
    hide Valid, Topological, Maximal, Forward, Backward, IsEnd, Edge, InputEdge, SameGraph, Cycle, InOrAfterCycle;
    hide Agrees;
    var h;
    h, s :| Describes(h, nodes, edges) && Reports(r, h, s);
    SameDescription(nodes, edges, h, g);
    SolvedTransfers(h, g, s);
    ReportsTransfer(h, g, r, s);
    ReportsAgree(g, r, s);
  }

  lemma ReportsAgree(g: Graph, r: CpmResult, s: Schedule)
    requires Reports(r, g, s)
    ensures Agrees(r, s)
  {
    hide Valid, Topological, Maximal, Forward, Backward, IsEnd, Cycle, InOrAfterCycle, IsCritical;
    KeepMembers(s.order, set x | x in r.nodes && r.nodes[x].critical);
  }

  lemma ReportsTransfer(h: Graph, g: Graph, r: CpmResult, s: Schedule)
    requires SameGraph(h, g) && h.ids == g.ids && Solved(g, s) && Reports(r, h, s)
    ensures Reports(r, g, s)
  {
    hide Distinct, Walk, Forward, Backward, IsEnd, Cycle, InOrAfterCycle, IsCritical, Keep;
    LeftOutMeaning(h, s.order);
    LeftOutMeaning(g, s.order);
  }

  lemma SameDescription(nodes: seq<CpmNode>, edges: seq<CpmEdge>, g: Graph, h: Graph)
    requires Describes(g, nodes, edges) && Describes(h, nodes, edges)
    ensures SameGraph(g, h) && g.ids == h.ids
  {
    hide Distinct, InputEdge, IdsOf, DurationOf;
    forall x ensures x in g.duration <==> x in h.duration {
      assert x in g.ids <==> x in h.ids;
    }
  }

  /** The inputs determine the answer: every number by the equations alone, the order by the queue. */
  lemma AnswerIsDetermined(nodes: seq<CpmNode>, edges: seq<CpmEdge>, r: CpmResult, q: CpmResult)
    requires Solves(r, nodes, edges) && Solves(q, nodes, edges)
    ensures r.nodes == q.nodes && r.projectDuration == q.projectDuration
    ensures r.hasCycle == q.hasCycle && r.unscheduled == q.unscheduled
    ensures InQueueOrder(r.order, nodes, edges) && InQueueOrder(q.order, nodes, edges) ==> r == q
  {
    NumbersAreDetermined(nodes, edges, r, q);
    if InQueueOrder(r.order, nodes, edges) && InQueueOrder(q.order, nodes, edges) {
      OrderIsDetermined(nodes, edges, r, q);
    }
  }

  lemma OrderIsDetermined(nodes: seq<CpmNode>, edges: seq<CpmEdge>, r: CpmResult, q: CpmResult)
    requires Solves(r, nodes, edges) && Solves(q, nodes, edges)
    requires InQueueOrder(r.order, nodes, edges) && InQueueOrder(q.order, nodes, edges)
    requires r.nodes == q.nodes
    ensures r.order == q.order && r.criticalPath == q.criticalPath
  {
    hide Describes, Solved, Solves, Reports, EdgeOrder, Fifo;
    var g :| Describes(g, nodes, edges) && EdgeOrder(g.ids, g.succ, edges) && Fifo(g, r.order);
    var h :| Describes(h, nodes, edges) && EdgeOrder(h.ids, h.succ, edges) && Fifo(h, q.order);
    FifoTransfers(nodes, edges, h, g, q.order);
    var s := SolutionBehind(nodes, edges, r, g);
    var t := SolutionBehind(nodes, edges, q, g);
    SolvedParts(g, s);
    SolvedParts(g, t);
    FifoIsUnique(g, s.order, t.order);
    CriticalIs(g, r, s);
    CriticalIs(g, q, t);
  }

  lemma SolvedParts(g: Graph, s: Schedule)
    requires Solved(g, s)
    ensures Valid(g) && Topological(g, s.order)
  {
  }

  lemma CriticalIs(g: Graph, r: CpmResult, s: Schedule)
    requires Reports(r, g, s)
    ensures r.order == s.order && r.criticalPath == Keep(r.order, set x | x in r.nodes && r.nodes[x].critical)
  {
    hide Solved, Cycle, InOrAfterCycle, ReportOf;
  }

  lemma FifoTransfers(nodes: seq<CpmNode>, edges: seq<CpmEdge>, h: Graph, g: Graph, order: seq<Id>)
    requires Describes(h, nodes, edges) && EdgeOrder(h.ids, h.succ, edges) && Fifo(h, order)
    requires Describes(g, nodes, edges) && EdgeOrder(g.ids, g.succ, edges)
    ensures Fifo(g, order)
  {
    hide IdsOf, DurationOf, InputEdge, Onward;
    SameDescription(nodes, edges, h, g);
    assert h.succ.Keys == g.succ.Keys;
    assert h.succ == g.succ;
    forall x, done ensures AllDone(h, x, done) <==> AllDone(g, x, done) { SameDone(h, g, x, done); }
    hide AllDone;
    forall done, next ensures Ready(h, done, next) == Ready(g, done, next) { SameReady(h, g, done, next); }
    hide Ready;
    SameEnqueued(h, g, order, |order|);
  }

  lemma SameDone(h: Graph, g: Graph, x: Id, done: seq<Id>)
    requires SameGraph(h, g) && h.ids == g.ids
    ensures AllDone(h, x, done) <==> AllDone(g, x, done)
  {
    if x in g.ids { SameNeighbours(h, g, x); }
  }

  lemma {:induction false} SameReady(h: Graph, g: Graph, done: seq<Id>, next: seq<Id>)
    requires forall x, d :: AllDone(h, x, d) <==> AllDone(g, x, d)
    ensures Ready(h, done, next) == Ready(g, done, next)
    decreases |next|
  {
    hide AllDone;
    if next != [] { SameReady(h, g, done, next[..|next| - 1]); }
  }

  lemma {:induction false} SameEnqueued(h: Graph, g: Graph, order: seq<Id>, n: nat)
    requires n <= |order| && h.ids == g.ids && h.succ == g.succ
    requires forall done, next :: Ready(h, done, next) == Ready(g, done, next)
    ensures Enqueued(h, order, n) == Enqueued(g, order, n)
    decreases n
  {
    hide Ready;
    if n > 0 { SameEnqueued(h, g, order, n - 1); }
  }

  lemma NumbersAreDetermined(nodes: seq<CpmNode>, edges: seq<CpmEdge>, r: CpmResult, q: CpmResult)
    requires Solves(r, nodes, edges) && Solves(q, nodes, edges)
    ensures r.nodes == q.nodes && r.projectDuration == q.projectDuration
    ensures r.hasCycle == q.hasCycle && r.unscheduled == q.unscheduled
  {
    hide Describes, Solved, Solves;
    var g := Described(nodes, edges, r);
    var s := SolutionBehind(nodes, edges, r, g);
    var t := SolutionBehind(nodes, edges, q, g);
    SolutionIsUnique(g, s, t);
    assert (set x | x in g.ids && x !in s.order) == (set x | x in g.ids && x !in t.order);
  }

  lemma Described(nodes: seq<CpmNode>, edges: seq<CpmEdge>, r: CpmResult) returns (g: Graph)
    requires Solves(r, nodes, edges)
    ensures Describes(g, nodes, edges)
  {
    hide Describes, Reports;
    var h, s :| Describes(h, nodes, edges) && Reports(r, h, s);
    g := h;
  }

  /**
   * Both reported schedules are feasible; any feasible one that is as short starts everything between
   * them; and none is shorter.
   */
  lemma AnswerIsOptimal(nodes: seq<CpmNode>, edges: seq<CpmEdge>, r: CpmResult, g: Graph, start: map<Id, real>, finish: real)
    requires Solves(r, nodes, edges) && Describes(g, nodes, edges)
    ensures Feasible(g, r.order, map x | x in r.nodes :: r.nodes[x].es, r.projectDuration)
    ensures Feasible(g, r.order, map x | x in r.nodes :: r.nodes[x].ls, r.projectDuration)
    ensures Feasible(g, r.order, start, finish) ==> r.projectDuration <= finish
    ensures Feasible(g, r.order, start, r.projectDuration) ==>
      forall x :: x in r.order ==> x in start && x in r.nodes && r.nodes[x].es <= start[x] <= r.nodes[x].ls
  {
    hide Describes, Solved, Solves, Feasible, Reports;
    var s := SolutionBehind(nodes, edges, r, g);
    EarliestIsFeasible(g, s);
    LatestIsFeasible(g, s);
    RestrictFeasible(g, s.order, s.es, map x | x in r.nodes :: r.nodes[x].es, s.end);
    RestrictFeasible(g, s.order, s.ls, map x | x in r.nodes :: r.nodes[x].ls, s.end);
    if Feasible(g, r.order, start, finish) {
      NothingIsShorter(g, s, start, finish);
    }
    if Feasible(g, r.order, start, r.projectDuration) {
      forall x | x in r.order ensures x in start && r.nodes[x].es <= start[x] <= r.nodes[x].ls {
        EarliestIsLeast(g, s, start, s.end, x);
        LatestIsGreatest(g, s, start, x);
      }
    }
  }

  lemma RestrictFeasible(g: Graph, order: seq<Id>, start: map<Id, real>, some: map<Id, real>, finish: real)
    requires Feasible(g, order, start, finish)
    requires forall x :: x in order ==> x in some && x in start && some[x] == start[x]
    ensures Feasible(g, order, some, finish)
  {
    forall x | x in order ensures StartOk(g, order, some, finish, x) {
      assert StartOk(g, order, start, finish, x);
    }
  }

  /** The reported float is the room left by the heaviest walk through the activity. */
  lemma AnswerFloat(nodes: seq<CpmNode>, edges: seq<CpmEdge>, r: CpmResult, g: Graph, x: Id)
    requires Solves(r, nodes, edges) && Describes(g, nodes, edges) && x in r.order
    ensures x in r.nodes && r.nodes[x].slack >= 0.0
    ensures r.nodes[x].critical <==> r.nodes[x].slack <= 0.000000001
    ensures forall p :: ScheduledWalk(g, r.order, p) && x in p ==> Weight(g, p) <= r.projectDuration - r.nodes[x].slack
    ensures exists p :: ScheduledWalk(g, r.order, p) && x in p && Weight(g, p) == r.projectDuration - r.nodes[x].slack
  {
    hide Describes, Solved, Solves, Reports;
    var s := SolutionBehind(nodes, edges, r, g);
    FloatIsSlack(g, s, x);
  }

  /**
   * A non-empty answer lists among its critical activities an edge-connected chain that runs, without
   * gaps, from time zero to the project's end.
   */
  lemma AnswerHasCriticalChain(nodes: seq<CpmNode>, edges: seq<CpmEdge>, r: CpmResult, g: Graph) returns (p: seq<Id>)
    requires Solves(r, nodes, edges) && Describes(g, nodes, edges) && r.order != []
    ensures Walk(g, p)
    ensures forall x :: x in p ==> x in r.nodes && r.nodes[x].slack == 0.0 && x in r.criticalPath
    ensures r.nodes[p[0]].es == 0.0 && r.nodes[p[|p| - 1]].ef == r.projectDuration
    ensures forall i :: 0 <= i < |p| - 1 ==> r.nodes[p[i]].ef == r.nodes[p[i + 1]].es
  {
    hide Describes, Solved, Solves, Reports, Link;
    var s := SolutionBehind(nodes, edges, r, g);
    p := CriticalChain(g, s);
    forall i | 0 <= i < |p| - 1 ensures r.nodes[p[i]].ef == r.nodes[p[i + 1]].es {
      assert Touch(s, p, i);
    }
  }

  /** Lengthening one scheduled activity by `d` moves the project duration by exactly max(0, d - float). */
  lemma AnswerSensitivity(nodes: seq<CpmNode>, edges: seq<CpmEdge>, x: Id, d: real, r: CpmResult, q: CpmResult)
    requires Solves(r, nodes, edges) && x in r.order && d >= 0.0
    requires Solves(q, nodes + [CpmNode(x, DurationOf(nodes, x) + d)], edges)
    ensures x in r.nodes && q.projectDuration == r.projectDuration + Max(0.0, d - r.nodes[x].slack)
  {
    hide Describes, Solves, Reports, Topological, Maximal, Forward, Backward, IsEnd;
    var longer := nodes + [CpmNode(x, DurationOf(nodes, x) + d)];
    var g := Described(nodes, edges, r);
    var s := SolutionBehind(nodes, edges, r, g);
    LengthenDescribes(nodes, edges, x, d, g);
    var t := SolutionBehind(longer, edges, q, Lengthen(g, x, d));
    Sensitivity(g, s, t, x, d);
  }

  /** Appending a record for a known id overrides its duration and nothing else. */
  lemma LengthenDescribes(nodes: seq<CpmNode>, edges: seq<CpmEdge>, x: Id, d: real, g: Graph)
    requires Describes(g, nodes, edges) && x in g.ids && x in g.duration && d >= 0.0
    ensures Describes(Lengthen(g, x, d), nodes + [CpmNode(x, DurationOf(nodes, x) + d)], edges)
  {
    hide InputEdge, Valid, Edge, IdsOf, DurationOf;
    LengthenValid(g, x, d);
    KnownDuration(g, x);
    LengthenRecords(nodes, x, d, g);
  }

  lemma KnownDuration(g: Graph, x: Id)
    requires Valid(g) && x in g.duration
    ensures g.duration[x] >= 0.0 && x in g.ids
    ensures forall y :: y in g.ids ==> y in g.duration
  {
  }

  lemma LengthenRecords(nodes: seq<CpmNode>, x: Id, d: real, g: Graph)
    requires g.ids == IdsOf(nodes) && x in g.ids && d >= 0.0 && x in g.duration && g.duration[x] >= 0.0
    requires forall y :: y in g.ids ==> y in g.duration && g.duration[y] == DurationOf(nodes, y)
    ensures Lengthen(g, x, d).ids == IdsOf(nodes + [CpmNode(x, DurationOf(nodes, x) + d)])
    ensures forall y :: y in g.ids ==>
      Lengthen(g, x, d).duration[y] == DurationOf(nodes + [CpmNode(x, DurationOf(nodes, x) + d)], y)
  {
    var longer := nodes + [CpmNode(x, DurationOf(nodes, x) + d)];
    assert longer[..|longer| - 1] == nodes;
  }
}
