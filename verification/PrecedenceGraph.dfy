/**
 * The precedence graph behind the critical path solver: activities with clamped durations and the
 * de-duplicated edges between known, different activities.
 */
module PrecedenceGraph {
  import opened Ids

  datatype CpmNode = CpmNode(id: Id, duration: real)

  /** A finish-to-start dependency of `to` on `from`. */
  datatype CpmEdge = CpmEdge(from: Id, to: Id)

  /** `ids`, `succ[x]` and `pred[x]` are in insertion order, as `Map` and `Set` iterate. */
  datatype Graph = Graph(
    ids: seq<Id>,
    duration: map<Id, real>,
    succ: map<Id, seq<Id>>,
    pred: map<Id, seq<Id>>)

  function Max(a: real, b: real): real {
    if a < b then b else a
  }

  function Min(a: real, b: real): real {
    if b < a then b else a
  }

  ghost predicate Edge(g: Graph, a: Id, b: Id) {
    a in g.succ && b in g.succ[a]
  }

  ghost predicate Valid(g: Graph) {
    && Distinct(g.ids)
    && (forall x :: x in g.ids <==> x in g.duration)
    && (forall x :: x in g.ids <==> x in g.succ)
    && (forall x :: x in g.ids <==> x in g.pred)
    && (forall x :: x in g.duration ==> g.duration[x] >= 0.0)
    && (forall x :: x in g.succ ==> Distinct(g.succ[x]))
    && (forall x :: x in g.pred ==> Distinct(g.pred[x]))
    && (forall a, b :: Edge(g, a, b) <==> b in g.pred && a in g.pred[b])
    && (forall a :: !Edge(g, a, a))
  }

  /** The distinct ids in order of first appearance. */
  function IdsOf(nodes: seq<CpmNode>): seq<Id> {
    if nodes == [] then [] else AddOnce(IdsOf(nodes[..|nodes| - 1]), nodes[|nodes| - 1].id)
  }

  /** The clamped duration of the last record carrying `x`. */
  function DurationOf(nodes: seq<CpmNode>, x: Id): real {
    if nodes == [] then 0.0
    else if nodes[|nodes| - 1].id == x then Max(0.0, nodes[|nodes| - 1].duration)
    else DurationOf(nodes[..|nodes| - 1], x)
  }

  /** The edges that count: both ends known and different. */
  ghost predicate InputEdge(ids: seq<Id>, edges: seq<CpmEdge>, a: Id, b: Id) {
    a in ids && b in ids && a != b && CpmEdge(a, b) in edges
  }

  /** Where the counted edges out of `x` lead, in order of first appearance. */
  function Onward(ids: seq<Id>, edges: seq<CpmEdge>, x: Id): seq<Id> {
    if edges == [] then []
    else
      var e := edges[|edges| - 1];
      var before := Onward(ids, edges[..|edges| - 1], x);
      if e.from == x && e.from in ids && e.to in ids && e.from != e.to then AddOnce(before, e.to) else before
  }

  /** Successors are listed in the order the edges name them. */
  ghost predicate EdgeOrder(ids: seq<Id>, succ: map<Id, seq<Id>>, edges: seq<CpmEdge>) {
    forall x :: x in succ ==> succ[x] == Onward(ids, edges, x)
  }

  method BuildGraph(nodes: seq<CpmNode>, edges: seq<CpmEdge>) returns (g: Graph)
    ensures Valid(g)
    ensures g.ids == IdsOf(nodes)
    ensures forall x :: x in g.ids ==> g.duration[x] == DurationOf(nodes, x)
    ensures forall a, b :: Edge(g, a, b) <==> InputEdge(g.ids, edges, a, b)
    ensures EdgeOrder(g.ids, g.succ, edges)
  {
    hide Valid, Adjacency, Distinct, EdgeOrder;
    var ids, duration := BuildDurations(nodes);
    var succ, pred := BuildAdjacency(ids, edges);
    g := Graph(ids, duration, succ, pred);
    GraphIsValid(g, edges);
  }

  lemma GraphIsValid(g: Graph, edges: seq<CpmEdge>)
    requires Distinct(g.ids)
    requires forall x :: x in g.ids <==> x in g.duration
    requires forall x :: x in g.duration ==> g.duration[x] >= 0.0
    requires Adjacency(g.ids, g.succ, edges, true)
    requires Adjacency(g.ids, g.pred, edges, false)
    ensures Valid(g)
    ensures forall a, b :: Edge(g, a, b) <==> InputEdge(g.ids, edges, a, b)
  {
    hide Distinct;
    forall a, b
      ensures Edge(g, a, b) <==> InputEdge(g.ids, edges, a, b)
      ensures Edge(g, a, b) <==> b in g.pred && a in g.pred[b]
    {
    }
  }

  method BuildDurations(nodes: seq<CpmNode>) returns (ids: seq<Id>, duration: map<Id, real>)
    ensures Distinct(ids) && ids == IdsOf(nodes)
    ensures forall x :: x in ids <==> x in duration
    ensures forall x :: x in duration ==> duration[x] >= 0.0 && duration[x] == DurationOf(nodes, x)
  {
    ids, duration := [], map[];
    for i := 0 to |nodes|
      invariant Distinct(ids)
      invariant ids == IdsOf(nodes[..i])
      invariant forall x :: x in ids <==> x in duration
      invariant forall x :: x in duration ==> duration[x] >= 0.0 && duration[x] == DurationOf(nodes[..i], x)
    {
      var n := nodes[i];
      assert nodes[..i + 1][..i] == nodes[..i];
      ids := AddOnce(ids, n.id);
      duration := duration[n.id := Max(0.0, n.duration)];
    }
    assert nodes[..|nodes|] == nodes;
  }

  /** `adj` lists, for each of `ids`, the other ends of the edges that start there. */
  ghost predicate Adjacency(ids: seq<Id>, adj: map<Id, seq<Id>>, edges: seq<CpmEdge>, forwards: bool) {
    && (forall x :: x in ids <==> x in adj)
    && (forall x :: x in adj ==> Distinct(adj[x]))
    && (forall a, b :: a in adj && b in adj[a] <==>
          if forwards then InputEdge(ids, edges, a, b) else InputEdge(ids, edges, b, a))
  }

  lemma AddAdjacent(ids: seq<Id>, adj: map<Id, seq<Id>>, edges: seq<CpmEdge>, e: CpmEdge, forwards: bool)
    requires Adjacency(ids, adj, edges, forwards)
    requires e.from in ids && e.to in ids && e.from != e.to
    ensures
      var (a, b) := if forwards then (e.from, e.to) else (e.to, e.from);
      a in adj && Adjacency(ids, adj[a := AddOnce(adj[a], b)], edges + [e], forwards)
  {
    var (a, b) := if forwards then (e.from, e.to) else (e.to, e.from);
  }

  lemma SkipEdge(ids: seq<Id>, adj: map<Id, seq<Id>>, edges: seq<CpmEdge>, e: CpmEdge, forwards: bool)
    requires Adjacency(ids, adj, edges, forwards)
    requires !(e.from in ids && e.to in ids && e.from != e.to)
    ensures Adjacency(ids, adj, edges + [e], forwards)
  {
  }

  lemma NoEdgesYet(ids: seq<Id>, succ: map<Id, seq<Id>>)
    requires forall x :: x in succ ==> succ[x] == []
    ensures EdgeOrder(ids, succ, [])
  {
  }

  lemma OneMoreEdge(ids: seq<Id>, succ: map<Id, seq<Id>>, edges: seq<CpmEdge>, e: CpmEdge)
    requires EdgeOrder(ids, succ, edges)
    ensures if e.from in ids && e.to in ids && e.from != e.to
            then e.from in succ ==> EdgeOrder(ids, succ[e.from := AddOnce(succ[e.from], e.to)], edges + [e])
            else EdgeOrder(ids, succ, edges + [e])
  {
    assert (edges + [e])[..|edges|] == edges;
  }

  method BuildAdjacency(ids: seq<Id>, edges: seq<CpmEdge>) returns (succ: map<Id, seq<Id>>, pred: map<Id, seq<Id>>)
    ensures Adjacency(ids, succ, edges, true)
    ensures Adjacency(ids, pred, edges, false)
    ensures EdgeOrder(ids, succ, edges)
  {
    succ := map x | x in ids :: [];
    pred := map x | x in ids :: [];
    assert Adjacency(ids, succ, edges[..0], true) && Adjacency(ids, pred, edges[..0], false);
    hide Adjacency, EdgeOrder;
    NoEdgesYet(ids, succ);
    for i := 0 to |edges|
      invariant Adjacency(ids, succ, edges[..i], true)
      invariant Adjacency(ids, pred, edges[..i], false)
      invariant EdgeOrder(ids, succ, edges[..i])
    {
      var e := edges[i];
      assert edges[..i + 1] == edges[..i] + [e];
      OneMoreEdge(ids, succ, edges[..i], e);
      if e.from in ids && e.to in ids && e.from != e.to {
        AddAdjacent(ids, succ, edges[..i], e, true);
        AddAdjacent(ids, pred, edges[..i], e, false);
        succ := succ[e.from := AddOnce(succ[e.from], e.to)];
        pred := pred[e.to := AddOnce(pred[e.to], e.from)];
      } else {
        SkipEdge(ids, succ, edges[..i], e, true);
        SkipEdge(ids, pred, edges[..i], e, false);
      }
    }
    assert edges[..|edges|] == edges;
  }

  // ---------------------------------------------------------------------------------------------
  // Walks and cycles

  ghost predicate Link(g: Graph, p: seq<Id>, i: int)
    requires 0 <= i < |p| - 1
  {
    Edge(g, p[i], p[i + 1])
  }

  /** A non-empty walk along edges of the graph. */
  ghost predicate Walk(g: Graph, p: seq<Id>) {
    && |p| >= 1
    && p[0] in g.ids
    && forall i :: 0 <= i < |p| - 1 ==> Link(g, p, i)
  }

  ghost predicate Cycle(g: Graph, p: seq<Id>) {
    Walk(g, p) && |p| >= 2 && p[0] == p[|p| - 1]
  }

  /** `x` lies on a cycle, or after one. */
  ghost predicate InOrAfterCycle(g: Graph, x: Id) {
    exists c, p :: Cycle(g, c) && WalkBetween(g, p, c[0], x)
  }

  ghost predicate WalkBetween(g: Graph, p: seq<Id>, x: Id, y: Id) {
    Walk(g, p) && p[0] == x && p[|p| - 1] == y
  }

  lemma WalkInIds(g: Graph, p: seq<Id>, i: nat)
    requires Valid(g) && Walk(g, p) && i < |p|
    ensures p[i] in g.ids
  {
    if i > 0 {
      assert Link(g, p, i - 1);
      assert Edge(g, p[i - 1], p[i]);
    }
  }

  lemma WalkPrefix(g: Graph, p: seq<Id>, n: nat)
    requires Walk(g, p) && 1 <= n <= |p|
    ensures Walk(g, p[..n])
  {
    forall i | 0 <= i < n - 1 ensures Link(g, p[..n], i) {
      assert Link(g, p, i);
    }
  }

  lemma WalkSuffix(g: Graph, p: seq<Id>, n: nat)
    requires Valid(g) && Walk(g, p) && n < |p|
    ensures Walk(g, p[n..])
  {
    WalkInIds(g, p, n);
    forall i | 0 <= i < |p| - n - 1 ensures Link(g, p[n..], i) {
      assert Link(g, p, n + i);
    }
  }

  lemma WalkPrepend(g: Graph, x: Id, p: seq<Id>)
    requires Valid(g) && Walk(g, p) && Edge(g, x, p[0])
    ensures Walk(g, [x] + p)
  {
    var q := [x] + p;
    forall i | 0 <= i < |q| - 1 ensures Link(g, q, i) {
      if i > 0 { assert Link(g, p, i - 1); }
    }
  }

  lemma WalkAppend(g: Graph, p: seq<Id>, x: Id)
    requires Walk(g, p) && Edge(g, p[|p| - 1], x)
    ensures Walk(g, p + [x])
  {
    var q := p + [x];
    forall i | 0 <= i < |q| - 1 ensures Link(g, q, i) {
      if i < |p| - 1 { assert Link(g, p, i); }
    }
  }

  /** Walks that meet compose. */
  lemma WalkJoin(g: Graph, p: seq<Id>, q: seq<Id>)
    requires Walk(g, p) && Walk(g, q) && p[|p| - 1] == q[0]
    ensures WalkBetween(g, p + q[1..], p[0], q[|q| - 1])
  {
    var r := p + q[1..];
    forall i | 0 <= i < |r| - 1 ensures Link(g, r, i) {
      if i < |p| - 1 {
        assert Link(g, p, i);
      } else {
        assert Link(g, q, i - |p| + 1);
      }
    }
  }
}
