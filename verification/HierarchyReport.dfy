/** The whole report of a hierarchy roll-up, and what a reader may conclude from it. */
module HierarchyReport {
  import opened Options
  import opened Ids
  import opened Sorting
  import opened Rounding
  import opened Hierarchy
  import opened PlainRollup
  import opened HierarchyFold
  import opened HierarchyRollup

  datatype Node = Node(
    id: Id, parentId: Option<Id>, depth: nat, ownProgress: real, rolledProgress: real, weight: real,
    isLeaf: bool, childCount: nat, descendantCount: nat, doneDescendants: nat)

  datatype Rollup = Rollup(
    nodes: seq<Node>, roots: seq<Id>, total: nat, rootCount: nat, maxDepth: nat, overallProgress: Option<real>)

  // ---------------------------------------------------------------------------------------------
  // Depth

  /** Climbing from `id` meets `depth` new ancestors before it leaves the tree or comes back to one it met. */
  ghost predicate Climbed(t: Tree, id: Id, depth: nat) {
    && NewAllTheWay(t, id, depth)
    && (Up(t, id, depth + 1).None? || Met(t, id, depth, Up(t, id, depth + 1).value))
  }

  ghost predicate Met(t: Tree, id: Id, depth: nat, a: Id) {
    exists j: nat :: j <= depth && Up(t, id, j) == Some(a)
  }

  ghost predicate NewAllTheWay(t: Tree, id: Id, depth: nat) {
    && (forall i: nat :: i <= depth ==> Up(t, id, i).Some?)
    && (forall i: nat, j: nat :: i < j <= depth ==> Up(t, id, i) != Up(t, id, j))
  }

  method DepthOf(t: Tree, id: Id) returns (depth: nat)
    requires TreeOk(t) && id in t.node
    ensures Climbed(t, id, depth)
  {
    depth := 0;
    var cur := t.parentOf[id];
    var guard := {id};
    MetAtFirst(t, id);
    while cur.Some? && cur.value !in guard
      invariant cur == Up(t, id, depth + 1)
      invariant NewAllTheWay(t, id, depth)
      invariant forall a :: a in guard <==> Met(t, id, depth, a)
      invariant cur.Some? ==> cur.value in t.node
      decreases t.node.Keys - guard
    {
      ghost var before := depth;
      depth := depth + 1;
      guard := guard + {cur.value};
      cur := t.parentOf[cur.value];
      GuardGrows(t, id, before);
    }
  }

  lemma GuardGrows(t: Tree, id: Id, depth: nat)
    requires NewAllTheWay(t, id, depth) && Up(t, id, depth + 1).Some?
    requires !Met(t, id, depth, Up(t, id, depth + 1).value)
    ensures NewAllTheWay(t, id, depth + 1)
    ensures forall a :: Met(t, id, depth + 1, a) <==> Met(t, id, depth, a) || Up(t, id, depth + 1) == Some(a)
  {
  }

  lemma MetAtFirst(t: Tree, id: Id)
    ensures NewAllTheWay(t, id, 0) && forall a :: Met(t, id, 0, a) <==> a == id
  {
    assert Up(t, id, 0) == Some(id);
    forall a | Met(t, id, 0, a) ensures a == id {
      var j: nat :| j <= 0 && Up(t, id, j) == Some(a);
      assert j == 0;
    }
  }

  /** The ancestors of an item, other than itself. */
  ghost function Above(t: Tree, id: Id): set<Id> {
    set a | a in t.node && a != id && IsBelow(t, id, a)
  }

  /** Climbing further meets nothing new. */
  lemma {:induction false} MetEarly(t: Tree, id: Id, depth: nat, n: nat)
    requires Climbed(t, id, depth) && Up(t, id, n).Some?
    ensures Met(t, id, depth, Up(t, id, n).value)
    decreases n
  {
    if n > depth {
      if Up(t, id, depth + 1).None? {
        UpDies(t, id, depth + 1, n);
      } else {
        var j: nat :| j <= depth && Up(t, id, j) == Up(t, id, depth + 1);
        UpJoin(t, id, depth + 1, n - depth - 1);
        UpJoin(t, id, j, n - depth - 1);
        MetEarly(t, id, depth, j + n - depth - 1);
      }
    }
  }

  /** The depth is the number of ancestors, whether links run in circles or not. */
  lemma DepthIsAncestors(t: Tree, id: Id, depth: nat)
    requires TreeOk(t) && id in t.node && Climbed(t, id, depth)
    ensures depth == |Above(t, id)|
  {
    var chain := seq(depth, i requires 0 <= i < depth => Up(t, id, i + 1).value);
    assert Distinct(chain);
    forall a ensures a in chain <==> a in Above(t, id) {
      if a in Above(t, id) { AboveOnChain(t, id, depth, chain, a); }
      if a in chain { ChainAbove(t, id, depth, chain, a); }
    }
    hide *;
    DistinctCardinality(chain);
    assert Above(t, id) == set a | a in chain;
  }

  lemma AboveOnChain(t: Tree, id: Id, depth: nat, chain: seq<Id>, a: Id)
    requires Climbed(t, id, depth) && |chain| == depth
    requires forall i: nat :: i < depth ==> Up(t, id, i + 1) == Some(chain[i])
    requires a in Above(t, id)
    ensures a in chain
  {
    var n: nat :| n >= 1 && Up(t, id, n) == Some(a);
    MetEarly(t, id, depth, n);
    var m: nat :| m <= depth && Up(t, id, m) == Some(a);
    assert m > 0 by { assert Up(t, id, 0) == Some(id); }
    assert chain[m - 1] == a;
  }

  lemma ChainAbove(t: Tree, id: Id, depth: nat, chain: seq<Id>, a: Id)
    requires TreeOk(t) && id in t.node && |chain| == depth
    requires forall i: nat :: i < depth ==> Up(t, id, i + 1) == Some(chain[i])
    requires a in chain && NewAllTheWay(t, id, depth)
    ensures a in Above(t, id)
  {
    var i :| 0 <= i < depth && chain[i] == a;
    assert Up(t, id, i + 1) == Some(a) && Up(t, id, 0) == Some(id);
    UpInTree(t, id, i + 1);
  }

  // ---------------------------------------------------------------------------------------------
  // The report

  ghost predicate NodeOk(t: Tree, n: Node) {
    && n.id in t.node && n.id in t.parentOf
    && n.parentId == t.parentOf[n.id]
    && Climbed(t, n.id, n.depth)
    && n.ownProgress == Round2(t.node[n.id].own)
    && n.weight == t.node[n.id].weight
    && n.childCount == |Kids(t, n.id)| && (n.isLeaf <==> Kids(t, n.id) == [])
    && 0.0 <= n.rolledProgress <= 1.0
    && n.doneDescendants <= n.descendantCount
    && (Sound(t, n.id) ==>
          && n.rolledProgress == Round2(Plain(t, n.id))
          && n.descendantCount == |Below(t, n.id)|
          && n.doneDescendants == |Finished(t, Below(t, n.id))|)
  }

  function NodeIds(nodes: seq<Node>): (r: seq<Id>)
    ensures |r| == |nodes| && forall i :: 0 <= i < |nodes| ==> r[i] == nodes[i].id
  {
    seq(|nodes|, i requires 0 <= i < |nodes| => nodes[i].id)
  }

  ghost predicate AllOk(t: Tree, nodes: seq<Node>) {
    forall n :: n in nodes ==> NodeOk(t, n)
  }

  /** Every id of the tree once, in id order. */
  ghost predicate InIdOrder(t: Tree, order: seq<Id>) {
    && StrictlySorted(IdLess, order)
    && (forall x :: x in order <==> x in t.node)
  }

  /** One node for each item, in id order. */
  ghost predicate NodesOk(t: Tree, nodes: seq<Node>) {
    InIdOrder(t, NodeIds(nodes)) && AllOk(t, nodes)
  }

  ghost predicate RootsOk(t: Tree, roots: seq<Id>) {
    && StrictlySorted(IdLess, roots)
    && (forall x :: x in roots <==> IsRoot(t, x))
    && (forall x :: x in roots ==> x in t.node)
  }

  /** The weighted mean over the roots that are not cancelled, absent when they carry no weight. */
  ghost predicate OverallOk(t: Tree, roots: seq<Id>, overall: Option<real>)
    requires RootsOk(t, roots)
  {
    var counted := Included(t, roots);
    && AllSound(t, counted)
    && (overall.Some? <==> TotalWeight(t, counted) > 0.0)
    && (overall.Some? ==> 0.0 <= overall.value <= 1.0)
    && (overall.Some? ==> overall.value == Round2(Mean(Weighted(t, counted), TotalWeight(t, counted))))
  }

  ghost predicate DeepestIs(nodes: seq<Node>, depth: nat) {
    && (forall i :: 0 <= i < |nodes| ==> nodes[i].depth <= depth)
    && (depth == 0 || exists i :: 0 <= i < |nodes| && nodes[i].depth == depth)
  }

  ghost predicate Reports(t: Tree, r: Rollup) {
    && NodesOk(t, r.nodes)
    && r.total == |r.nodes|
    && RootsOk(t, r.roots)
    && r.rootCount == |r.roots|
    && DeepestIs(r.nodes, r.maxDepth)
    && OverallOk(t, r.roots, r.overallProgress)
  }

  lemma Round2Unit(x: real)
    requires 0.0 <= x <= 1.0
    ensures 0.0 <= Round2(x) <= 1.0
  {
    Round2Monotone(0.0, x);
    Round2Monotone(x, 1.0);
    RoundWhole(0);
    RoundWhole(100);
  }

  method NodeOf(roller: Roller, id: Id) returns (n: Node)
    requires roller.Valid() && id in roller.t.node
    modifies roller
    ensures roller.Valid() && NodeOk(roller.t, n) && n.id == id
  {
    hide RolledOk, Climbed, Finished, Round2, Kids;
    var t := roller.t;
    var stack := new Stack();
    var agg := roller.Tally(id, stack);
    var depth := DepthOf(t, id);
    var rolled := roller.RolledAfresh(id);
    n := Node(id, t.parentOf[id], depth, Round2(t.node[id].own), Round2(rolled), t.node[id].weight,
              Kids(t, id) == [], |Kids(t, id)|, agg.desc, agg.done);
    RolledReported(t, id, rolled);
  }

  lemma RolledReported(t: Tree, id: Id, v: real)
    requires RolledOk(t, id, v)
    ensures 0.0 <= Round2(v) <= 1.0
    ensures Sound(t, id) ==> Round2(v) == Round2(Plain(t, id))
  {
    Round2Unit(v);
  }

  method RootsOf(t: Tree) returns (roots: seq<Id>)
    requires TreeOk(t)
    ensures RootsOk(t, roots)
  {
    hide IdLess, Sort, StrictlySorted, ChildrenOf, Kids;
    var found: seq<Id> := [];
    for i := 0 to |t.ids|
      invariant Distinct(found)
      invariant forall x :: x in found <==> x in t.ids[..i] && t.parentOf[x].None?
    {
      assert t.ids[..i + 1] == t.ids[..i] + [t.ids[i]];
      if t.parentOf[t.ids[i]].None? {
        assert t.ids[i] !in t.ids[..i];
        found := found + [t.ids[i]];
      }
    }
    assert t.ids[..|t.ids|] == t.ids;
    roots := Sort(IdLess, found);
    SortIds(found);
  }

  method OverallOf(roller: Roller, roots: seq<Id>) returns (overall: Option<real>)
    requires roller.Valid() && RootsOk(roller.t, roots)
    modifies roller`rolledCache
    ensures roller.Valid() && OverallOk(roller.t, roots, overall)
  {
    hide TreeOk, RolledOk, SumOk, Share, Included, Kids;
    var t := roller.t;
    var weighted, total := 0.0, 0.0;
    NothingSummed(t);
    assert Included(t, []) == [] by { IncludedNone(t); }
    for i := 0 to |roots|
      invariant roller.Valid() && (forall c :: c in roots[..i] ==> c in t.node)
      invariant SumOk(t, Included(t, roots[..i]), weighted, total)
    {
      var id := roots[i];
      assert roots[..i + 1] == roots[..i] + [id];
      IncludedOneMore(t, roots[..i], id);
      if !t.node[id].excluded {
        var r := roller.RolledAfresh(id);
        SumOneMore(t, Included(t, roots[..i]), id, weighted, total, r);
        weighted := weighted + Share(r, t.node[id].weight);
        total := total + t.node[id].weight;
      }
    }
    assert roots[..|roots|] == roots;
    overall := if total > 0.0 then Some(Round2(Mean(weighted, total))) else None;
    OverallReported(t, roots, weighted, total);
  }

  lemma IncludedNone(t: Tree)
    ensures Included(t, []) == []
  {
  }

  lemma IncludedOneMore(t: Tree, s: seq<Id>, c: Id)
    requires (forall x :: x in s ==> x in t.node) && c in t.node
    ensures Included(t, s + [c]) == if t.node[c].excluded then Included(t, s) else Included(t, s) + [c]
  {
    assert (s + [c])[..|s|] == s;
  }

  lemma OverallReported(t: Tree, roots: seq<Id>, weighted: real, total: real)
    requires TreeOk(t) && RootsOk(t, roots) && SumOk(t, Included(t, roots), weighted, total)
    ensures OverallOk(t, roots, if total > 0.0 then Some(Round2(Mean(weighted, total))) else None)
  {
    RootsAreSound(t, roots);
    hide TreeOk, IsRoot, Sound, Included, Weighted, TotalWeight, Round2, Mean;
    if total > 0.0 {
      MeanBounds(weighted, total);
      Round2Unit(Mean(weighted, total));
    }
  }

  method NodesOf(roller: Roller) returns (nodes: seq<Node>, maxDepth: nat)
    requires roller.Valid()
    modifies roller
    ensures roller.Valid() && NodesOk(roller.t, nodes) && DeepestIs(nodes, maxDepth)
  {
    hide *;
    ValidTree(roller);
    var tree := roller.t;
    var order := OrderOf(tree);
    nodes, maxDepth := [], 0;
    NoneYet(tree);
    for i := 0 to |order|
      invariant roller.Valid()
      invariant NodeIds(nodes) == order[..i] && AllOk(tree, nodes)
      invariant DeepestIs(nodes, maxDepth)
    {
      OrderInTree(tree, order, i);
      var n := NodeOf(roller, order[i]);
      DeeperWith(nodes, maxDepth, n);
      OneMore(tree, nodes, n);
      assert order[..i + 1] == order[..i] + [order[i]];
      nodes := nodes + [n];
      if n.depth > maxDepth { maxDepth := n.depth; }
    }
    assert order[..|order|] == order;
    assert NodesOk(tree, nodes) by { InOrder(tree, order, nodes); }
  }

  lemma ValidTree(roller: Roller)
    requires roller.Valid()
    ensures TreeOk(roller.t)
  {
  }

  lemma InOrder(t: Tree, order: seq<Id>, nodes: seq<Node>)
    requires InIdOrder(t, order) && NodeIds(nodes) == order && AllOk(t, nodes)
    ensures NodesOk(t, nodes)
  {
  }

  lemma OrderInTree(t: Tree, order: seq<Id>, i: nat)
    requires InIdOrder(t, order) && i < |order|
    ensures order[i] in t.node
  {
  }

  lemma OneMore(t: Tree, nodes: seq<Node>, n: Node)
    requires AllOk(t, nodes) && NodeOk(t, n)
    ensures AllOk(t, nodes + [n]) && NodeIds(nodes + [n]) == NodeIds(nodes) + [n.id]
  {
    hide NodeOk;
  }

  lemma NoneYet(t: Tree)
    ensures DeepestIs([], 0) && AllOk(t, []) && NodeIds([]) == []
  {
  }

  /** `rollUpHierarchy`. */
  method RollUpHierarchy(items: seq<Item>) returns (r: Rollup)
    ensures exists t :: Describes(t, items) && Reports(t, r)
  {
    var tree := BuildTree(items);
    assert TreeOk(tree);
    hide TreeOk, Describes, NodesOk, DeepestIs, OverallOk, RootsOk;
    var roller := new Roller(tree);
    var nodes, maxDepth := NodesOf(roller);
    var roots := RootsOf(tree);
    var overall := OverallOf(roller, roots);
    r := Rollup(nodes, roots, |nodes|, |roots|, maxDepth, overall);
    assert Describes(tree, items) && Reports(tree, r);
  }

  lemma DeeperWith(nodes: seq<Node>, depth: nat, n: Node)
    requires DeepestIs(nodes, depth)
    ensures DeepestIs(nodes + [n], if n.depth > depth then n.depth else depth)
  {
    var all := nodes + [n];
    assert all[|nodes|] == n;
    if depth > 0 {
      var i :| 0 <= i < |nodes| && nodes[i].depth == depth;
      assert all[i].depth == depth;
    }
  }

  method OrderOf(t: Tree) returns (order: seq<Id>)
    requires TreeOk(t)
    ensures InIdOrder(t, order)
  {
    hide IdLess, Sort, StrictlySorted;
    order := Sort(IdLess, t.ids);
    SortIds(t.ids);
  }

  // ---------------------------------------------------------------------------------------------
  // What a reader may conclude

  ghost function IdsOfRoots(nodes: seq<Node>): seq<Id> {
    if nodes == [] then []
    else IdsOfRoots(nodes[..|nodes| - 1]) + if nodes[|nodes| - 1].parentId.None? then [nodes[|nodes| - 1].id] else []
  }

  /** Every root and everything reported below it. */
  ghost function ReportedUnderRoots(nodes: seq<Node>): nat {
    if nodes == [] then 0
    else
      var n := nodes[|nodes| - 1];
      ReportedUnderRoots(nodes[..|nodes| - 1]) + if n.parentId.None? then 1 + n.descendantCount else 0
  }

  lemma {:induction false} RootIdsMeaning(t: Tree, nodes: seq<Node>)
    requires AllOk(t, nodes) && Distinct(NodeIds(nodes))
    ensures Distinct(IdsOfRoots(nodes))
    ensures forall x :: x in IdsOfRoots(nodes) <==> IsRoot(t, x) && x in NodeIds(nodes)
    decreases |nodes|
  {
    if nodes != [] {
      var front, n := nodes[..|nodes| - 1], nodes[|nodes| - 1];
      NodeTells(t, nodes, n);
      hide NodeOk, Distinct, NodeIds, IsRoot;
      assert nodes == front + [n];
      OneLess(t, front, n);
      RootIdsMeaning(t, front);
      DistinctOneMore(IdsOfRoots(front), n.id);
    }
  }

  lemma OneLess(t: Tree, nodes: seq<Node>, n: Node)
    requires AllOk(t, nodes + [n]) && Distinct(NodeIds(nodes + [n]))
    ensures AllOk(t, nodes) && Distinct(NodeIds(nodes)) && n.id !in NodeIds(nodes)
    ensures NodeIds(nodes + [n]) == NodeIds(nodes) + [n.id]
  {
    hide NodeOk;
    assert NodeIds(nodes + [n]) == NodeIds(nodes) + [n.id];
    LastIsNew(NodeIds(nodes), n.id);
  }

  lemma NodeTells(t: Tree, nodes: seq<Node>, n: Node)
    requires AllOk(t, nodes) && n in nodes
    ensures n.id in t.node && (n.parentId.None? <==> IsRoot(t, n.id))
    ensures Sound(t, n.id) ==> n.descendantCount == |Below(t, n.id)|
    ensures Sound(t, n.id) ==> n.rolledProgress == Round2(Plain(t, n.id))
  {
    hide Sound, Plain, Round2, Kids, Finished, Below;
  }

  lemma DistinctOneMore<T(!new)>(s: seq<T>, x: T)
    requires Distinct(s)
    ensures x !in s ==> Distinct(s + [x])
  {
  }

  lemma {:induction false} ReportedIsSizes(t: Tree, nodes: seq<Node>)
    requires TreeOk(t) && AllOk(t, nodes)
    ensures ReportedUnderRoots(nodes) == SubtreeSizes(t, IdsOfRoots(nodes))
    decreases |nodes|
  {
    hide TreeOk, NodeOk, IsRoot;
    if nodes != [] {
      var front, n := nodes[..|nodes| - 1], nodes[|nodes| - 1];
      NodeTells(t, nodes, n);
      if IsRoot(t, n.id) { RootIsSound(t, n.id); }
      ReportedIsSizes(t, front);
      assert (IdsOfRoots(front) + [n.id])[..|IdsOfRoots(front)|] == IdsOfRoots(front);
      assert IdsOfRoots(front) + [] == IdsOfRoots(front);
    }
  }

  lemma RootIsSound(t: Tree, x: Id)
    requires TreeOk(t) && IsRoot(t, x)
    ensures Sound(t, x)
  {
    hide TreeOk, IsRoot, OnCycle;
    RootOffCycle(t, x);
  }

  /** The roots and the descendants they report add up to the total exactly if no links run in circles. */
  lemma RootsAndDescendantsAddUp(t: Tree, r: Rollup)
    requires TreeOk(t) && Reports(t, r)
    ensures r.total == |t.ids|
    ensures ReportedUnderRoots(r.nodes) == r.total <==> Acyclic(t)
    ensures ReportedUnderRoots(r.nodes) <= r.total
  {
    hide TreeOk, Acyclic, AllOk, Distinct, NodeIds, NodesOk, DeepestIs, OverallOk, RootsOk, IsRoot, ReportedUnderRoots, IdsOfRoots, SubtreeSizes;
    NodesCount(t, r.nodes);
    RootIdsMeaning(t, r.nodes);
    ReportedIsSizes(t, r.nodes);
    RootsCoverExactly(t, IdsOfRoots(r.nodes));
  }

  lemma NodesCount(t: Tree, nodes: seq<Node>)
    requires TreeOk(t) && NodesOk(t, nodes)
    ensures AllOk(t, nodes) && Distinct(NodeIds(nodes)) && |nodes| == |t.ids|
    ensures forall x :: IsRoot(t, x) ==> x in NodeIds(nodes)
  {
    assert forall x :: IsRoot(t, x) ==> x in t.node;
    hide TreeOk, AllOk, Distinct, NodeIds, StrictlySorted, IdLess, IsRoot;
    IdLessOrders();
    StrictlySortedDistinct(IdLess, NodeIds(nodes));
    DistinctCardinality(NodeIds(nodes));
    IdsCount(t);
    assert t.node.Keys == set x | x in NodeIds(nodes);
  }

  lemma {:induction false} FirstItemUpdated(items: seq<Item>, k: nat, p: real, x: Id)
    requires k < |items|
    ensures var f, g := FirstItem(items, x), FirstItem(items[k := items[k].(progress := Some(p))], x);
            f == g || (f == Some(items[k]) && g == Some(items[k].(progress := Some(p))))
    decreases |items|
  {
    var raised := items[k := items[k].(progress := Some(p))];
    var front := items[..|items| - 1];
    if k < |front| {
      assert raised[..|items| - 1] == front[k := front[k].(progress := Some(p))];
      FirstItemUpdated(front, k, p, x);
    } else {
      assert raised[..|items| - 1] == front;
    }
  }

  /** Raising one record's own progress only raises values of the tree. */
  lemma RaisedRecord(items: seq<Item>, k: nat, p: real, t: Tree, u: Tree)
    requires k < |items| && Resolve(items[k]).own <= Clamp01(p)
    requires Describes(t, items) && Describes(u, items[k := items[k].(progress := Some(p))])
    ensures Raised(t, u)
  {
    hide FirstItem, Resolve, ChildrenOf, Kids, Distinct, TreeOk;
    forall x ensures x in t.node <==> x in u.node { FirstItemUpdated(items, k, p, x); }
    assert t.node.Keys == u.node.Keys;
    forall x | x in t.node
      ensures t.node[x].own <= u.node[x].own && t.node[x].excluded == u.node[x].excluded
      ensures t.node[x].weight == u.node[x].weight && t.node[x].parentId == u.node[x].parentId
    {
      FirstItemUpdated(items, k, p, x);
      ResolveRaised(items[k], p);
    }
    SameParents(t, u);
  }

  lemma ResolveRaised(it: Item, p: real)
    requires Resolve(it).own <= Clamp01(p)
    ensures var a, b := Resolve(it), Resolve(it.(progress := Some(p)));
            a.own <= b.own && a.excluded == b.excluded && a.weight == b.weight && a.parentId == b.parentId
  {
  }

  lemma SameParents(t: Tree, u: Tree)
    requires TreeOk(t) && TreeOk(u) && t.node.Keys == u.node.Keys
    requires forall x :: x in t.node ==> t.node[x].parentId == u.node[x].parentId
    requires forall x :: x in t.node && x in t.parentOf ==> t.parentOf[x] == ParentIn(t.node, x)
    requires forall x :: x in u.node && x in u.parentOf ==> u.parentOf[x] == ParentIn(u.node, x)
    ensures t.parentOf == u.parentOf
  {
    assert t.parentOf.Keys == t.node.Keys && u.parentOf.Keys == u.node.Keys;
    hide TreeOk;
    forall x | x in t.parentOf ensures t.parentOf[x] == u.parentOf[x] { }
  }

  /** Raising one item's own progress lowers the reported progress of no item off cycles. */
  lemma RaisingLowersNothing(items: seq<Item>, k: nat, p: real, t: Tree, u: Tree, before: Rollup, after: Rollup)
    requires k < |items| && Resolve(items[k]).own <= Clamp01(p)
    requires Describes(t, items) && Describes(u, items[k := items[k].(progress := Some(p))])
    requires Reports(t, before) && Reports(u, after)
    ensures forall m, n :: m in before.nodes && n in after.nodes && m.id == n.id && !OnCycle(t, m.id) ==>
              m.rolledProgress <= n.rolledProgress
  {
    RaisedRecord(items, k, p, t, u);
    SameShape(t, u);
    assert TreeOk(t) && TreeOk(u);
    hide TreeOk, OnCycle, Describes, Raised, Plain, OverallOk, RootsOk, DeepestIs, AllOk;
    forall m, n | m in before.nodes && n in after.nodes && m.id == n.id && !OnCycle(t, m.id)
      ensures m.rolledProgress <= n.rolledProgress
    {
      NodeTells(t, before.nodes, m);
      NodeTells(u, after.nodes, n);
      assert Sound(t, m.id) && Sound(u, m.id);
      PlainMonotone(t, u, m.id);
      Round2Monotone(Plain(t, m.id), Plain(u, m.id));
    }
  }
}
