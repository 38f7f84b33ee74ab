/** The parent/child index behind the roll-up, its cycles, and what lies below an item. */
module Hierarchy {
  import opened Options
  import opened Ids
  import opened Sorting

  datatype StatusClass = Open | Active | Done | Cancelled

  /** An item record with its status already classified and numbers already finite. */
  datatype Item = Item(id: Id, parentId: Option<Id>, status: StatusClass, progress: Option<real>, weight: Option<real>)

  datatype Resolved = Resolved(parentId: Option<Id>, own: real, excluded: bool, weight: real)

  /** `ids` in insertion order; `children` lists, sorted, only the ids that have some. */
  datatype Tree = Tree(
    ids: seq<Id>,
    node: map<Id, Resolved>,
    parentOf: map<Id, Option<Id>>,
    children: map<Id, seq<Id>>)

  function Clamp01(x: real): real {
    if x < 0.0 then 0.0 else if x > 1.0 then 1.0 else x
  }

  function Resolve(it: Item): (r: Resolved)
    ensures 0.0 <= r.own <= 1.0 && r.weight >= 0.0
  {
    Resolved(
      it.parentId,
      if it.progress.None? then (if it.status == Done then 1.0 else 0.0) else Clamp01(it.progress.value),
      it.status == Cancelled,
      var w := it.weight.GetOr(1.0); if w < 0.0 then 0.0 else w)
  }

  function Kids(t: Tree, x: Id): seq<Id> {
    if x in t.children then t.children[x] else []
  }

  ghost predicate ChildrenOf(t: Tree, x: Id) {
    && StrictlySorted(IdLess, Kids(t, x))
    && forall c :: c in Kids(t, x) <==> c in t.parentOf && t.parentOf[c] == Some(x)
  }

  ghost predicate TreeOk(t: Tree) {
    && Distinct(t.ids)
    && (forall x :: x in t.ids <==> x in t.node)
    && (forall x :: x in t.ids <==> x in t.parentOf)
    && (forall x :: x in t.parentOf && t.parentOf[x].Some? ==> t.parentOf[x].value in t.node && t.parentOf[x].value != x)
    && (forall x {:trigger ChildrenOf(t, x)} {:trigger Kids(t, x)} :: ChildrenOf(t, x))
    && (forall x :: x in t.node ==> 0.0 <= t.node[x].own <= 1.0 && t.node[x].weight >= 0.0)
  }

  /** The parent a node ends up under: an unknown or own parent makes a root. */
  function ParentIn(node: map<Id, Resolved>, x: Id): Option<Id>
    requires x in node
  {
    if node[x].parentId.Some? && node[x].parentId.value != x && node[x].parentId.value in node then node[x].parentId else None
  }

  /** The first record with the id decides. */
  function FirstItem(items: seq<Item>, x: Id): Option<Item> {
    if items == [] then None
    else
      var front := FirstItem(items[..|items| - 1], x);
      if front.Some? then front
      else if items[|items| - 1].id == x then Some(items[|items| - 1])
      else None
  }

  /** The tree the records describe. */
  ghost predicate Describes(t: Tree, items: seq<Item>) {
    && TreeOk(t)
    && (forall x :: x in t.node <==> FirstItem(items, x).Some?)
    && (forall x :: x in t.node ==> t.node[x] == Resolve(FirstItem(items, x).value))
    && (forall x :: x in t.node ==> t.parentOf[x] == ParentIn(t.node, x))
  }

  // ---------------------------------------------------------------------------------------------
  // Building

  method ResolveItems(items: seq<Item>) returns (ids: seq<Id>, node: map<Id, Resolved>)
    ensures Distinct(ids) && forall x :: x in ids <==> x in node
    ensures forall x :: x in node <==> FirstItem(items, x).Some?
    ensures forall x :: x in node ==> node[x] == Resolve(FirstItem(items, x).value)
  {
    ids, node := [], map[];
    for i := 0 to |items|
      invariant Distinct(ids) && forall x :: x in ids <==> x in node
      invariant forall x :: x in node <==> FirstItem(items[..i], x).Some?
      invariant forall x :: x in node ==> node[x] == Resolve(FirstItem(items[..i], x).value)
    {
      assert items[..i + 1][..i] == items[..i];
      if items[i].id !in node {
        ids := ids + [items[i].id];
        node := node[items[i].id := Resolve(items[i])];
      }
    }
    assert items[..|items|] == items;
  }

  /** The children linked so far: those of the first `done` ids, in that order. */
  ghost predicate Linked(done: seq<Id>, node: map<Id, Resolved>, parentOf: map<Id, Option<Id>>, children: map<Id, seq<Id>>) {
    && (forall x :: x in done ==> x in node)
    && (forall x :: x in parentOf <==> x in done)
    && (forall x :: x in parentOf ==> x in node && parentOf[x] == ParentIn(node, x))
    && (forall p :: p in children ==> Distinct(children[p]))
    && (forall p, c :: p in children && c in children[p] <==> c in parentOf && parentOf[c] == Some(p))
  }

  method LinkParents(ids: seq<Id>, node: map<Id, Resolved>) returns (parentOf: map<Id, Option<Id>>, children: map<Id, seq<Id>>)
    requires Distinct(ids) && forall x :: x in ids ==> x in node
    ensures Linked(ids, node, parentOf, children)
  {
    parentOf, children := map[], map[];
    for i := 0 to |ids|
      invariant Linked(ids[..i], node, parentOf, children)
    {
      var x := ids[i];
      assert ids[..i + 1] == ids[..i] + [x];
      var parent := if node[x].parentId.Some? && node[x].parentId.value != x && node[x].parentId.value in node
                    then node[x].parentId else None;
      LinkOne(ids[..i], node, parentOf, children, x);
      parentOf := parentOf[x := parent];
      if parent.Some? {
        children := children[parent.value := (if parent.value in children then children[parent.value] else []) + [x]];
      }
    }
    assert ids[..|ids|] == ids;
  }

  function Adopt(children: map<Id, seq<Id>>, parent: Option<Id>, x: Id): map<Id, seq<Id>> {
    if parent.None? then children
    else children[parent.value := (if parent.value in children then children[parent.value] else []) + [x]]
  }

  lemma LinkOne(done: seq<Id>, node: map<Id, Resolved>, parentOf: map<Id, Option<Id>>, children: map<Id, seq<Id>>, x: Id)
    requires Linked(done, node, parentOf, children) && x in node && x !in done
    ensures Linked(done + [x], node, parentOf[x := ParentIn(node, x)], Adopt(children, ParentIn(node, x), x))
  {
  }

  method BuildTree(items: seq<Item>) returns (t: Tree)
    ensures Describes(t, items)
  {
    hide Sort, IdLess, StrictlySorted;
    var ids, node := ResolveItems(items);
    var parentOf, unsorted := LinkParents(ids, node);
    t := Tree(ids, node, parentOf, map p | p in unsorted :: Sort(IdLess, unsorted[p]));
    SortedChildren(ids, node, parentOf, unsorted, t);
    BuiltOk(items, t);
  }

  lemma BuiltOk(items: seq<Item>, t: Tree)
    requires Distinct(t.ids) && (forall x :: x in t.ids <==> x in t.node) && (forall x :: x in t.parentOf <==> x in t.ids)
    requires forall x :: x in t.parentOf ==> x in t.node && t.parentOf[x] == ParentIn(t.node, x)
    requires forall x :: x in t.node <==> FirstItem(items, x).Some?
    requires forall x :: x in t.node ==> t.node[x] == Resolve(FirstItem(items, x).value)
    requires forall x {:trigger ChildrenOf(t, x)} {:trigger Kids(t, x)} :: ChildrenOf(t, x)
    ensures Describes(t, items)
  {
    hide FirstItem, ChildrenOf, Kids, Distinct, Resolve;
  }

  lemma SortedChildren(ids: seq<Id>, node: map<Id, Resolved>, parentOf: map<Id, Option<Id>>, unsorted: map<Id, seq<Id>>, t: Tree)
    requires Linked(ids, node, parentOf, unsorted)
    requires t == Tree(ids, node, parentOf, map p | p in unsorted :: Sort(IdLess, unsorted[p]))
    ensures forall x {:trigger ChildrenOf(t, x)} {:trigger Kids(t, x)} :: ChildrenOf(t, x)
  {
    hide Sort, IdLess, StrictlySorted, Linked, ChildrenOf;
    forall x ensures ChildrenOf(t, x) {
      assert Kids(t, x) == if x in unsorted then Sort(IdLess, unsorted[x]) else [];
      SortedChildrenOf(ids, node, parentOf, unsorted, t, x);
    }
  }

  lemma SortedChildrenOf(ids: seq<Id>, node: map<Id, Resolved>, parentOf: map<Id, Option<Id>>, unsorted: map<Id, seq<Id>>, t: Tree, x: Id)
    requires Linked(ids, node, parentOf, unsorted)
    requires t.parentOf == parentOf && Kids(t, x) == if x in unsorted then Sort(IdLess, unsorted[x]) else []
    ensures ChildrenOf(t, x)
  {
    hide Sort, IdLess, Kids, Distinct;
    if x in unsorted { SortIds(unsorted[x]); }
  }

  // ---------------------------------------------------------------------------------------------
  // Climbing

  /** The ancestor `n` steps up. */
  function Up(t: Tree, x: Id, n: nat): Option<Id> {
    if n == 0 then Some(x)
    else
      var below := Up(t, x, n - 1);
      if below.Some? && below.value in t.parentOf then t.parentOf[below.value] else None
  }

  lemma {:induction false} UpJoin(t: Tree, x: Id, m: nat, n: nat)
    requires Up(t, x, m).Some?
    ensures Up(t, x, m + n) == Up(t, Up(t, x, m).value, n)
    decreases n
  {
    if n > 0 { UpJoin(t, x, m, n - 1); }
  }

  lemma {:induction false} UpDies(t: Tree, x: Id, m: nat, n: nat)
    requires m <= n && Up(t, x, m).None?
    ensures Up(t, x, n).None?
    decreases n
  {
    if m < n { UpDies(t, x, m, n - 1); }
  }

  lemma {:induction false} UpInTree(t: Tree, x: Id, n: nat)
    requires TreeOk(t) && x in t.node && Up(t, x, n).Some?
    ensures Up(t, x, n).value in t.node
    decreases n
  {
    if n > 0 { UpInTree(t, x, n - 1); }
  }

  /** The items strictly below `x`. */
  ghost function Below(t: Tree, x: Id): set<Id> {
    set y | y in t.node && IsBelow(t, y, x)
  }

  ghost predicate IsBelow(t: Tree, y: Id, x: Id) {
    exists n: nat :: n >= 1 && Up(t, y, n) == Some(x)
  }

  /** An item that is its own ancestor. */
  ghost predicate OnCycle(t: Tree, x: Id) {
    IsBelow(t, x, x)
  }

  ghost predicate Acyclic(t: Tree) {
    forall x :: x in t.node ==> !OnCycle(t, x)
  }

  lemma ChildBelow(t: Tree, x: Id, c: Id)
    requires TreeOk(t) && c in Kids(t, x)
    ensures c in t.node && x in t.node && IsBelow(t, c, x) && c in t.parentOf && t.parentOf[c] == Some(x)
  {
    assert ChildrenOf(t, x);
    assert Up(t, c, 0) == Some(c);
    assert Up(t, c, 1) == Some(x);
  }

  lemma BelowTransitive(t: Tree, x: Id, y: Id, z: Id)
    requires IsBelow(t, x, y) && IsBelow(t, y, z)
    ensures IsBelow(t, x, z)
  {
    var m: nat :| m >= 1 && Up(t, x, m) == Some(y);
    var n: nat :| n >= 1 && Up(t, y, n) == Some(z);
    UpJoin(t, x, m, n);
    assert m + n >= 1;
  }

  /** A cycle is never entered from above: below an item off cycles there is none. */
  lemma ChildOffCycle(t: Tree, x: Id, c: Id)
    requires TreeOk(t) && c in Kids(t, x) && !OnCycle(t, x)
    ensures !OnCycle(t, c)
  {
    ChildBelow(t, x, c);
    hide TreeOk, Kids;
    assert Up(t, c, 0) == Some(c) && Up(t, c, 1) == Some(x);
    if OnCycle(t, c) {
      var n: nat :| n >= 1 && Up(t, c, n) == Some(c);
      UpJoin(t, c, n, 1);
      UpJoin(t, c, 1, n);
    }
  }

  /** What lies below an item: its children and what lies below them. */
  lemma BelowIsKidsAndBelow(t: Tree, x: Id, y: Id)
    requires TreeOk(t) && y in t.node
    ensures IsBelow(t, y, x) <==> exists c :: c in Kids(t, x) && (y == c || IsBelow(t, y, c))
  {
    if IsBelow(t, y, x) {
      var n: nat :| n >= 1 && Up(t, y, n) == Some(x);
      var c := Up(t, y, n - 1).value;
      UpInTree(t, y, n - 1);
      assert ChildrenOf(t, x);
      assert c in Kids(t, x);
      if n - 1 == 0 { assert y == c; } else { assert IsBelow(t, y, c); }
    }
    if c :| c in Kids(t, x) && (y == c || IsBelow(t, y, c)) {
      ChildBelow(t, x, c);
      if y != c { BelowTransitive(t, y, c, x); }
    }
  }

  /** Fewer items lie below a child than below its parent. */
  lemma ChildHasLessBelow(t: Tree, x: Id, c: Id)
    requires TreeOk(t) && !OnCycle(t, x) && c in Kids(t, x)
    ensures c in t.node && !OnCycle(t, c) && |Below(t, c)| < |Below(t, x)|
  {
    ChildBelow(t, x, c);
    ChildOffCycle(t, x, c);
    forall y | y in Below(t, c) ensures y in Below(t, x) - {c} {
      BelowTransitive(t, y, c, x);
    }
    assert c in Below(t, x);
    Smaller(Below(t, c), Below(t, x) - {c});
  }

  lemma {:induction false} Smaller(s: set<Id>, u: set<Id>)
    requires s <= u
    ensures |s| <= |u|
    decreases s
  {
    if s != {} {
      var x :| x in s;
      Smaller(s - {x}, u - {x});
    }
  }

  /** Two children of one parent off cycles share nothing. */
  lemma SiblingsApart(t: Tree, x: Id, c: Id, d: Id, y: Id)
    requires TreeOk(t) && !OnCycle(t, x) && c in Kids(t, x) && d in Kids(t, x) && y in t.node
    requires y == c || IsBelow(t, y, c)
    requires y == d || IsBelow(t, y, d)
    ensures c == d
  {
    hide *;
    ChildBelow(t, x, c);
    ChildBelow(t, x, d);
    var m := HeightOf(t, y, c, x);
    var n := HeightOf(t, y, d, x);
    if m <= n { MeetsOnce(t, x, y, m + 1, n + 1); } else { MeetsOnce(t, x, y, n + 1, m + 1); }
  }

  lemma HeightOf(t: Tree, y: Id, c: Id, x: Id) returns (m: nat)
    requires y == c || IsBelow(t, y, c)
    requires c in t.parentOf && t.parentOf[c] == Some(x)
    ensures Up(t, y, m) == Some(c) && Up(t, y, m + 1) == Some(x)
  {
    m := 0;
    if y != c { m :| m >= 1 && Up(t, y, m) == Some(c); }
  }

  /** An ancestor is met at one height only. */
  lemma MeetsOnce(t: Tree, x: Id, y: Id, m: nat, n: nat)
    requires !OnCycle(t, x) && m <= n
    requires Up(t, y, m) == Some(x) && Up(t, y, n) == Some(x)
    ensures m == n
  {
    UpJoin(t, y, m, n - m);
  }
}
