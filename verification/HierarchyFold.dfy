/**
 * The memoised folds as functions of the stack and the caches they start from, on any parent links. What an
 * item on a cycle gets depends on where the cycle was entered.
 */
module HierarchyFold {
  import opened Options
  import opened Ids
  import opened Hierarchy
  import opened PlainRollup

  datatype Rolling = Rolling(value: real, cache: map<Id, real>)

  datatype Summing = Summing(weighted: real, total: real, cache: map<Id, real>)

  /** An item's rolled value and the cache afterwards; an item on the stack counts as zero and is not cached. */
  ghost function FoldItem(t: Tree, id: Id, stack: set<Id>, cache: map<Id, real>): Rolling
    requires TreeOk(t) && id in t.node
    decreases t.node.Keys - stack, 0, 0
  {
    if id in cache then Rolling(cache[id], cache)
    else if id in stack then Rolling(0.0, cache)
    else
      KidsInTree(t, id);
      var s := FoldKids(t, Included(t, Kids(t, id)), stack + {id}, cache);
      var value := if s.total > 0.0 then Mean(s.weighted, s.total) else t.node[id].own;
      Rolling(value, s.cache[id := value])
  }

  ghost function FoldKids(t: Tree, kids: seq<Id>, stack: set<Id>, cache: map<Id, real>): Summing
    requires TreeOk(t) && forall c :: c in kids ==> c in t.node
    decreases t.node.Keys - stack, 1, |kids|
  {
    if kids == [] then Summing(0.0, 0.0, cache)
    else
      var front, c := FoldKids(t, kids[..|kids| - 1], stack, cache), kids[|kids| - 1];
      var r := FoldItem(t, c, stack, front.cache);
      Summing(front.weighted + Share(r.value, t.node[c].weight), front.total + t.node[c].weight, r.cache)
  }

  datatype Aggregate = Aggregate(desc: nat, done: nat)

  datatype Tallying = Tallying(counts: Aggregate, counted: map<Id, Aggregate>, cache: map<Id, real>)

  /** An item's counts and both caches afterwards; an item on the stack has nothing below it. */
  ghost function TallyItem(t: Tree, id: Id, stack: set<Id>, counted: map<Id, Aggregate>, cache: map<Id, real>): Tallying
    requires TreeOk(t) && id in t.node
    decreases t.node.Keys - stack, 0, 0
  {
    if id in counted then Tallying(counted[id], counted, cache)
    else if id in stack then Tallying(Aggregate(0, 0), counted, cache)
    else
      KidsInTree(t, id);
      var s := TallyKids(t, Kids(t, id), stack + {id}, counted, cache);
      s.(counted := s.counted[id := s.counts])
  }

  ghost function TallyKids(t: Tree, kids: seq<Id>, stack: set<Id>, counted: map<Id, Aggregate>, cache: map<Id, real>): Tallying
    requires TreeOk(t) && forall c :: c in kids ==> c in t.node
    decreases t.node.Keys - stack, 1, |kids|
  {
    if kids == [] then Tallying(Aggregate(0, 0), counted, cache)
    else
      var front, c := TallyKids(t, kids[..|kids| - 1], stack, counted, cache), kids[|kids| - 1];
      var sub := TallyItem(t, c, stack, front.counted, front.cache);
      var r := FoldItem(t, c, {}, sub.cache);
      Tallying(
        Aggregate(front.counts.desc + 1 + sub.counts.desc,
                  front.counts.done + (if r.value >= 1.0 then 1 else 0) + sub.counts.done),
        sub.counted, r.cache)
  }

  // ---------------------------------------------------------------------------------------------
  // One step of each loop

  lemma KidsStep(t: Tree, kids: seq<Id>, i: nat, stack: set<Id>, cache: map<Id, real>)
    requires TreeOk(t) && (forall c :: c in kids ==> c in t.node) && i < |kids|
    ensures forall c :: c in kids[..i + 1] ==> c in t.node
    ensures var front := FoldKids(t, kids[..i], stack, cache); var r := FoldItem(t, kids[i], stack, front.cache);
      FoldKids(t, kids[..i + 1], stack, cache) ==
        Summing(front.weighted + Share(r.value, t.node[kids[i]].weight), front.total + t.node[kids[i]].weight, r.cache)
  {
    hide TreeOk, FoldItem, Share;
    assert kids[..i + 1][..i] == kids[..i];
  }

  lemma TallyStep(t: Tree, kids: seq<Id>, i: nat, stack: set<Id>, counted: map<Id, Aggregate>, cache: map<Id, real>)
    requires TreeOk(t) && (forall c :: c in kids ==> c in t.node) && i < |kids|
    ensures forall c :: c in kids[..i + 1] ==> c in t.node
    ensures var front := TallyKids(t, kids[..i], stack, counted, cache);
      var sub := TallyItem(t, kids[i], stack, front.counted, front.cache);
      var r := FoldItem(t, kids[i], {}, sub.cache);
      TallyKids(t, kids[..i + 1], stack, counted, cache) ==
        Tallying(
          Aggregate(front.counts.desc + 1 + sub.counts.desc,
                    front.counts.done + (if r.value >= 1.0 then 1 else 0) + sub.counts.done),
          sub.counted, r.cache)
  {
    hide TreeOk, FoldItem, TallyItem;
    assert kids[..i + 1][..i] == kids[..i];
  }

  // ---------------------------------------------------------------------------------------------
  // Where a cycle is entered decides

  /** Two items, each the other's parent; only `b` has weight and progress. */
  ghost function Loop(a: Id, b: Id): Tree {
    Tree([a, b],
         map[a := Resolved(Some(b), 0.0, false, 0.0), b := Resolved(Some(a), 1.0, false, 1.0)],
         map[a := Some(b), b := Some(a)],
         map[a := [b], b := [a]])
  }

  lemma LoopOk(a: Id, b: Id)
    requires a != b
    ensures TreeOk(Loop(a, b)) && Kids(Loop(a, b), a) == [b] && Kids(Loop(a, b), b) == [a]
  {
    var t := Loop(a, b);
    forall x ensures ChildrenOf(t, x) {
    }
  }

  lemma OneKid(t: Tree, c: Id, stack: set<Id>, cache: map<Id, real>)
    requires TreeOk(t) && c in t.node && !t.node[c].excluded
    ensures Included(t, [c]) == [c]
    ensures FoldKids(t, [c], stack, cache) ==
      Summing(Share(FoldItem(t, c, stack, cache).value, t.node[c].weight), t.node[c].weight, FoldItem(t, c, stack, cache).cache)
  {
    hide TreeOk, FoldItem, Share;
    assert [c][..0] == [];
    assert Included(t, []) == [] && FoldKids(t, [], stack, cache) == Summing(0.0, 0.0, cache);
  }

  lemma OnlyKid(t: Tree, id: Id, c: Id, stack: set<Id>, cache: map<Id, real>)
    requires TreeOk(t) && id in t.node && c in t.node && !t.node[c].excluded && Kids(t, id) == [c]
    requires id !in cache && id !in stack
    ensures var r := FoldItem(t, c, stack + {id}, cache); var w := t.node[c].weight;
      var value := if w > 0.0 then Mean(Share(r.value, w), w) else t.node[id].own;
      FoldItem(t, id, stack, cache) == Rolling(value, r.cache[id := value])
  {
    hide TreeOk, FoldKids, Share, Kids, Included, Mean;
    OneKid(t, c, stack + {id}, cache);
  }

  /** Of the two items, `a` gets what `b` shows when it is folded first, and nothing when `b` is. */
  lemma CycleDependsOnEntry(a: Id, b: Id)
    requires a != b
    ensures TreeOk(Loop(a, b))
    ensures FoldItem(Loop(a, b), a, {}, map[]).value == 1.0
    ensures FoldItem(Loop(a, b), a, {}, FoldItem(Loop(a, b), b, {}, map[]).cache).value == 0.0
  {
    var t, none: map<Id, real> := Loop(a, b), map[];
    LoopOk(a, b);
    assert t.node[a].weight == 0.0 && t.node[b].weight == 1.0 && t.node[a].own == 0.0 && t.node[b].own == 1.0;
    assert !t.node[a].excluded && !t.node[b].excluded && a in t.node && b in t.node;
    assert {} + {a} == {a} && {} + {b} == {b};
    OnlyKid(t, a, b, {}, none);
    OnlyKid(t, b, a, {a}, none);
    OnlyKid(t, b, a, {}, none);
    OnlyKid(t, a, b, {b}, none);
    hide Loop, TreeOk, Kids, FoldKids;
    assert FoldItem(t, a, {a} + {b}, none) == Rolling(0.0, none);
    assert FoldItem(t, b, {b} + {a}, none) == Rolling(0.0, none);
    assert Share(1.0, 1.0) == 1.0 && Mean(1.0, 1.0) == 1.0 && Share(0.0, 1.0) == 0.0 && Mean(0.0, 1.0) == 0.0;
  }
}
