/** The memoised, cycle-breaking roll-up: the fold its caches determine, and off cycles the plain recursion. */
module HierarchyRollup {
  import opened Options
  import opened Ids
  import opened Hierarchy
  import opened PlainRollup
  import opened HierarchyFold

  /** The ids on the current fold stack. */
  class Stack {
    var ids: set<Id>

    constructor ()
      ensures ids == {}
    {
      ids := {};
    }
  }

  /** The finished items among `s`. */
  ghost function Finished(t: Tree, s: set<Id>): set<Id> {
    set y | y in s && Sound(t, y) && Plain(t, y) >= 1.0
  }

  /** Everything below an item off cycles has a plain value. */
  lemma BelowIsSound(t: Tree, x: Id, y: Id)
    requires Sound(t, x) && y in Below(t, x)
    ensures Sound(t, y)
  {
    if OnCycle(t, y) {
      var m: nat :| m >= 1 && Up(t, y, m) == Some(x);
      var n: nat :| n >= 1 && Up(t, y, n) == Some(y);
      UpJoin(t, y, m, n);
      UpJoin(t, y, n, m);
    }
  }

  ghost predicate RolledOk(t: Tree, x: Id, v: real) {
    && x in t.node && 0.0 <= v <= 1.0
    && (Sound(t, x) ==> v == Plain(t, x))
  }

  ghost predicate AggregateOk(t: Tree, x: Id, a: Aggregate) {
    && x in t.node && a.done <= a.desc
    && (Sound(t, x) ==> a.desc == |Below(t, x)| && a.done == |Finished(t, Below(t, x))|)
  }

  /** Whatever is on the stack is an ancestor of the item being folded. */
  ghost predicate UnderStack(t: Tree, id: Id, stack: set<Id>) {
    forall a :: a in stack ==> IsBelow(t, id, a)
  }

  lemma OnStackIsCycle(t: Tree, id: Id, stack: set<Id>)
    requires UnderStack(t, id, stack) && id in stack && id in t.node
    ensures RolledOk(t, id, 0.0) && AggregateOk(t, id, Aggregate(0, 0))
  {
    assert OnCycle(t, id);
  }

  lemma UnderOneMore(t: Tree, c: Id, id: Id, stack: set<Id>)
    requires TreeOk(t) && UnderStack(t, id, stack) && c in Kids(t, id)
    ensures UnderStack(t, c, stack + {id}) && c in t.node
  {
    ChildBelow(t, id, c);
    hide TreeOk, Kids, IsBelow;
    forall a | a in stack + {id} ensures IsBelow(t, c, a) {
      if a != id { BelowTransitive(t, c, id, a); }
    }
  }

  /** The running sums of the fold over the children `s`. */
  ghost predicate SumOk(t: Tree, s: seq<Id>, weighted: real, total: real) {
    && (forall c :: c in s ==> c in t.node)
    && 0.0 <= weighted <= total == TotalWeight(t, s)
    && (AllSound(t, s) ==> weighted == Weighted(t, s))
  }

  /** The running counts over the children `s` of `x`. */
  ghost predicate TallyOk(t: Tree, x: Id, s: seq<Id>, desc: nat, done: nat) {
    && done <= desc
    && (Sound(t, x) ==> desc == |Covered(t, s)| && done == |Finished(t, Covered(t, s))|)
  }

  lemma NothingSummed(t: Tree)
    ensures SumOk(t, [], 0.0, 0.0)
  {
  }

  lemma NothingTallied(t: Tree, x: Id)
    ensures TallyOk(t, x, [], 0, 0)
  {
    assert Covered(t, []) == {};
    assert Finished(t, {}) == {};
  }

  lemma SumOneMore(t: Tree, s: seq<Id>, c: Id, weighted: real, total: real, r: real)
    requires TreeOk(t) && SumOk(t, s, weighted, total) && RolledOk(t, c, r)
    ensures SumOk(t, s + [c], weighted + Share(r, t.node[c].weight), total + t.node[c].weight)
  {
    assert t.node[c].weight >= 0.0;
    hide TreeOk, Share, Plain, Sound, AllSound, Weighted, TotalWeight;
    assert forall d :: d in s + [c] ==> d in t.node;
    TotalOneMore(t, s, c);
    LastSound(t, s, c);
    hide IsBelow, Kids, Included;
    if AllSound(t, s + [c]) { WeightedOneMore(t, s, c); }
  }

  lemma TotalOneMore(t: Tree, s: seq<Id>, c: Id)
    requires forall d :: d in s + [c] ==> d in t.node
    ensures (forall d :: d in s ==> d in t.node) && c in t.node
    ensures TotalWeight(t, s + [c]) == TotalWeight(t, s) + t.node[c].weight
  {
    var all := s + [c];
    assert all[..|s|] == s && all[|s|] == c;
    assert forall d :: d in s ==> d in all;
  }

  lemma WeightedOneMore(t: Tree, s: seq<Id>, c: Id)
    requires AllSound(t, s + [c]) && AllSound(t, s) && c in t.node && Sound(t, c)
    ensures Weighted(t, s + [c]) == Weighted(t, s) + Share(Plain(t, c), t.node[c].weight)
  {
    hide AllSound, Sound, Plain, Share;
    assert (s + [c])[..|s|] == s;
  }

  lemma LastSound(t: Tree, s: seq<Id>, c: Id)
    ensures AllSound(t, s + [c]) ==> AllSound(t, s) && c in t.node && Sound(t, c)
  {
    var all := s + [c];
    assert c in all && forall d :: d in s ==> d in all;
  }

  lemma MeanOk(t: Tree, id: Id, kids: seq<Id>, weighted: real, total: real)
    requires TreeOk(t) && id in t.node && (forall c :: c in Kids(t, id) ==> c in t.node)
    requires kids == Included(t, Kids(t, id)) && SumOk(t, kids, weighted, total)
    ensures RolledOk(t, id, if total > 0.0 then Mean(weighted, total) else t.node[id].own)
  {
    if total > 0.0 { MeanBounds(weighted, total); }
    if Sound(t, id) { PlainMeaning(t, id); }
  }

  lemma TallyOneMore(t: Tree, id: Id, s: seq<Id>, c: Id, desc: nat, done: nat, sub: Aggregate, r: real)
    requires TreeOk(t) && id in t.node && s + [c] <= Kids(t, id) && TallyOk(t, id, s, desc, done)
    requires AggregateOk(t, c, sub) && RolledOk(t, c, r)
    ensures TallyOk(t, id, s + [c], desc + 1 + sub.desc, done + (if r >= 1.0 then 1 else 0) + sub.done)
  {
    hide Sound, TreeOk, Kids, Covered, Finished, Below;
    if Sound(t, id) { TallyWhenSound(t, id, s, c); }
  }

  lemma TallyWhenSound(t: Tree, id: Id, s: seq<Id>, c: Id)
    requires Sound(t, id) && s + [c] <= Kids(t, id)
    ensures c in t.node && Sound(t, c)
    ensures |Covered(t, s + [c])| == |Covered(t, s)| + 1 + |Below(t, c)|
    ensures |Finished(t, Covered(t, s + [c]))|
         == |Finished(t, Covered(t, s))| + (if Plain(t, c) >= 1.0 then 1 else 0) + |Finished(t, Below(t, c))|
  {
    assert Kids(t, id)[|s|] == c;
    assert c in Kids(t, id);
    ChildFacts(t, id, c);
    assert !IsBelow(t, c, c);
    hide *;
    KidsApart(t, id);
    PrefixApart(t, s + [c], Kids(t, id));
    CoverOneMore(t, s, c);
    FinishedSplits(t, Covered(t, s), c, Below(t, c));
  }

  lemma PrefixApart(t: Tree, s: seq<Id>, all: seq<Id>)
    requires s <= all && Apart(t, all)
    ensures Apart(t, s)
  {
    assert forall c :: c in s ==> c in all;
  }

  lemma FinishedSplits(t: Tree, a: set<Id>, c: Id, b: set<Id>)
    requires Sound(t, c) && a !! {c} + b && c !in b
    ensures |a + {c} + b| == |a| + 1 + |b|
    ensures |Finished(t, a + {c} + b)| == |Finished(t, a)| + (if Plain(t, c) >= 1.0 then 1 else 0) + |Finished(t, b)|
  {
    assert Finished(t, {c}) == if Plain(t, c) >= 1.0 then {c} else {};
    hide Sound, Plain;
    FinishedUnion(t, a, {c});
    FinishedUnion(t, a + {c}, b);
    hide Finished;
    SizeOfUnion(a, {c});
    SizeOfUnion(a + {c}, b);
    SizeOfUnion(Finished(t, a), Finished(t, {c}));
    SizeOfUnion(Finished(t, a + {c}), Finished(t, b));
  }

  lemma FinishedUnion(t: Tree, a: set<Id>, b: set<Id>)
    requires a !! b
    ensures Finished(t, a + b) == Finished(t, a) + Finished(t, b)
    ensures Finished(t, a) !! Finished(t, b)
  {
    hide Sound, Plain;
  }

  lemma SizeOfUnion(a: set<Id>, b: set<Id>)
    requires a !! b
    ensures |a + b| == |a| + |b|
  {
  }

  lemma AllTallied(t: Tree, id: Id, desc: nat, done: nat)
    requires TreeOk(t) && id in t.node && TallyOk(t, id, Kids(t, id), desc, done)
    ensures AggregateOk(t, id, Aggregate(desc, done))
  {
    if Sound(t, id) { KidsApart(t, id); }
  }

  lemma FoldIs(t: Tree, id: Id, stack: set<Id>, cache: map<Id, real>)
    requires TreeOk(t) && id in t.node
    ensures forall c :: c in Kids(t, id) ==> c in t.node
    ensures FoldKids(t, [], stack + {id}, cache) == Summing(0.0, 0.0, cache)
    ensures FoldItem(t, id, stack, cache) ==
      if id in cache then Rolling(cache[id], cache)
      else if id in stack then Rolling(0.0, cache)
      else
        var s := FoldKids(t, Included(t, Kids(t, id)), stack + {id}, cache);
        var value := if s.total > 0.0 then Mean(s.weighted, s.total) else t.node[id].own;
        Rolling(value, s.cache[id := value])
  {
    KidsInTree(t, id);
  }

  lemma TallyIs(t: Tree, id: Id, stack: set<Id>, counted: map<Id, Aggregate>, cache: map<Id, real>)
    requires TreeOk(t) && id in t.node
    ensures forall c :: c in Kids(t, id) ==> c in t.node
    ensures TallyKids(t, [], stack + {id}, counted, cache) == Tallying(Aggregate(0, 0), counted, cache)
    ensures TallyItem(t, id, stack, counted, cache) ==
      if id in counted then Tallying(counted[id], counted, cache)
      else if id in stack then Tallying(Aggregate(0, 0), counted, cache)
      else
        var s := TallyKids(t, Kids(t, id), stack + {id}, counted, cache);
        s.(counted := s.counted[id := s.counts])
  {
    KidsInTree(t, id);
  }

  class Roller {
    const t: Tree
    var rolledCache: map<Id, real>
    var descCache: map<Id, Aggregate>

    ghost predicate Valid()
      reads this
    {
      && TreeOk(t)
      && (forall x :: x in rolledCache ==> RolledOk(t, x, rolledCache[x]))
      && (forall x :: x in descCache ==> AggregateOk(t, x, descCache[x]))
    }

    constructor (tree: Tree)
      requires TreeOk(tree)
      ensures Valid() && t == tree
    {
      t := tree;
      rolledCache := map[];
      descCache := map[];
    }

    /** `rolled(id, stack)`: the fold from these caches; an item off cycles gets its plain value whatever is cached. */
    method Rolled(id: Id, stack: Stack) returns (v: real)
      requires Valid() && id in t.node && UnderStack(t, id, stack.ids)
      modifies this`rolledCache, stack
      ensures Valid() && stack.ids == old(stack.ids)
      ensures RolledOk(t, id, v)
      ensures FoldItem(t, id, old(stack.ids), old(rolledCache)) == Rolling(v, rolledCache)
      decreases t.node.Keys - stack.ids
    {
      hide TreeOk, RolledOk, AggregateOk, SumOk, UnderStack, Share, Included, Kids, Mean, FoldItem, FoldKids;
      FoldIs(t, id, stack.ids, rolledCache);
      if id in rolledCache { return rolledCache[id]; }
      if id in stack.ids {
        OnStackIsCycle(t, id, stack.ids);
        return 0.0;
      }
      KidsInTree(t, id);
      var kids := Included(t, Kids(t, id));
      NothingSummed(t);
      if kids == [] {
        v := t.node[id].own;
        MeanOk(t, id, kids, 0.0, 0.0);
      } else {
        ghost var before := stack.ids;
        stack.ids := stack.ids + {id};
        var weighted, total := 0.0, 0.0;
        for i := 0 to |kids|
          invariant Valid() && stack.ids == before + {id}
          invariant SumOk(t, kids[..i], weighted, total)
          invariant FoldKids(t, kids[..i], before + {id}, old(rolledCache)) == Summing(weighted, total, rolledCache)
        {
          UnderOneMore(t, kids[i], id, before);
          KidsStep(t, kids, i, before + {id}, old(rolledCache));
          var r := Rolled(kids[i], stack);
          SumOneMore(t, kids[..i], kids[i], weighted, total, r);
          assert kids[..i + 1] == kids[..i] + [kids[i]];
          weighted := weighted + Share(r, t.node[kids[i]].weight);
          total := total + t.node[kids[i]].weight;
        }
        stack.ids := stack.ids - {id};
        v := if total > 0.0 then Mean(weighted, total) else t.node[id].own;
        assert kids[..|kids|] == kids;
        MeanOk(t, id, kids, weighted, total);
      }
      rolledCache := rolledCache[id := v];
    }

    /** `aggregate(id, stack)`: off cycles, how many items lie below and how many of them are finished. */
    method Tally(id: Id, stack: Stack) returns (a: Aggregate)
      requires Valid() && id in t.node && UnderStack(t, id, stack.ids)
      modifies this, stack
      ensures Valid() && stack.ids == old(stack.ids)
      ensures AggregateOk(t, id, a)
      ensures TallyItem(t, id, old(stack.ids), old(descCache), old(rolledCache)) == Tallying(a, descCache, rolledCache)
      decreases t.node.Keys - stack.ids
    {
      hide TreeOk, RolledOk, AggregateOk, TallyOk, UnderStack, Kids, FoldItem, TallyItem, TallyKids;
      TallyIs(t, id, stack.ids, descCache, rolledCache);
      if id in descCache { return descCache[id]; }
      if id in stack.ids {
        OnStackIsCycle(t, id, stack.ids);
        return Aggregate(0, 0);
      }
      ghost var before := stack.ids;
      stack.ids := stack.ids + {id};
      NothingTallied(t, id);
      var kids := Kids(t, id);
      var desc: nat, done: nat := 0, 0;
      for i := 0 to |kids|
        invariant Valid() && stack.ids == before + {id}
        invariant TallyOk(t, id, kids[..i], desc, done)
        invariant TallyKids(t, kids[..i], before + {id}, old(descCache), old(rolledCache))
               == Tallying(Aggregate(desc, done), descCache, rolledCache)
      {
        TallyStep(t, kids, i, before + {id}, old(descCache), old(rolledCache));
        UnderOneMore(t, kids[i], id, before);
        var sub := Tally(kids[i], stack);
        var r := RolledAfresh(kids[i]);
        assert kids[..i + 1] == kids[..i] + [kids[i]];
        TallyOneMore(t, id, kids[..i], kids[i], desc, done, sub, r);
        desc := desc + 1 + sub.desc;
        done := done + (if r >= 1.0 then 1 else 0) + sub.done;
      }
      stack.ids := stack.ids - {id};
      a := Aggregate(desc, done);
      assert kids[..|kids|] == kids;
      AllTallied(t, id, desc, done);
      descCache := descCache[id := a];
    }

    /** A fold started with an empty stack. */
    method RolledAfresh(id: Id) returns (v: real)
      requires Valid() && id in t.node
      modifies this`rolledCache
      ensures Valid() && RolledOk(t, id, v)
      ensures FoldItem(t, id, {}, old(rolledCache)) == Rolling(v, rolledCache)
    {
      var stack := new Stack();
      v := Rolled(id, stack);
    }
  }
}
