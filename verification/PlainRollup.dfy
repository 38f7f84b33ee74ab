/** The roll-up as one plain recursion over the tree, and what it means. */
module PlainRollup {
  import opened Options
  import opened Ids
  import opened Sorting
  import opened Hierarchy

  ghost predicate Forest(t: Tree) {
    TreeOk(t) && Acyclic(t)
  }

  /** An item that is not its own ancestor; then nothing below it is, either. */
  ghost predicate Sound(t: Tree, x: Id) {
    TreeOk(t) && x in t.node && !OnCycle(t, x)
  }

  ghost predicate AllSound(t: Tree, s: seq<Id>) {
    forall c :: c in s ==> c in t.node && Sound(t, c)
  }

  /** The items of `s` that carry weight in a mean: all but the cancelled ones. */
  function Included(t: Tree, s: seq<Id>): (r: seq<Id>)
    requires forall c :: c in s ==> c in t.node
    ensures forall c :: c in r <==> c in s && !t.node[c].excluded
  {
    if s == [] then []
    else
      var front, last := s[..|s| - 1], s[|s| - 1];
      assert s == front + [last];
      Included(t, front) + if t.node[last].excluded then [] else [last]
  }

  function TotalWeight(t: Tree, s: seq<Id>): real
    requires forall c :: c in s ==> c in t.node
  {
    if s == [] then 0.0 else TotalWeight(t, s[..|s| - 1]) + t.node[s[|s| - 1]].weight
  }

  /** The weighted mean of the included children; an item without any weight below it shows its own progress. */
  ghost function Plain(t: Tree, x: Id): (r: real)
    requires Sound(t, x)
    ensures 0.0 <= r <= 1.0
    decreases |Below(t, x)|, 1, 0
  {
    KidsInTree(t, x);
    var kids := Included(t, Kids(t, x));
    var total := TotalWeight(t, kids);
    if total > 0.0 then
      var weighted := WeightedKids(t, x, kids);
      MeanBounds(weighted, total);
      Mean(weighted, total)
    else t.node[x].own
  }

  ghost function WeightedKids(t: Tree, x: Id, kids: seq<Id>): (r: real)
    requires Sound(t, x) && (forall c :: c in kids ==> c in Kids(t, x) && c in t.node)
    ensures 0.0 <= r <= TotalWeight(t, kids)
    decreases |Below(t, x)|, 0, |kids|
  {
    if kids == [] then 0.0
    else
      hide Sound, Kids, Included, TreeOk, Below, Share;
      var c := kids[|kids| - 1];
      ChildFacts(t, x, c);
      var p := Plain(t, c);
      WeightedKids(t, x, kids[..|kids| - 1]) + Share(p, t.node[c].weight)
  }

  lemma ChildFacts(t: Tree, x: Id, c: Id)
    requires Sound(t, x) && c in Kids(t, x)
    ensures c in t.node && Sound(t, c) && |Below(t, c)| < |Below(t, x)| && t.node[c].weight >= 0.0
  {
    ChildHasLessBelow(t, x, c);
  }

  function Mean(weighted: real, total: real): real
    requires total > 0.0
  {
    weighted / total
  }

  lemma MeanBounds(weighted: real, total: real)
    requires 0.0 <= weighted <= total && total > 0.0
    ensures 0.0 <= Mean(weighted, total) <= 1.0
  {
  }

  lemma ShareBounds(p: real, weight: real)
    requires 0.0 <= p <= 1.0 && weight >= 0.0
    ensures 0.0 <= p * weight <= weight
  {
  }

  /** What a child of progress `p` adds to its parent's weighted sum. */
  function Share(p: real, weight: real): (r: real)
    ensures 0.0 <= p <= 1.0 && weight >= 0.0 ==> 0.0 <= r <= weight
  {
    assert 0.0 <= p <= 1.0 && weight >= 0.0 ==> 0.0 <= p * weight <= weight by {
      if 0.0 <= p <= 1.0 && weight >= 0.0 { ShareBounds(p, weight); }
    }
    p * weight
  }

  lemma KidsInTree(t: Tree, x: Id)
    requires TreeOk(t)
    ensures forall c :: c in Kids(t, x) ==> c in t.node
  {
    forall c | c in Kids(t, x) ensures c in t.node { ChildBelow(t, x, c); }
  }

  /** The same sum over any items of the tree. */
  ghost function Weighted(t: Tree, s: seq<Id>): real
    requires AllSound(t, s)
  {
    if s == [] then 0.0 else Weighted(t, s[..|s| - 1]) + Share(Plain(t, s[|s| - 1]), t.node[s[|s| - 1]].weight)
  }

  lemma {:induction false} WeightedKidsIsWeighted(t: Tree, x: Id, kids: seq<Id>)
    requires Sound(t, x) && (forall c :: c in kids ==> c in Kids(t, x) && c in t.node)
    ensures AllSound(t, kids) && WeightedKids(t, x, kids) == Weighted(t, kids)
    decreases |kids|
  {
    hide Sound, Plain, Kids;
    forall c | c in kids ensures Sound(t, c) { ChildFacts(t, x, c); }
    if kids != [] { WeightedKidsIsWeighted(t, x, kids[..|kids| - 1]); }
  }

  /** What the plain value is: own progress where no weight lies below, the weighted mean elsewhere. */
  lemma PlainMeaning(t: Tree, x: Id)
    requires Sound(t, x)
    ensures AllSound(t, Kids(t, x))
    ensures var kids := Included(t, Kids(t, x)); var total := TotalWeight(t, kids);
            Plain(t, x) == if total > 0.0 then Mean(Weighted(t, kids), total) else t.node[x].own
  {
    KidsInTree(t, x);
    hide Sound, Kids, Included;
    forall c | c in Kids(t, x) ensures Sound(t, c) { ChildFacts(t, x, c); }
    WeightedKidsIsWeighted(t, x, Included(t, Kids(t, x)));
  }

  // ---------------------------------------------------------------------------------------------
  // Raising progress

  /** `u` is `t` with some items' own progress raised and nothing else touched. */
  ghost predicate Raised(t: Tree, u: Tree) {
    && t.node.Keys == u.node.Keys
    && t.parentOf == u.parentOf
    && (forall x :: x in t.node ==>
          t.node[x].own <= u.node[x].own && t.node[x].excluded == u.node[x].excluded && t.node[x].weight == u.node[x].weight)
  }

  lemma {:induction false} SameUp(t: Tree, u: Tree, x: Id, n: nat)
    requires t.parentOf == u.parentOf
    ensures Up(t, x, n) == Up(u, x, n)
    decreases n
  {
    if n > 0 { SameUp(t, u, x, n - 1); }
  }

  lemma SameShape(t: Tree, u: Tree)
    requires TreeOk(t) && TreeOk(u) && Raised(t, u)
    ensures forall x :: OnCycle(t, x) <==> OnCycle(u, x)
    ensures forall x :: Kids(t, x) == Kids(u, x) && Below(t, x) == Below(u, x)
  {
    forall x, n: nat ensures Up(t, x, n) == Up(u, x, n) { SameUp(t, u, x, n); }
    forall x ensures Kids(t, x) == Kids(u, x) { SameKids(t, u, x); }
    forall x ensures Below(t, x) == Below(u, x) && (OnCycle(t, x) <==> OnCycle(u, x)) { SameBelow(t, u, x); }
  }

  lemma SameBelow(t: Tree, u: Tree, x: Id)
    requires t.node.Keys == u.node.Keys && forall y, n: nat :: Up(t, y, n) == Up(u, y, n)
    ensures Below(t, x) == Below(u, x) && (OnCycle(t, x) <==> OnCycle(u, x))
  {
    forall y ensures IsBelow(t, y, x) <==> IsBelow(u, y, x) {
      if IsBelow(t, y, x) {
        var n: nat :| n >= 1 && Up(t, y, n) == Some(x);
        assert Up(u, y, n) == Some(x);
      }
      if IsBelow(u, y, x) {
        var n: nat :| n >= 1 && Up(u, y, n) == Some(x);
        assert Up(t, y, n) == Some(x);
      }
    }
  }

  lemma SameKids(t: Tree, u: Tree, x: Id)
    requires TreeOk(t) && TreeOk(u) && t.parentOf == u.parentOf
    ensures Kids(t, x) == Kids(u, x)
  {
    assert ChildrenOf(t, x) && ChildrenOf(u, x);
    hide TreeOk, IdLess, Kids, StrictlySorted;
    IdLessOrders();
    StrictlySortedUnique(IdLess, Kids(t, x), Kids(u, x));
  }

  lemma {:induction false} SameIncluded(t: Tree, u: Tree, s: seq<Id>)
    requires Raised(t, u) && forall c :: c in s ==> c in t.node && c in u.node
    ensures Included(t, s) == Included(u, s)
    ensures TotalWeight(t, s) == TotalWeight(u, s)
    decreases |s|
  {
    if s != [] { SameIncluded(t, u, s[..|s| - 1]); }
  }

  /** No rolled value falls when own progress rises. */
  lemma {:induction false} PlainMonotone(t: Tree, u: Tree, x: Id)
    requires Sound(t, x) && Sound(u, x) && Raised(t, u)
    ensures Plain(t, x) <= Plain(u, x)
    decreases |Below(t, x)|
  {
    assert TreeOk(t) && TreeOk(u);
    hide Sound, TreeOk, Kids, Plain, Below, Raised;
    SameShape(t, u);
    forall c | c in Kids(t, x) ensures c in t.node && Sound(t, c) && Sound(u, c) && Plain(t, c) <= Plain(u, c) {
      ChildFacts(t, x, c);
      ChildFacts(u, x, c);
      PlainMonotone(t, u, c);
    }
    PlainStep(t, u, x);
  }

  lemma PlainStep(t: Tree, u: Tree, x: Id)
    requires Sound(t, x) && Sound(u, x) && Raised(t, u) && Kids(t, x) == Kids(u, x)
    requires forall c :: c in Kids(t, x) ==> c in t.node && Sound(t, c) && Sound(u, c) && Plain(t, c) <= Plain(u, c)
    ensures Plain(t, x) <= Plain(u, x)
  {
    assert x in t.node;
    hide *;
    PlainMeaning(t, x);
    PlainMeaning(u, x);
    SameIncluded(t, u, Kids(t, x));
    var included := Included(t, Kids(t, x));
    SameIncluded(t, u, included);
    OwnRises(t, u, x);
    WeightedMonotone(t, u, included);
    if TotalWeight(t, included) > 0.0 {
      DivideMonotone(Weighted(t, included), Weighted(u, included), TotalWeight(t, included));
    }
  }

  lemma OwnRises(t: Tree, u: Tree, x: Id)
    requires Raised(t, u) && x in t.node
    ensures x in u.node && t.node[x].own <= u.node[x].own
  {
  }

  lemma {:induction false} WeightedMonotone(t: Tree, u: Tree, s: seq<Id>)
    requires Raised(t, u) && AllSound(t, s) && AllSound(u, s)
    requires forall c :: c in s ==> Plain(t, c) <= Plain(u, c)
    ensures Weighted(t, s) <= Weighted(u, s)
    decreases |s|
  {
    hide Plain;
    if s != [] {
      var c := s[|s| - 1];
      assert c in s;
      WeightedMonotone(t, u, s[..|s| - 1]);
      TimesMonotone(Plain(t, c), Plain(u, c), t.node[c].weight);
    }
  }

  lemma TimesMonotone(p: real, q: real, w: real)
    requires p <= q && w >= 0.0
    ensures Share(p, w) <= Share(q, w)
  {
    assert (q - p) * w >= 0.0;
  }

  lemma DivideMonotone(a: real, b: real, total: real)
    requires a <= b && total > 0.0
    ensures Mean(a, total) <= Mean(b, total)
  {
  }

  // ---------------------------------------------------------------------------------------------
  // Counting

  /** The items of `s` and everything below them. */
  ghost function Covered(t: Tree, s: seq<Id>): set<Id> {
    set y | y in t.node && exists c :: c in s && AtOrBelow(t, y, c)
  }

  ghost predicate AtOrBelow(t: Tree, y: Id, c: Id) {
    y == c || IsBelow(t, y, c)
  }

  /** No item lies at or below two of them. */
  ghost predicate Apart(t: Tree, s: seq<Id>) {
    && Distinct(s)
    && forall c, d, y :: c in s && d in s && y in t.node && AtOrBelow(t, y, c) && AtOrBelow(t, y, d) ==> c == d
  }

  /** Covering one more item adds it and what lies below it, all of it new. */
  lemma CoverOneMore(t: Tree, s: seq<Id>, c: Id)
    requires c in t.node && Apart(t, s + [c]) && !IsBelow(t, c, c)
    ensures Covered(t, s + [c]) == Covered(t, s) + {c} + Below(t, c)
    ensures Covered(t, s) !! {c} + Below(t, c) && c !in Below(t, c)
  {
    LastIsNew(s, c);
    var all := s + [c];
    assert c in all && forall d :: d in all <==> d in s || d == c;
    hide Distinct, AtOrBelow;
    assert forall y :: y in t.node && AtOrBelow(t, y, c) ==> y !in Covered(t, s);
    forall y | y in t.node ensures AtOrBelow(t, y, c) <==> y == c || y in Below(t, c) {
      SplitAtOrBelow(t, y, c);
    }
  }

  lemma SplitAtOrBelow(t: Tree, y: Id, c: Id)
    ensures AtOrBelow(t, y, c) <==> y == c || IsBelow(t, y, c)
  {
  }

  lemma LastIsNew<T(!new)>(s: seq<T>, x: T)
    requires Distinct(s + [x])
    ensures x !in s && Distinct(s)
  {
    var all := s + [x];
    assert forall i :: 0 <= i < |s| ==> all[i] == s[i];
    assert all[|s|] == x;
  }

  /** The sizes of the subtrees rooted at the items of `s`. */
  ghost function SubtreeSizes(t: Tree, s: seq<Id>): nat {
    if s == [] then 0 else SubtreeSizes(t, s[..|s| - 1]) + 1 + |Below(t, s[|s| - 1])|
  }

  lemma {:induction false} SizesCount(t: Tree, s: seq<Id>)
    requires Apart(t, s) && AllSound(t, s)
    ensures SubtreeSizes(t, s) == |Covered(t, s)|
    decreases |s|
  {
    if s == [] {
      assert Covered(t, s) == {};
    } else {
      var front, c := s[..|s| - 1], s[|s| - 1];
      assert s == front + [c];
      assert c in s;
      assert Sound(t, c);
      assert !IsBelow(t, c, c);
      hide Sound, Covered, AtOrBelow, Below, IsBelow;
      SizesCount(t, front);
      CoverOneMore(t, front, c);
    }
  }

  lemma KidsApart(t: Tree, x: Id)
    requires Sound(t, x)
    ensures Apart(t, Kids(t, x)) && Covered(t, Kids(t, x)) == Below(t, x)
  {
    assert ChildrenOf(t, x);
    IdLessOrders();
    StrictlySortedDistinct(IdLess, Kids(t, x));
    hide IdLess, StrictlySorted, Distinct, Kids;
    forall c, d, y | c in Kids(t, x) && d in Kids(t, x) && y in t.node && AtOrBelow(t, y, c) && AtOrBelow(t, y, d) ensures c == d {
      SiblingsApart(t, x, c, d, y);
    }
    forall y | y in t.node ensures y in Covered(t, Kids(t, x)) <==> y in Below(t, x) {
      BelowIsKidsAndBelow(t, x, y);
    }
  }

  // ---------------------------------------------------------------------------------------------
  // Roots

  ghost predicate IsRoot(t: Tree, x: Id) {
    x in t.parentOf && t.parentOf[x].None?
  }

  /** Climbing ends at a root. */
  lemma {:induction false} HasRoot(t: Tree, y: Id) returns (r: Id)
    requires Forest(t) && y in t.node
    ensures r in t.node && IsRoot(t, r) && AtOrBelow(t, y, r)
    decreases |t.node.Keys| - |Below(t, y)|
  {
    if IsRoot(t, y) { r := y; return; }
    var x := t.parentOf[y].value;
    assert ChildrenOf(t, x);
    ChildHasLessBelow(t, x, y);
    ChildBelow(t, x, y);
    BelowFits(t, x);
    BelowFits(t, y);
    r := HasRoot(t, x);
    if r != x { BelowTransitive(t, y, x, r); }
  }

  lemma BelowFits(t: Tree, x: Id)
    ensures |Below(t, x)| <= |t.node.Keys|
  {
    Smaller(Below(t, x), t.node.Keys);
  }

  lemma OneRoot(t: Tree, y: Id, r: Id, s: Id)
    requires IsRoot(t, r) && IsRoot(t, s) && AtOrBelow(t, y, r) && AtOrBelow(t, y, s)
    ensures r == s
  {
    assert Up(t, y, 0) == Some(y);
    var m: nat :| Up(t, y, m) == Some(r);
    var n: nat :| Up(t, y, n) == Some(s);
    assert Up(t, y, m + 1) == None && Up(t, y, n + 1) == None;
    if m < n { UpDies(t, y, m + 1, n); }
    if n < m { UpDies(t, y, n + 1, m); }
  }

  lemma RootsApart(t: Tree, roots: seq<Id>)
    requires Distinct(roots) && forall x :: x in roots <==> IsRoot(t, x)
    ensures Apart(t, roots)
  {
    hide IsRoot, AtOrBelow, Distinct;
    forall c, d, y | c in roots && d in roots && y in t.node && AtOrBelow(t, y, c) && AtOrBelow(t, y, d) ensures c == d {
      OneRoot(t, y, c, d);
    }
  }

  lemma RootsCover(t: Tree, roots: seq<Id>)
    requires Forest(t) && forall x :: x in roots <==> IsRoot(t, x)
    ensures Covered(t, roots) == t.node.Keys
  {
    hide IsRoot, AtOrBelow, Forest;
    forall y | y in t.node ensures y in Covered(t, roots) {
      var r := HasRoot(t, y);
      assert r in roots;
    }
  }

  /** Climbing from an item on a cycle never ends. */
  lemma {:induction false} CycleNeverEnds(t: Tree, x: Id, n: nat, m: nat)
    requires n >= 1 && Up(t, x, n) == Some(x)
    ensures Up(t, x, m).Some?
    decreases m
  {
    if m < n {
      if Up(t, x, m).None? { UpDies(t, x, m, n); }
    } else {
      UpJoin(t, x, n, m - n);
      CycleNeverEnds(t, x, n, m - n);
    }
  }

  lemma OnCycleIsUncovered(t: Tree, x: Id, roots: seq<Id>)
    requires OnCycle(t, x) && forall r :: r in roots ==> IsRoot(t, r)
    ensures x !in Covered(t, roots)
  {
    var n: nat :| n >= 1 && Up(t, x, n) == Some(x);
    forall r | r in roots ensures !AtOrBelow(t, x, r) {
      assert Up(t, x, 0) == Some(x);
      if AtOrBelow(t, x, r) {
        var m: nat :| Up(t, x, m) == Some(r);
        CycleNeverEnds(t, x, n, m + 1);
      }
    }
  }

  /** The subtrees of the roots share nothing, and cover every item exactly if no links run in circles. */
  lemma RootsCoverExactly(t: Tree, roots: seq<Id>)
    requires TreeOk(t) && Distinct(roots)
    requires forall x :: x in roots <==> IsRoot(t, x)
    ensures Apart(t, roots)
    ensures Covered(t, roots) == t.node.Keys <==> Acyclic(t)
    ensures SubtreeSizes(t, roots) == |t.ids| <==> Acyclic(t)
    ensures SubtreeSizes(t, roots) <= |t.ids|
  {
    hide TreeOk, IsRoot, AtOrBelow, Distinct, Apart, OnCycle, SubtreeSizes, AllSound, Covered;
    RootsApart(t, roots);
    RootsAreSound(t, roots);
    IdsCount(t);
    SizesCount(t, roots);
    CoveredFits(t, roots);
    if Acyclic(t) {
      RootsCover(t, roots);
    } else {
      var x :| x in t.node && OnCycle(t, x);
      OnCycleIsUncovered(t, x, roots);
    }
  }

  lemma CoveredFits(t: Tree, s: seq<Id>)
    ensures Covered(t, s) <= t.node.Keys && |Covered(t, s)| <= |t.node.Keys|
    ensures |Covered(t, s)| == |t.node.Keys| ==> Covered(t, s) == t.node.Keys
  {
    hide AtOrBelow;
    var rest := t.node.Keys - Covered(t, s);
    assert t.node.Keys == Covered(t, s) + rest;
    Smaller(Covered(t, s), t.node.Keys);
  }

  lemma RootsAreSound(t: Tree, roots: seq<Id>)
    requires TreeOk(t) && forall x :: x in roots ==> IsRoot(t, x)
    ensures AllSound(t, roots)
  {
    forall x | x in roots ensures x in t.node && !OnCycle(t, x) { RootOffCycle(t, x); }
  }

  lemma RootOffCycle(t: Tree, x: Id)
    requires TreeOk(t) && IsRoot(t, x)
    ensures x in t.node && !OnCycle(t, x)
  {
    assert Up(t, x, 0) == Some(x) && Up(t, x, 1).None?;
    forall n: nat | n >= 1 ensures Up(t, x, n).None? { UpDies(t, x, 1, n); }
  }

  lemma IdsCount(t: Tree)
    requires TreeOk(t)
    ensures |t.node.Keys| == |t.ids|
  {
    DistinctCardinality(t.ids);
    hide Acyclic, Kids, ChildrenOf, Distinct;
    assert t.node.Keys == set x | x in t.ids;
  }
}
