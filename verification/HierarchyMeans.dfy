/** That the roll-up is a weighted mean: where a value lies, and how far it moves when one child's does. */
module HierarchyMeans {
  import opened Options
  import opened Ids
  import opened Sorting
  import opened Rounding
  import opened Hierarchy
  import opened PlainRollup
  import opened HierarchyReport
  import opened HierarchyRollup

  /** The item counts in its parent's mean. */
  predicate Counts(t: Tree, c: Id) {
    c in t.node && !t.node[c].excluded && t.node[c].weight > 0.0
  }

  /** Those of `s` that count all show something between the bounds. */
  ghost predicate ShowBetween(t: Tree, s: seq<Id>, lo: real, hi: real) {
    forall c :: c in s && Counts(t, c) ==> Sound(t, c) && lo <= Plain(t, c) <= hi
  }

  function Times(a: real, b: real): real {
    a * b
  }

  lemma TimesIs(a: real, b: real)
    ensures Times(a, b) == a * b
  {
  }

  lemma ShareBetween(lo: real, p: real, hi: real, w: real)
    requires w >= 0.0 && (w > 0.0 ==> lo <= p <= hi)
    ensures Times(lo, w) <= Share(p, w) <= Times(hi, w)
  {
    if w > 0.0 {
      TimesMonotone(lo, p, w);
      TimesMonotone(p, hi, w);
    }
    assert Share(p, w) == p * w;
  }

  lemma TimesSum(x: real, total: real, w: real)
    ensures Times(x, total + w) == Times(x, total) + Times(x, w)
    ensures Times(x, 0.0) == 0.0
  {
  }

  lemma {:induction false} SumBetween(t: Tree, s: seq<Id>, lo: real, hi: real)
    requires AllSound(t, s) && ShowBetween(t, s, lo, hi) && forall c :: c in s ==> !t.node[c].excluded
    ensures Times(lo, TotalWeight(t, s)) <= Weighted(t, s) <= Times(hi, TotalWeight(t, s))
    decreases |s|
  {
    hide Times, Share, Plain, TreeOk;
    TimesSum(lo, 0.0, 0.0);
    TimesSum(hi, 0.0, 0.0);
    if s != [] {
      var front, c := s[..|s| - 1], s[|s| - 1];
      assert c in s && Sound(t, c);
      SumBetween(t, front, lo, hi);
      hide Sound;
      OneBetween(t, c, lo, hi);
      TimesSum(lo, TotalWeight(t, front), t.node[c].weight);
      TimesSum(hi, TotalWeight(t, front), t.node[c].weight);
    }
  }

  lemma OneBetween(t: Tree, c: Id, lo: real, hi: real)
    requires Sound(t, c) && !t.node[c].excluded && (Counts(t, c) ==> lo <= Plain(t, c) <= hi)
    ensures Times(lo, t.node[c].weight) <= Share(Plain(t, c), t.node[c].weight) <= Times(hi, t.node[c].weight)
  {
    assert t.node[c].weight >= 0.0;
    hide Times, Share, Plain, Sound;
    ShareBetween(lo, Plain(t, c), hi, t.node[c].weight);
  }

  lemma MeanBetween(lo: real, sum: real, hi: real, total: real)
    requires total > 0.0 && Times(lo, total) <= sum <= Times(hi, total)
    ensures lo <= Mean(sum, total) <= hi
  {
    var m := Mean(sum, total);
    assert m * total == sum;
    NotBelow(lo, m, total);
    NotBelow(m, hi, total);
  }

  lemma NotBelow(x: real, y: real, total: real)
    requires total > 0.0 && x * total <= y * total
    ensures x <= y
  {
    assert (x - y) * total <= 0.0;
  }

  lemma {:induction false} WeightCounts(t: Tree, s: seq<Id>)
    requires TreeOk(t) && forall c :: c in s ==> c in t.node
    ensures TotalWeight(t, s) >= 0.0
    ensures TotalWeight(t, s) > 0.0 <==> exists c :: c in s && t.node[c].weight > 0.0
    decreases |s|
  {
    hide ChildrenOf;
    if s != [] {
      var front := s[..|s| - 1];
      assert s[|s| - 1] in s && forall c :: c in s <==> c in front || c == s[|s| - 1];
      WeightCounts(t, front);
    }
  }

  /** The children whose values are weighed. */
  ghost function Weighed(t: Tree, x: Id): (r: seq<Id>)
    requires Sound(t, x)
    ensures forall c :: c in r <==> c in Kids(t, x) && c in t.node && !t.node[c].excluded
    ensures AllSound(t, r)
  {
    hide TreeOk, Kids, Included;
    KidsInTree(t, x);
    assert forall c :: c in Kids(t, x) ==> c in t.node && Sound(t, c) by {
      forall c | c in Kids(t, x) ensures c in t.node && Sound(t, c) { ChildFacts(t, x, c); }
    }
    Included(t, Kids(t, x))
  }

  lemma WeighedIfCounts(t: Tree, x: Id)
    requires Sound(t, x)
    ensures TotalWeight(t, Weighed(t, x)) > 0.0 <==> exists c :: c in Kids(t, x) && Counts(t, c)
  {
    assert TreeOk(t);
    hide TreeOk, Sound, Kids, Plain, TotalWeight;
    WeightCounts(t, Weighed(t, x));
    forall c | c in Kids(t, x) && Counts(t, c) ensures c in Weighed(t, x) {
    }
  }

  lemma PlainIsMean(t: Tree, x: Id)
    requires Sound(t, x)
    ensures Plain(t, x) == if TotalWeight(t, Weighed(t, x)) > 0.0
      then Mean(Weighted(t, Weighed(t, x)), TotalWeight(t, Weighed(t, x))) else t.node[x].own
  {
    hide TreeOk, Sound, Kids, Plain, Mean, Weighted, TotalWeight;
    PlainMeaning(t, x);
  }

  /** An item none of whose children counts shows its own progress. */
  lemma NothingBelowShowsOwn(t: Tree, x: Id)
    requires Sound(t, x) && forall c :: c in Kids(t, x) ==> !Counts(t, c)
    ensures Plain(t, x) == t.node[x].own
  {
    hide Plain, Sound, Kids, Mean;
    PlainIsMean(t, x);
    WeighedIfCounts(t, x);
  }

  /** Any other shows something between the least and the greatest value of the children that count. */
  lemma BetweenChildren(t: Tree, x: Id, lo: real, hi: real)
    requires Sound(t, x) && (exists c :: c in Kids(t, x) && Counts(t, c)) && ShowBetween(t, Kids(t, x), lo, hi)
    ensures lo <= Plain(t, x) <= hi
  {
    hide Plain, Sound, Kids, Mean, TotalWeight, Weighted, Weighed, Times, AllSound;
    var kids := Weighed(t, x);
    PlainIsMean(t, x);
    WeighedIfCounts(t, x);
    assert ShowBetween(t, kids, lo, hi);
    SumBetween(t, kids, lo, hi);
    MeanBetween(lo, Weighted(t, kids), hi, TotalWeight(t, kids));
  }

  // ---------------------------------------------------------------------------------------------
  // One value moves

  /** `u` has the item as `t` has it, with the same weight, and its value moved by `d`. */
  ghost predicate AlikeBut(t: Tree, u: Tree, e: Id, d: real) {
    && Sound(t, e) && Sound(u, e)
    && t.node[e].excluded == u.node[e].excluded && t.node[e].weight == u.node[e].weight
    && Plain(u, e) == Plain(t, e) + d
  }

  /** ... and so every item of `s`, where only `c` moves. */
  ghost predicate MovesOne(t: Tree, u: Tree, s: seq<Id>, c: Id, d: real) {
    c in s && forall e :: e in s ==> AlikeBut(t, u, e, if e == c then d else 0.0)
  }

  lemma AllAlike(t: Tree, u: Tree, s: seq<Id>, c: Id, d: real)
    requires MovesOne(t, u, s, c, d)
    ensures AllSound(t, s) && AllSound(u, s)
  {
    hide Plain, Sound;
    forall e | e in s ensures e in t.node && e in u.node && Sound(t, e) && Sound(u, e) {
      assert AlikeBut(t, u, e, if e == c then d else 0.0);
      SoundIsItem(t, e);
      SoundIsItem(u, e);
    }
  }

  lemma SoundIsItem(t: Tree, e: Id)
    requires Sound(t, e)
    ensures e in t.node && TreeOk(t)
  {
  }

  lemma LastWeighs(t: Tree, s: seq<Id>)
    requires AllSound(t, s) && s != []
    ensures var front, last := s[..|s| - 1], s[|s| - 1];
      && AllSound(t, front) && last in t.node && Sound(t, last)
      && Weighted(t, s) == Weighted(t, front) + Share(Plain(t, last), t.node[last].weight)
      && TotalWeight(t, s) == TotalWeight(t, front) + t.node[last].weight
  {
    hide Sound, Plain, Share;
    assert s[|s| - 1] in s;
  }

  lemma {:induction false} SameSum(t: Tree, u: Tree, s: seq<Id>)
    requires AllSound(t, s) && AllSound(u, s) && forall e :: e in s ==> AlikeBut(t, u, e, 0.0)
    ensures Weighted(t, s) == Weighted(u, s) && TotalWeight(t, s) == TotalWeight(u, s)
    decreases |s|
  {
    hide Sound, Plain, Share;
    if s != [] {
      LastWeighs(t, s);
      LastWeighs(u, s);
      assert AlikeBut(t, u, s[|s| - 1], 0.0);
      SameSum(t, u, s[..|s| - 1]);
    }
  }

  lemma ShareMoves(p: real, d: real, w: real)
    ensures Share(p + d, w) == Share(p, w) + Times(d, w)
  {
    assert (p + d) * w == p * w + d * w;
  }

  lemma MovesFront(t: Tree, u: Tree, s: seq<Id>, c: Id, d: real)
    requires MovesOne(t, u, s, c, d) && Distinct(s)
    ensures s != [] && AlikeBut(t, u, s[|s| - 1], if s[|s| - 1] == c then d else 0.0)
    ensures s[|s| - 1] == c ==> forall e :: e in s[..|s| - 1] ==> AlikeBut(t, u, e, 0.0)
    ensures s[|s| - 1] != c ==> MovesOne(t, u, s[..|s| - 1], c, d) && Distinct(s[..|s| - 1])
  {
    hide AlikeBut, Distinct;
    var front, last := s[..|s| - 1], s[|s| - 1];
    assert s == front + [last] && last in s && forall e :: e in front ==> e in s;
    LastIsNew(front, last);
  }

  /** The sum over `s`, the value of its last item moved by `d` and that of the front by `moved`. */
  lemma SumMovesLast(t: Tree, u: Tree, s: seq<Id>, moved: real, d: real)
    requires s != [] && AllSound(t, s) && AllSound(u, s) && AlikeBut(t, u, s[|s| - 1], d)
    requires AllSound(t, s[..|s| - 1]) && AllSound(u, s[..|s| - 1])
    requires Weighted(u, s[..|s| - 1]) == Weighted(t, s[..|s| - 1]) + moved
    requires TotalWeight(t, s[..|s| - 1]) == TotalWeight(u, s[..|s| - 1])
    ensures TotalWeight(t, s) == TotalWeight(u, s) && s[|s| - 1] in t.node
    ensures Weighted(u, s) == Weighted(t, s) + moved + Times(d, t.node[s[|s| - 1]].weight)
  {
    hide *;
    LastWeighs(t, s);
    LastWeighs(u, s);
    ShareMovesAt(t, u, s[|s| - 1], d);
  }

  lemma {:induction false} SumMoves(t: Tree, u: Tree, s: seq<Id>, c: Id, d: real)
    requires MovesOne(t, u, s, c, d) && Distinct(s) && AllSound(t, s) && AllSound(u, s)
    ensures c in t.node && (forall e :: e in s ==> e in t.node && e in u.node)
    ensures Weighted(u, s) == Weighted(t, s) + Times(d, t.node[c].weight) && TotalWeight(t, s) == TotalWeight(u, s)
    decreases |s|
  {
    SoundItems(t, s);
    SoundItems(u, s);
    hide *;
    var front, last := s[..|s| - 1], s[|s| - 1];
    MovesFront(t, u, s, c, d);
    LastWeighs(t, s);
    LastWeighs(u, s);
    if last == c {
      SameSum(t, u, front);
      SumMovesLast(t, u, s, 0.0, d);
    } else {
      SumMoves(t, u, front, c, d);
      SumMovesLast(t, u, s, Times(d, t.node[c].weight), 0.0);
      NoTimes(t.node[last].weight);
    }
  }

  lemma NoTimes(w: real)
    ensures Times(0.0, w) == 0.0
  {
  }

  lemma SoundItems(t: Tree, s: seq<Id>)
    requires AllSound(t, s)
    ensures forall e :: e in s ==> e in t.node
  {
  }

  lemma ShareMovesAt(t: Tree, u: Tree, e: Id, d: real)
    requires AlikeBut(t, u, e, d)
    ensures e in t.node && e in u.node && t.node[e].weight == u.node[e].weight && Sound(t, e) && Sound(u, e)
    ensures Share(Plain(u, e), u.node[e].weight) == Share(Plain(t, e), t.node[e].weight) + Times(d, t.node[e].weight)
    ensures d == 0.0 ==> Share(Plain(u, e), u.node[e].weight) == Share(Plain(t, e), t.node[e].weight)
  {
    SoundIsItem(t, e);
    SoundIsItem(u, e);
    hide Sound, Plain, Share, Times;
    ShareMoves(Plain(t, e), d, t.node[e].weight);
  }

  lemma {:induction false} IncludedAlike(t: Tree, u: Tree, s: seq<Id>)
    requires forall e :: e in s ==> e in t.node && e in u.node && t.node[e].excluded == u.node[e].excluded
    ensures Included(t, s) == Included(u, s)
    ensures Distinct(s) ==> Distinct(Included(t, s))
    decreases |s|
  {
    hide Distinct;
    if s != [] {
      var front, last := s[..|s| - 1], s[|s| - 1];
      assert s == front + [last];
      IncludedAlike(t, u, front);
      if Distinct(s) {
        LastIsNew(front, last);
        OneMoreDistinct(Included(t, front), last);
      }
    } else {
      NoneDistinct();
    }
  }

  lemma NoneDistinct()
    ensures Distinct<Id>([])
  {
  }

  lemma OneMoreDistinct(s: seq<Id>, x: Id)
    requires Distinct(s) && x !in s
    ensures Distinct(s + [x]) && s + [] == s
  {
  }

  lemma MeansMove(sum: real, moved: real, total: real)
    requires total > 0.0
    ensures Times(Mean(sum + moved, total) - Mean(sum, total), total) == moved
  {
    var x, y := Mean(sum, total), Mean(sum + moved, total);
    assert x * total == sum && y * total == sum + moved;
    assert (y - x) * total == y * total - x * total;
  }

  lemma KidsDistinct(t: Tree, x: Id)
    requires TreeOk(t)
    ensures Distinct(Kids(t, x))
  {
    assert ChildrenOf(t, x);
    IdLessOrders();
    StrictlySortedDistinct(IdLess, Kids(t, x));
  }

  /** When one child that counts moves by `d`, its parent moves by its share of the counted weight. */
  lemma ParentMoves(t: Tree, u: Tree, x: Id, c: Id, d: real)
    requires Sound(t, x) && Sound(u, x) && Kids(t, x) == Kids(u, x)
    requires MovesOne(t, u, Kids(t, x), c, d) && Counts(t, c)
    ensures (Plain(u, x) - Plain(t, x)) * TotalWeight(t, Weighed(t, x)) == d * t.node[c].weight
    ensures TotalWeight(t, Weighed(t, x)) >= t.node[c].weight
  {
    hide *;
    ParentMovesBy(t, u, x, c, d);
    assert c in t.node by { Counted(t, c); }
    TimesIs(Plain(u, x) - Plain(t, x), TotalWeight(t, Weighed(t, x)));
    TimesIs(d, t.node[c].weight);
  }

  lemma Counted(t: Tree, c: Id)
    requires Counts(t, c)
    ensures c in t.node && t.node[c].weight > 0.0
  {
  }

  lemma ParentMovesBy(t: Tree, u: Tree, x: Id, c: Id, d: real)
    requires Sound(t, x) && Sound(u, x) && Kids(t, x) == Kids(u, x)
    requires MovesOne(t, u, Kids(t, x), c, d) && Counts(t, c)
    ensures Times(Plain(u, x) - Plain(t, x), TotalWeight(t, Weighed(t, x))) == Times(d, t.node[c].weight)
    ensures TotalWeight(t, Weighed(t, x)) >= t.node[c].weight
  {
    hide *;
    var kids := Weighed(t, x);
    KidsAlike(t, u, x, c, d);
    AllAlike(t, u, kids, c, d);
    PlainIsMean(t, x);
    PlainIsMean(u, x);
    SumMoves(t, u, kids, c, d);
    Counted(t, c);
    MeansMove(Weighted(t, kids), Times(d, t.node[c].weight), TotalWeight(t, kids));
  }

  lemma KidsAlike(t: Tree, u: Tree, x: Id, c: Id, d: real)
    requires Sound(t, x) && Sound(u, x) && Kids(t, x) == Kids(u, x)
    requires MovesOne(t, u, Kids(t, x), c, d) && Counts(t, c)
    ensures Weighed(t, x) == Weighed(u, x) && Distinct(Weighed(t, x))
    ensures MovesOne(t, u, Weighed(t, x), c, d)
    ensures TotalWeight(t, Weighed(t, x)) >= t.node[c].weight
  {
    AllAlike(t, u, Kids(t, x), c, d);
    SoundIsItem(t, x);
    hide TreeOk, Sound, Kids, Plain, TotalWeight, Distinct;
    KidsDistinct(t, x);
    forall e | e in Kids(t, x) ensures t.node[e].excluded == u.node[e].excluded {
      assert AlikeBut(t, u, e, if e == c then d else 0.0);
    }
    IncludedAlike(t, u, Kids(t, x));
    hide AlikeBut, AllSound, Included;
    OneOfThem(t, Weighed(t, x), c);
  }

  lemma {:induction false} OneOfThem(t: Tree, s: seq<Id>, c: Id)
    requires TreeOk(t) && (forall e :: e in s ==> e in t.node) && c in s
    ensures TotalWeight(t, s) >= t.node[c].weight
    decreases |s|
  {
    hide ChildrenOf;
    var front := s[..|s| - 1];
    assert s[|s| - 1] in s;
    WeightCounts(t, front);
    if c in front { OneOfThem(t, front, c); }
  }

  // ---------------------------------------------------------------------------------------------
  // The overall progress

  /** The overall progress is absent exactly if no root counts, and otherwise shows a value between those of the roots. */
  lemma OverallBetween(t: Tree, r: Rollup, lo: real, hi: real)
    requires TreeOk(t) && Reports(t, r) && ShowBetween(t, r.roots, lo, hi)
    ensures r.overallProgress.Some? <==> exists c :: c in r.roots && Counts(t, c)
    ensures r.overallProgress.Some? ==> exists m :: lo <= m <= hi && r.overallProgress.value == Round2(m)
  {
    hide TreeOk, Round2, NodesOk, DeepestIs, IsRoot, Sound, Plain, Mean, Times, Weighted, TotalWeight;
    var roots := Included(t, r.roots);
    WeightCounts(t, roots);
    if r.overallProgress.Some? {
      SumBetween(t, roots, lo, hi);
      MeanBetween(lo, Weighted(t, roots), hi, TotalWeight(t, roots));
    }
  }

  /** When one root that counts moves by `d`, the overall progress moves, before rounding, by its share of the counted weight. */
  lemma OverallMoves(t: Tree, u: Tree, r: Rollup, q: Rollup, c: Id, d: real)
    requires TreeOk(t) && TreeOk(u) && Reports(t, r) && Reports(u, q) && r.roots == q.roots
    requires MovesOne(t, u, r.roots, c, d) && Counts(t, c)
    ensures exists m, n ::
      && r.overallProgress == Some(Round2(m)) && q.overallProgress == Some(Round2(n))
      && (n - m) * TotalWeight(t, Included(t, r.roots)) == d * t.node[c].weight
  {
    hide *;
    var m, n := OverallMovesBy(t, u, r, q, c, d);
    assert forall e :: e in r.roots ==> e in t.node by { RootsInTree(t, r); }
    assert c in t.node by { Counted(t, c); }
    TimesIs(n - m, TotalWeight(t, Included(t, r.roots)));
    TimesIs(d, t.node[c].weight);
  }

  lemma RootsInTree(t: Tree, r: Rollup)
    requires Reports(t, r)
    ensures forall e :: e in r.roots ==> e in t.node
  {
    hide NodesOk, OverallOk, IsRoot;
  }

  lemma OverallIsMean(t: Tree, r: Rollup)
    requires TreeOk(t) && Reports(t, r)
    ensures var roots := Included(t, r.roots);
      && AllSound(t, roots) && (forall e :: e in roots ==> !t.node[e].excluded)
      && (TotalWeight(t, roots) > 0.0 ==> r.overallProgress == Some(Round2(Mean(Weighted(t, roots), TotalWeight(t, roots)))))
  {
    hide TreeOk, Round2, NodesOk, DeepestIs, IsRoot, Sound, Plain, Mean, Weighted, TotalWeight;
  }

  lemma OverallMovesBy(t: Tree, u: Tree, r: Rollup, q: Rollup, c: Id, d: real) returns (m: real, n: real)
    requires TreeOk(t) && TreeOk(u) && Reports(t, r) && Reports(u, q) && r.roots == q.roots
    requires MovesOne(t, u, r.roots, c, d) && Counts(t, c)
    ensures r.overallProgress == Some(Round2(m)) && q.overallProgress == Some(Round2(n))
    ensures Times(n - m, TotalWeight(t, Included(t, r.roots))) == Times(d, t.node[c].weight)
  {
    hide *;
    OverallIsMean(t, r);
    OverallIsMean(u, q);
    RootsAlike(t, u, r, q, c, d);
    assert forall e :: e in r.roots ==> e in t.node by { RootsInTree(t, r); }
    var roots := Included(t, r.roots);
    AllAlike(t, u, roots, c, d);
    assert forall e :: e in roots ==> e in t.node;
    OneOfThem(t, roots, c);
    Counted(t, c);
    SumMoves(t, u, roots, c, d);
    MeansMove(Weighted(t, roots), Times(d, t.node[c].weight), TotalWeight(t, roots));
    m, n := Mean(Weighted(t, roots), TotalWeight(t, roots)), Mean(Weighted(u, roots), TotalWeight(u, roots));
  }

  lemma RootsAlike(t: Tree, u: Tree, r: Rollup, q: Rollup, c: Id, d: real)
    requires Reports(t, r) && Reports(u, q) && r.roots == q.roots
    requires MovesOne(t, u, r.roots, c, d) && Counts(t, c)
    ensures var roots := Included(t, r.roots);
      && Included(u, q.roots) == roots && Distinct(roots) && MovesOne(t, u, roots, c, d)
      && AllSound(t, roots) && AllSound(u, roots) && c in roots
  {
    hide TreeOk, Round2, NodesOk, DeepestIs, IsRoot, Sound, Plain, Mean, Weighted, TotalWeight, Distinct, IdLess;
    AllAlike(t, u, r.roots, c, d);
    IdLessOrders();
    StrictlySortedDistinct(IdLess, r.roots);
    hide StrictlySorted;
    forall e | e in r.roots ensures t.node[e].excluded == u.node[e].excluded {
      assert AlikeBut(t, u, e, if e == c then d else 0.0);
    }
    IncludedAlike(t, u, r.roots);
  }

  // ---------------------------------------------------------------------------------------------
  // What a record means

  /** The first record of an id, seen in the report: a bare status counts 0 or 1, and a record weighs 1 unless it says otherwise. */
  lemma RecordShows(items: seq<Item>, t: Tree, r: Rollup, k: nat, n: Node)
    requires k < |items| && (forall j :: 0 <= j < k ==> items[j].id != items[k].id)
    requires Hierarchy.Describes(t, items) && Reports(t, r) && n in r.nodes && n.id == items[k].id
    ensures items[k].progress == None ==> n.ownProgress == if items[k].status == Done then 1.0 else 0.0
    ensures items[k].progress.Some? && 0.0 <= items[k].progress.value <= 1.0 ==>
      n.ownProgress - 0.005 <= items[k].progress.value < n.ownProgress + 0.005
    ensures items[k].progress.Some? && items[k].progress.value < 0.0 ==> n.ownProgress == 0.0
    ensures items[k].progress.Some? && items[k].progress.value > 1.0 ==> n.ownProgress == 1.0
    ensures items[k].weight == None ==> n.weight == 1.0
    ensures items[k].weight.Some? ==> n.weight == items[k].weight.value || (n.weight == 0.0 && items[k].weight.value < 0.0)
    ensures Counts(t, n.id) <==> items[k].status != Cancelled && n.weight > 0.0
  {
    FirstIs(items, k);
    assert NodeOk(t, n);
    hide Climbed, Kids, TreeOk, Sound, FirstItem;
    RoundWhole(0);
    RoundWhole(100);
  }

  /** Some record has the id. */
  ghost predicate Recorded(items: seq<Item>, x: Id) {
    exists k :: 0 <= k < |items| && items[k].id == x
  }

  lemma {:induction false} FirstIsRecorded(items: seq<Item>, x: Id)
    ensures FirstItem(items, x).Some? <==> Recorded(items, x)
    ensures FirstItem(items, x).Some? ==> FirstItem(items, x).value in items && FirstItem(items, x).value.id == x
    decreases |items|
  {
    if items != [] {
      var front := items[..|items| - 1];
      FirstIsRecorded(front, x);
      assert forall k :: 0 <= k < |front| ==> front[k] == items[k];
    }
  }

  /** The report has a node for each recorded id; the parent is the one recorded, if it is another id on record. */
  lemma ParentShows(items: seq<Item>, t: Tree, r: Rollup, k: nat, n: Node)
    requires k < |items| && (forall j :: 0 <= j < k ==> items[j].id != items[k].id)
    requires Hierarchy.Describes(t, items) && Reports(t, r) && n in r.nodes && n.id == items[k].id
    ensures forall p :: n.parentId == Some(p) <==> items[k].parentId == Some(p) && p != n.id && Recorded(items, p)
    ensures n.parentId == None <==> n.id in r.roots
  {
    FirstIs(items, k);
    assert NodeOk(t, n);
    hide Climbed, Kids, TreeOk, Sound, FirstItem, Recorded;
    forall p ensures p in t.node <==> Recorded(items, p) { FirstIsRecorded(items, p); }
  }

  lemma NodesShow(items: seq<Item>, t: Tree, r: Rollup, x: Id)
    requires Hierarchy.Describes(t, items) && Reports(t, r)
    ensures (exists n :: n in r.nodes && n.id == x) <==> Recorded(items, x)
    ensures r.total == |r.nodes| && r.rootCount == |r.roots|
  {
    hide TreeOk, FirstItem, Recorded, AllOk, RootsOk, OverallOk, DeepestIs;
    FirstIsRecorded(items, x);
    var ids := NodeIds(r.nodes);
    assert x in ids <==> x in t.node;
    if x in ids {
      var i :| 0 <= i < |ids| && ids[i] == x;
      assert r.nodes[i] in r.nodes && r.nodes[i].id == x;
    }
    if n :| n in r.nodes && n.id == x {
      var i :| 0 <= i < |r.nodes| && r.nodes[i] == n;
      assert ids[i] == x;
    }
  }

  /** The items below with a value, before rounding, of one. */
  ghost function CompleteBelow(t: Tree, x: Id): set<Id> {
    set y | y in t.node && IsBelow(t, y, x) && Sound(t, y) && Plain(t, y) == 1.0
  }

  lemma CompleteAreFinished(t: Tree, x: Id)
    ensures Finished(t, Below(t, x)) == CompleteBelow(t, x)
  {
    hide IsBelow, Sound, Plain;
  }

  /** Off cycles, the items counted as done are those complete before rounding: one shown as 1.0 need not be. */
  lemma DoneShows(t: Tree, r: Rollup, n: Node)
    requires Reports(t, r) && n in r.nodes && Sound(t, n.id)
    ensures n.doneDescendants == |CompleteBelow(t, n.id)|
  {
    CompleteAreFinished(t, n.id);
    assert NodeOk(t, n) by { hide *; NodeInReport(t, r, n); }
    hide *;
    DoneInNode(t, n);
  }

  lemma NodeInReport(t: Tree, r: Rollup, n: Node)
    requires Reports(t, r) && n in r.nodes
    ensures NodeOk(t, n)
  {
    hide NodeOk, InIdOrder, RootsOk, OverallOk, DeepestIs;
  }

  lemma DoneInNode(t: Tree, n: Node)
    requires NodeOk(t, n) && Sound(t, n.id)
    ensures n.doneDescendants == |Finished(t, Below(t, n.id))|
  {
    hide Climbed, Kids, Sound, Plain, Finished, Below;
  }

  lemma {:induction false} FirstIs(items: seq<Item>, k: nat)
    requires k < |items| && (forall j :: 0 <= j < k ==> items[j].id != items[k].id)
    ensures FirstItem(items, items[k].id) == Some(items[k])
    decreases |items|
  {
    if k < |items| - 1 {
      FirstIs(items[..|items| - 1], k);
    } else {
      NoneFirst(items[..k], items[k].id);
    }
  }

  lemma {:induction false} NoneFirst(items: seq<Item>, x: Id)
    requires forall j :: 0 <= j < |items| ==> items[j].id != x
    ensures FirstItem(items, x) == None
    decreases |items|
  {
    if items != [] { NoneFirst(items[..|items| - 1], x); }
  }

  /** A leaf that is not on a cycle shows its own progress in the report. */
  lemma LeafShowsOwn(t: Tree, r: Rollup, n: Node)
    requires TreeOk(t) && Reports(t, r) && n in r.nodes && n.isLeaf && !OnCycle(t, n.id)
    ensures n.rolledProgress == n.ownProgress
  {
    assert NodeOk(t, n);
    assert Sound(t, n.id);
    NothingBelowShowsOwn(t, n.id);
  }
}
