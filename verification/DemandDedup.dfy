/** Duplicate-demand detection: pairwise token overlap, and the clusters the reported pairs form. */
module DemandDedup {
  import opened Options
  import opened Ids
  import opened OrderedMaps
  import opened Sorting
  import opened UnionFind

  /** An item with its token set, in insertion order. */
  datatype Item = Item(id: Id, tokens: seq<string>)

  /** `aId` precedes `bId`. */
  datatype DuplicatePair = DuplicatePair(aId: Id, bId: Id, similarity: real, shared: seq<string>)

  datatype DedupResult = DedupResult(pairs: seq<DuplicatePair>, clusters: seq<seq<Id>>)

  function Round4(n: real): real {
    ((n * 10000.0 + 0.5).Floor as real) / 10000.0
  }

  // ---------------------------------------------------------------------------------------------
  // Jaccard similarity

  /** The entries of `a` that occur in `b`. */
  function Common(a: seq<string>, b: seq<string>): (r: seq<string>)
    ensures |r| <= |a|
    ensures forall t :: t in r <==> t in a && t in b
  {
    if a == [] then []
    else
      assert a == a[..|a| - 1] + [a[|a| - 1]];
      Common(a[..|a| - 1], b) + (if a[|a| - 1] in b then [a[|a| - 1]] else [])
  }

  function Overlap(a: seq<string>, b: seq<string>): seq<string> {
    if |a| <= |b| then Common(a, b) else Common(b, a)
  }

  function Ratio(part: int, whole: int): real {
    if whole == 0 then 0.0 else part as real / whole as real
  }

  lemma RatioBounds(part: int, whole: int)
    requires 0 <= part <= whole
    ensures 0.0 <= Ratio(part, whole) <= 1.0
  {
  }

  function Score(a: seq<string>, b: seq<string>): real {
    if a == [] || b == [] then 0.0
    else Ratio(|Overlap(a, b)|, |a| + |b| - |Overlap(a, b)|)
  }

  function Shared(a: seq<string>, b: seq<string>): seq<string> {
    if a == [] || b == [] then [] else Sort(StrLess, Overlap(a, b))
  }

  method Jaccard(a: seq<string>, b: seq<string>) returns (score: real, shared: seq<string>)
    ensures score == Score(a, b) && shared == Shared(a, b)
  {
    hide StrLess, Common, Ratio;
    if a == [] || b == [] { return 0.0, []; }
    CommonStart(if |a| <= |b| then b else a);
    var small, large := a, b;
    if |a| > |b| { small, large := b, a; }
    shared := [];
    for i := 0 to |small|
      invariant shared == Common(small[..i], large)
    {
      CommonNext(small, large, i);
      if small[i] in large { shared := shared + [small[i]]; }
    }
    assert small[..|small|] == small;
    score := Ratio(|shared|, |a| + |b| - |shared|);
    shared := Sort(StrLess, shared);
  }

  lemma CommonStart(b: seq<string>)
    ensures Common([], b) == []
  {
  }

  lemma CommonNext(a: seq<string>, b: seq<string>, i: nat)
    requires i < |a|
    ensures Common(a[..i + 1], b) == Common(a[..i], b) + (if a[i] in b then [a[i]] else [])
  {
    assert a[..i + 1][..i] == a[..i];
  }

  lemma {:induction false} CommonDistinct(a: seq<string>, b: seq<string>)
    requires Distinct(a)
    ensures Distinct(Common(a, b))
    decreases |a|
  {
    if a != [] { CommonDistinct(a[..|a| - 1], b); }
  }

  function Elements<T>(s: seq<T>): set<T> {
    set x | x in s
  }

  lemma OverlapSize(a: seq<string>, b: seq<string>)
    requires Distinct(a) && Distinct(b)
    ensures |Overlap(a, b)| == |Elements(a) * Elements(b)|
    ensures |a| + |b| - |Overlap(a, b)| == |Elements(a) + Elements(b)|
  {
    CommonDistinct(a, b);
    CommonDistinct(b, a);
    DistinctCardinality(Overlap(a, b));
    DistinctCardinality(a);
    DistinctCardinality(b);
    assert Elements(Overlap(a, b)) == Elements(a) * Elements(b);
    assert |Elements(a) + Elements(b)| == |Elements(a)| + |Elements(b)| - |Elements(a) * Elements(b)|;
  }

  /** The score is |A∩B| / |A∪B|, zero for an empty side, and the shared tokens are A∩B in order. */
  lemma JaccardMeaning(a: seq<string>, b: seq<string>)
    requires Distinct(a) && Distinct(b)
    ensures Score(a, b) == if a == [] || b == [] then 0.0 else Ratio(|Elements(a) * Elements(b)|, |Elements(a) + Elements(b)|)
    ensures a != [] ==> |Elements(a) + Elements(b)| > 0
    ensures 0.0 <= Score(a, b) <= 1.0
    ensures StrictlySorted(StrLess, Shared(a, b)) && forall t :: t in Shared(a, b) <==> t in a && t in b
  {
    hide StrLess, Common, Ratio, Sort;
    OverlapSize(a, b);
    if a != [] {
      assert a[0] in Elements(a) + Elements(b);
    }
    RatioBounds(|Overlap(a, b)|, |a| + |b| - |Overlap(a, b)|);
    SharedMeaning(a, b);
  }

  lemma SharedMeaning(a: seq<string>, b: seq<string>)
    requires Distinct(a) && Distinct(b)
    ensures StrictlySorted(StrLess, Shared(a, b)) && forall t :: t in Shared(a, b) <==> t in a && t in b
  {
    hide StrLess, Common, Sort;
    StrLessOrders();
    CommonDistinct(a, b);
    CommonDistinct(b, a);
    SortSorts(StrLess, Overlap(a, b));
    SortMembers(StrLess, Overlap(a, b));
  }

  lemma JaccardSymmetric(a: seq<string>, b: seq<string>)
    requires Distinct(a) && Distinct(b)
    ensures Score(a, b) == Score(b, a) && Shared(a, b) == Shared(b, a)
  {
    hide *;
    JaccardMeaning(a, b);
    JaccardMeaning(b, a);
    assert Elements(a) * Elements(b) == Elements(b) * Elements(a);
    assert Elements(a) + Elements(b) == Elements(b) + Elements(a);
    StrLessOrders();
    StrictlySortedUnique(StrLess, Shared(a, b), Shared(b, a));
  }

  // ---------------------------------------------------------------------------------------------
  // Pairs

  /** The pair two items form, when they are alike enough. */
  function PairOf(threshold: real, x: Item, y: Item): Option<DuplicatePair> {
    var score := Score(x.tokens, y.tokens);
    if score >= threshold && score > 0.0 then
      Some(if IdLess(y.id, x.id)
           then DuplicatePair(y.id, x.id, Round4(score), Shared(x.tokens, y.tokens))
           else DuplicatePair(x.id, y.id, Round4(score), Shared(x.tokens, y.tokens)))
    else None
  }

  function Listed<T>(p: Option<T>): seq<T> {
    if p.Some? then [p.value] else []
  }

  /** The pairs of item `i` with the items between it and `j`. */
  function RowPairs(threshold: real, items: seq<Item>, i: nat, j: nat): seq<DuplicatePair>
    requires i < j <= |items|
    decreases j
  {
    if j == i + 1 then [] else RowPairs(threshold, items, i, j - 1) + Listed(PairOf(threshold, items[i], items[j - 1]))
  }

  /** The pairs of the first `n` items with everything after them, as found. */
  function RawPairs(threshold: real, items: seq<Item>, n: nat): seq<DuplicatePair>
    requires n <= |items|
  {
    if n == 0 then [] else RawPairs(threshold, items, n - 1) + RowPairs(threshold, items, n - 1, |items|)
  }

  /** More similar first; ties by the two ids. */
  predicate PairLess(x: DuplicatePair, y: DuplicatePair) {
    if x.similarity != y.similarity then x.similarity > y.similarity
    else if x.aId != y.aId then IdLess(x.aId, y.aId)
    else IdLess(x.bId, y.bId)
  }

  function Clamp01(t: real): real {
    if t < 0.0 then 0.0 else if t > 1.0 then 1.0 else t
  }

  function Threshold(option: Option<real>): real {
    Clamp01(option.GetOr(0.5))
  }

  function Pairs(threshold: real, items: seq<Item>): seq<DuplicatePair> {
    Sort(PairLess, RawPairs(threshold, items, |items|))
  }

  function LinksOf(pairs: seq<DuplicatePair>): (r: seq<Link>)
    ensures |r| == |pairs| && forall i :: 0 <= i < |pairs| ==> r[i] == Link(pairs[i].aId, pairs[i].bId)
  {
    seq(|pairs|, i requires 0 <= i < |pairs| => Link(pairs[i].aId, pairs[i].bId))
  }

  function IdsOf(items: seq<Item>): (r: seq<Id>)
    ensures |r| == |items| && forall i :: 0 <= i < |items| ==> r[i] == items[i].id
  {
    seq(|items|, i requires 0 <= i < |items| => items[i].id)
  }

  /** `r` is what the detector answers: the sorted pairs at the threshold, and the clusters of their links. */
  ghost predicate Answers(r: DedupResult, items: seq<Item>, option: Option<real>) {
    r.pairs == Pairs(Threshold(option), items) && ClusterAnswer(IdsOf(items), LinksOf(r.pairs), r.clusters)
  }

  method DetectDuplicateDemand(items: seq<Item>, option: Option<real>) returns (r: DedupResult)
    ensures Answers(r, items, option)
  {
    hide PairOf, PairLess, ClusterAnswer, RowPairs, Sort;
    var threshold := Clamp01(option.GetOr(0.5));
    var pairs: seq<DuplicatePair> := [];
    for i := 0 to |items|
      invariant pairs == RawPairs(threshold, items, i)
    {
      var row := FindRow(threshold, items, i);
      pairs := pairs + row;
    }
    pairs := Sort(PairLess, pairs);
    forall l | l in LinksOf(pairs) ensures l.a in IdsOf(items) && l.b in IdsOf(items) {
      var k :| 0 <= k < |pairs| && l == Link(pairs[k].aId, pairs[k].bId);
      PairEnds(threshold, items, pairs[k]);
    }
    var clusters := Cluster(IdsOf(items), LinksOf(pairs));
    r := DedupResult(pairs, clusters);
  }

  method FindRow(threshold: real, items: seq<Item>, i: nat) returns (pairs: seq<DuplicatePair>)
    requires i < |items|
    ensures pairs == RowPairs(threshold, items, i, |items|)
  {
    hide Score, Shared;
    pairs := [];
    for j := i + 1 to |items|
      invariant pairs == RowPairs(threshold, items, i, j)
    {
      var score, shared := Jaccard(items[i].tokens, items[j].tokens);
      if score >= threshold && score > 0.0 {
        var a, b := items[i].id, items[j].id;
        if IdLess(b, a) { a, b := b, a; }
        pairs := pairs + [DuplicatePair(a, b, Round4(score), shared)];
      }
    }
  }

  /** Items `i` and `k` form the pair `p`. */
  ghost predicate Forms(threshold: real, items: seq<Item>, i: nat, k: nat, p: DuplicatePair) {
    i < k < |items| && PairOf(threshold, items[i], items[k]) == Some(p)
  }

  lemma {:induction false} RowMembers(threshold: real, items: seq<Item>, i: nat, j: nat, p: DuplicatePair)
    requires i < j <= |items|
    ensures p in RowPairs(threshold, items, i, j) <==> exists k :: i < k < j && Forms(threshold, items, i, k, p)
    decreases j
  {
    hide PairOf, Forms, Listed;
    if j > i + 1 {
      RowMembers(threshold, items, i, j - 1, p);
      LastForms(threshold, items, i, j - 1, p);
      assert p in RowPairs(threshold, items, i, j) <==>
        p in RowPairs(threshold, items, i, j - 1) || Forms(threshold, items, i, j - 1, p);
      hide RowPairs;
    }
  }

  lemma LastForms(threshold: real, items: seq<Item>, i: nat, k: nat, p: DuplicatePair)
    requires i < k < |items|
    ensures p in Listed(PairOf(threshold, items[i], items[k])) <==> Forms(threshold, items, i, k, p)
  {
    hide PairOf;
  }

  lemma {:induction false} RawMembers(threshold: real, items: seq<Item>, n: nat, p: DuplicatePair)
    requires n <= |items|
    ensures p in RawPairs(threshold, items, n) <==> exists i: nat, k: nat :: i < n && Forms(threshold, items, i, k, p)
    decreases n
  {
    hide PairOf, RowPairs;
    if n > 0 {
      RawMembers(threshold, items, n - 1, p);
      RowMembers(threshold, items, n - 1, |items|, p);
      if i: nat, k: nat :| i < n && Forms(threshold, items, i, k, p) {
        if i == n - 1 { assert Forms(threshold, items, n - 1, k, p); }
      }
    }
  }

  /** A pair is reported exactly when two of the items form it. */
  lemma PairsMembers(threshold: real, items: seq<Item>, p: DuplicatePair)
    ensures p in Pairs(threshold, items) <==> exists i: nat, k: nat :: Forms(threshold, items, i, k, p)
  {
    RawMembers(threshold, items, |items|, p);
    SortMembers(PairLess, RawPairs(threshold, items, |items|));
    hide PairLess;
    if i: nat, k: nat :| Forms(threshold, items, i, k, p) {
      assert i < |items|;
    }
  }

  lemma PairEnds(threshold: real, items: seq<Item>, p: DuplicatePair)
    requires p in Pairs(threshold, items)
    ensures p.aId in IdsOf(items) && p.bId in IdsOf(items)
  {
    PairsMembers(threshold, items, p);
    var i: nat, k: nat :| Forms(threshold, items, i, k, p);
    assert IdsOf(items)[i] == items[i].id && IdsOf(items)[k] == items[k].id;
  }

  // ---------------------------------------------------------------------------------------------
  // Clusters

  /** The ids of each class, in order of first appearance. */
  function Groups(ids: seq<Id>, tag: map<Id, Id>): OMap<Id, seq<Id>>
    requires forall x :: x in ids ==> x in tag
  {
    if ids == [] then Empty()
    else
      var x := ids[|ids| - 1];
      var m := Groups(ids[..|ids| - 1], tag);
      Set(m, tag[x], (if tag[x] in m.at then m.at[tag[x]] else []) + [x])
  }

  /** Drop the singletons and sort each class. */
  function Tidy(classes: seq<seq<Id>>): seq<seq<Id>> {
    if classes == [] then []
    else
      var c := classes[|classes| - 1];
      Tidy(classes[..|classes| - 1]) + (if |c| >= 2 then [Sort(IdLess, c)] else [])
  }

  predicate FirstLess(x: seq<Id>, y: seq<Id>) {
    x != [] && y != [] && IdLess(x[0], y[0])
  }

  /** The class under each tag holds exactly the ids with that tag. */
  ghost predicate Grouped(ids: seq<Id>, tag: map<Id, Id>, m: OMap<Id, seq<Id>>)
    requires forall x :: x in ids ==> x in tag
  {
    && ValidMap(m)
    && (forall x :: x in ids ==> tag[x] in m.at)
    && (forall r :: r in m.at ==> ClassOf(ids, tag, r, m.at[r]))
  }

  ghost predicate ClassOf(ids: seq<Id>, tag: map<Id, Id>, r: Id, c: seq<Id>)
    requires forall x :: x in ids ==> x in tag
  {
    && c != []
    && (forall x :: x in c <==> x in ids && tag[x] == r)
    && (Distinct(ids) ==> Distinct(c))
  }

  lemma {:induction false} GroupsValid(ids: seq<Id>, tag: map<Id, Id>)
    requires forall x :: x in ids ==> x in tag
    ensures Grouped(ids, tag, Groups(ids, tag))
    decreases |ids|
  {
    if ids != [] {
      var front, x := ids[..|ids| - 1], ids[|ids| - 1];
      assert ids == front + [x];
      GroupsValid(front, tag);
      GroupsStep(front, tag, Groups(front, tag), x);
    }
  }

  lemma GroupsStep(front: seq<Id>, tag: map<Id, Id>, m: OMap<Id, seq<Id>>, x: Id)
    requires x in tag && forall y :: y in front ==> y in tag
    requires Grouped(front, tag, m)
    ensures Grouped(front + [x], tag, Set(m, tag[x], (if tag[x] in m.at then m.at[tag[x]] else []) + [x]))
  {
    var ids := front + [x];
    var old' := if tag[x] in m.at then m.at[tag[x]] else [];
    var m' := Set(m, tag[x], old' + [x]);
    assert Distinct(ids) ==> Distinct(front) && x !in front by {
      if Distinct(ids) {
        forall i, j | 0 <= i < j < |front| ensures front[i] != front[j] { assert ids[i] == front[i] && ids[j] == front[j]; }
        forall i | 0 <= i < |front| ensures front[i] != x { assert ids[i] == front[i] && ids[|front|] == x; }
      }
    }
    forall r | r in m'.at ensures ClassOf(ids, tag, r, m'.at[r]) {
      if r in m.at { assert ClassOf(front, tag, r, m.at[r]); }
    }
  }

  /** The sorted, tidied classes of some exact tagging of the components. */
  ghost predicate ClusterAnswer(ids: seq<Id>, links: seq<Link>, clusters: seq<seq<Id>>) {
    exists tag: map<Id, Id> :: Tags(links, tag) && tag.Keys == Elements(ids) && clusters == AssembleClusters(ids, tag)
  }

  function AssembleClusters(ids: seq<Id>, tag: map<Id, Id>): seq<seq<Id>>
    requires forall x :: x in ids ==> x in tag
  {
    GroupsValid(ids, tag);
    Sort(FirstLess, Tidy(Values(Groups(ids, tag))))
  }

  method Cluster(ids: seq<Id>, links: seq<Link>) returns (clusters: seq<seq<Id>>)
    requires forall l :: l in links ==> l.a in ids && l.b in ids
    ensures ClusterAnswer(ids, links, clusters)
  {
    var forest := new Forest(ids);
    SingletonsTag(forest.root);
    for i := 0 to |links|
      invariant fresh(forest) && forest.Valid()
      invariant forest.parent.Keys == Elements(ids)
      invariant Tags(links[..i], forest.root)
    {
      var l := links[i];
      assert links[..i + 1] == links[..i] + [l];
      forest.SettledAt(l.a);
      forest.SettledAt(l.b);
      TagsMerge(links[..i], forest.root, l, Hang(forest.root, forest.root[l.a], forest.root[l.b]));
      forest.Union(l.a, l.b);
    }
    assert links[..|links|] == links;
    ghost var tag := forest.root;
    var groups := GroupByRoot(forest, ids);
    GroupsValid(ids, tag);
    clusters := TidyUp(Values(groups));
    clusters := Sort(FirstLess, clusters);
  }

  method GroupByRoot(forest: Forest, ids: seq<Id>) returns (groups: OMap<Id, seq<Id>>)
    requires forest.Valid() && forest.parent.Keys == Elements(ids)
    modifies forest`parent
    ensures forest.Valid() && forall x :: x in ids ==> x in forest.root
    ensures groups == Groups(ids, forest.root)
  {
    forall x | x in ids ensures x in forest.root {
      forest.SettledAt(x);
    }
    groups := Empty();
    for i := 0 to |ids|
      invariant forest.Valid() && forest.parent.Keys == Elements(ids)
      invariant groups == Groups(ids[..i], forest.root)
    {
      assert ids[..i + 1][..i] == ids[..i];
      var root := forest.Find(ids[i]);
      groups := Set(groups, root, (if root in groups.at then groups.at[root] else []) + [ids[i]]);
    }
    assert ids[..|ids|] == ids;
  }

  method TidyUp(classes: seq<seq<Id>>) returns (r: seq<seq<Id>>)
    ensures r == Tidy(classes)
  {
    r := [];
    for i := 0 to |classes|
      invariant r == Tidy(classes[..i])
    {
      assert classes[..i + 1][..i] == classes[..i];
      if |classes[i]| >= 2 { r := r + [Sort(IdLess, classes[i])]; }
    }
    assert classes[..|classes|] == classes;
  }
}
