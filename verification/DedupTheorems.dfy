/** Clusters are exactly the connected components, whatever the item order, and grow with a lower threshold. */
module DedupTheorems {
  import opened Options
  import opened Ids
  import opened OrderedMaps
  import opened Sorting
  import opened UnionFind
  import opened DemandDedup

  // ---------------------------------------------------------------------------------------------
  // Clusters are components

  /** A sorted component of at least two ids. */
  ghost predicate IsCluster(ids: seq<Id>, links: seq<Link>, c: seq<Id>) {
    && |c| >= 2
    && StrictlySorted(IdLess, c)
    && (forall x :: x in c ==> x in ids)
    && (forall x, y :: x in c ==> (y in c <==> y in ids && Connected(links, x, y)))
  }

  /** Precisely the components of size two or more, in order of their first ids. */
  ghost predicate ClustersExact(ids: seq<Id>, links: seq<Link>, clusters: seq<seq<Id>>) {
    && StrictlySorted(FirstLess, clusters)
    && (forall c :: c in clusters ==> IsCluster(ids, links, c))
    && (forall x, y :: x in ids && y in ids && x != y && Connected(links, x, y) ==> exists c :: c in clusters && x in c)
  }

  lemma FirstLessOrders()
    ensures StrictOrder(FirstLess)
  {
    IdLessOrders();
    forall a, b, c | FirstLess(a, b) && FirstLess(b, c) ensures FirstLess(a, c) {
      assert IdLess(a[0], c[0]);
    }
  }

  lemma {:induction false} TidyMembers(classes: seq<seq<Id>>, c: seq<Id>)
    ensures c in Tidy(classes) <==> exists k :: 0 <= k < |classes| && |classes[k]| >= 2 && c == Sort(IdLess, classes[k])
    decreases |classes|
  {
    hide Sort, IdLess;
    if classes != [] {
      var front := classes[..|classes| - 1];
      TidyMembers(front, c);
      assert forall k :: 0 <= k < |front| ==> front[k] == classes[k];
    }
  }

  ghost predicate Disjoint(classes: seq<seq<Id>>) {
    forall i, j, x :: 0 <= i < j < |classes| && x in classes[i] ==> x !in classes[j]
  }

  lemma SortsDiffer(c: seq<Id>, d: seq<Id>)
    requires c != [] && forall x :: x in d ==> x !in c
    ensures Sort(IdLess, c) != Sort(IdLess, d)
  {
    SortMembers(IdLess, c);
    SortMembers(IdLess, d);
    assert c[0] in Sort(IdLess, c) && c[0] !in Sort(IdLess, d);
  }

  lemma {:induction false} TidyDistinct(classes: seq<seq<Id>>)
    requires Disjoint(classes)
    ensures Distinct(Tidy(classes))
    decreases |classes|
  {
    if classes != [] {
      var front, last := classes[..|classes| - 1], classes[|classes| - 1];
      assert forall k :: 0 <= k < |front| ==> front[k] == classes[k];
      TidyDistinct(front);
      var c := Sort(IdLess, last);
      TidyMembers(front, c);
      if |last| >= 2 && c in Tidy(front) {
        var k :| 0 <= k < |front| && c == Sort(IdLess, front[k]);
        SortsDiffer(last, front[k]);
      }
    }
  }

  /** A tidied class of a tagging is a component. */
  lemma ClassIsCluster(ids: seq<Id>, links: seq<Link>, tag: map<Id, Id>, r: Id, c: seq<Id>)
    requires Distinct(ids) && Tags(links, tag) && tag.Keys == Elements(ids)
    requires forall x :: x in ids ==> x in tag
    requires ClassOf(ids, tag, r, c) && |c| >= 2
    ensures IsCluster(ids, links, Sort(IdLess, c))
  {
    IdLessOrders();
    SortSorts(IdLess, c);
    SortMembers(IdLess, c);
    var s := Sort(IdLess, c);
    forall x, y | x in s ensures y in s <==> y in ids && Connected(links, x, y) {
      assert y in ids <==> y in Elements(ids);
    }
  }

  lemma GroupsDisjoint(ids: seq<Id>, tag: map<Id, Id>, m: OMap<Id, seq<Id>>)
    requires (forall x :: x in ids ==> x in tag) && Grouped(ids, tag, m)
    ensures Disjoint(Values(m))
  {
    var vs := Values(m);
    forall i, j, x | 0 <= i < j < |vs| && x in vs[i] ensures x !in vs[j] {
      assert ClassOf(ids, tag, m.keys[i], m.at[m.keys[i]]) && ClassOf(ids, tag, m.keys[j], m.at[m.keys[j]]);
    }
  }

  /** Clusters with a common member are equal. */
  lemma ClustersMeet(ids: seq<Id>, links: seq<Link>, c: seq<Id>, d: seq<Id>, x: Id)
    requires IsCluster(ids, links, c) && IsCluster(ids, links, d) && x in c && x in d
    ensures c == d
  {
    IdLessOrders();
    StrictlySortedUnique(IdLess, c, d);
  }

  /** The answer consists of exactly the connected components of size two or more, sorted. */
  lemma ClustersAreComponents(ids: seq<Id>, links: seq<Link>, clusters: seq<seq<Id>>)
    requires Distinct(ids) && ClusterAnswer(ids, links, clusters)
    ensures ClustersExact(ids, links, clusters)
  {
    hide Tags, AssembleClusters, ClustersExact;
    var tag: map<Id, Id> :| Tags(links, tag) && tag.Keys == Elements(ids) && clusters == AssembleClusters(ids, tag);
    AssembledExact(ids, links, tag);
  }

  lemma AssembledExact(ids: seq<Id>, links: seq<Link>, tag: map<Id, Id>)
    requires Distinct(ids) && Tags(links, tag) && tag.Keys == Elements(ids)
    ensures forall x :: x in ids ==> x in tag
    ensures ClustersExact(ids, links, AssembleClusters(ids, tag))
  {
    hide Tags, Grouped, IsCluster, FirstLess, Sort, Tidy, Values, Connected, Distinct;
    forall x | x in ids ensures x in tag { assert x in Elements(ids); }
    var m := Groups(ids, tag);
    GroupsValid(ids, tag);
    GroupsKnown(ids, tag, m);
    var tidy := Tidy(Values(m));
    TidyAreClusters(ids, links, tag, m);
    SortMembers(FirstLess, tidy);
    forall x, y | x in ids && y in ids && x != y && Connected(links, x, y)
      ensures exists c :: c in Sort(FirstLess, tidy) && x in c
    {
      ClassCovers(ids, links, tag, m, x, y);
      var c :| c in tidy && x in c;
      assert c in Sort(FirstLess, tidy);
    }
  }

  lemma GroupsKnown(ids: seq<Id>, tag: map<Id, Id>, m: OMap<Id, seq<Id>>)
    requires (forall x :: x in ids ==> x in tag) && Grouped(ids, tag, m)
    ensures forall k <- m.keys :: k in m.at
  {
  }

  lemma TidyAreClusters(ids: seq<Id>, links: seq<Link>, tag: map<Id, Id>, m: OMap<Id, seq<Id>>)
    requires Distinct(ids) && Tags(links, tag) && tag.Keys == Elements(ids)
    requires (forall x :: x in ids ==> x in tag) && Grouped(ids, tag, m)
    ensures forall c :: c in Tidy(Values(m)) ==> IsCluster(ids, links, c)
    ensures StrictlySorted(FirstLess, Sort(FirstLess, Tidy(Values(m))))
  {
    hide Tags, IdLess, IsCluster, Grouped, Tidy, FirstLess;
    GroupsKnown(ids, tag, m);
    var tidy := Tidy(Values(m));
    forall c | c in tidy ensures IsCluster(ids, links, c) {
      TidyIsCluster(ids, links, tag, m, c);
    }
    GroupsDisjoint(ids, tag, m);
    TidyDistinct(Values(m));
    FirstLessOrders();
    forall c, d | c in tidy && d in tidy ensures c == d || FirstLess(c, d) || FirstLess(d, c) {
      ClustersCompare(ids, links, c, d);
    }
    SortSorts(FirstLess, tidy);
  }

  lemma TidyIsCluster(ids: seq<Id>, links: seq<Link>, tag: map<Id, Id>, m: OMap<Id, seq<Id>>, c: seq<Id>)
    requires Distinct(ids) && Tags(links, tag) && tag.Keys == Elements(ids)
    requires (forall x :: x in ids ==> x in tag) && Grouped(ids, tag, m) && c in Tidy(Values(m))
    ensures IsCluster(ids, links, c)
  {
    hide Tags, IsCluster;
    var vs := Values(m);
    TidyMembers(vs, c);
    var k :| 0 <= k < |vs| && |vs[k]| >= 2 && c == Sort(IdLess, vs[k]);
    ClassIsCluster(ids, links, tag, m.keys[k], vs[k]);
  }

  lemma ClustersCompare(ids: seq<Id>, links: seq<Link>, c: seq<Id>, d: seq<Id>)
    requires IsCluster(ids, links, c) && IsCluster(ids, links, d)
    ensures c == d || FirstLess(c, d) || FirstLess(d, c)
  {
    IdLessOrders();
    if c[0] == d[0] { ClustersMeet(ids, links, c, d, c[0]); }
  }

  lemma ClassCovers(ids: seq<Id>, links: seq<Link>, tag: map<Id, Id>, m: OMap<Id, seq<Id>>, x: Id, y: Id)
    requires (forall z :: z in ids ==> z in tag) && Grouped(ids, tag, m) && Tags(links, tag)
    requires x in ids && y in ids && x != y && Connected(links, x, y)
    ensures exists c :: c in Tidy(Values(m)) && x in c
  {
    var r := tag[x];
    assert tag[y] == r;
    var c := m.at[r];
    assert ClassOf(ids, tag, r, c);
    assert x in c && y in c;
    TwoMembers(c, x, y);
    var k :| 0 <= k < |m.keys| && m.keys[k] == r;
    assert Values(m)[k] == c;
    TidyMembers(Values(m), Sort(IdLess, c));
    SortMembers(IdLess, c);
  }

  lemma TwoMembers(c: seq<Id>, x: Id, y: Id)
    requires x in c && y in c && x != y
    ensures |c| >= 2
  {
  }

  /** Nothing but the set of ids and the links decides the clusters. */
  lemma ClustersUnique(ids: seq<Id>, other: seq<Id>, links: seq<Link>, r: seq<seq<Id>>, q: seq<seq<Id>>)
    requires forall x :: x in ids <==> x in other
    requires ClustersExact(ids, links, r) && ClustersExact(other, links, q)
    ensures r == q
  {
    ClustersCovered(ids, other, links, r, q);
    ClustersCovered(other, ids, links, q, r);
    FirstLessOrders();
    StrictlySortedUnique(FirstLess, r, q);
  }

  lemma ClustersCovered(ids: seq<Id>, other: seq<Id>, links: seq<Link>, r: seq<seq<Id>>, q: seq<seq<Id>>)
    requires forall x :: x in ids <==> x in other
    requires ClustersExact(ids, links, r) && ClustersExact(other, links, q)
    ensures forall c :: c in r ==> c in q
  {
    forall c | c in r ensures c in q {
      assert IsCluster(ids, links, c);
      IdLessOrders();
      assert c[0] in c && c[1] in c && c[0] != c[1];
      assert Connected(links, c[0], c[1]);
      var d :| d in q && c[0] in d;
      assert IsCluster(other, links, d);
      assert IsCluster(ids, links, d);
      ClustersMeet(ids, links, c, d, c[0]);
    }
  }

  // ---------------------------------------------------------------------------------------------
  // Pairs do not depend on the order of the items

  /** Ids and the tokens of each item are distinct. */
  ghost predicate CleanItems(items: seq<Item>) {
    && (forall i, j :: 0 <= i < j < |items| ==> items[i].id != items[j].id)
    && (forall i :: 0 <= i < |items| ==> Distinct(items[i].tokens))
  }

  lemma PairOfSymmetric(threshold: real, x: Item, y: Item)
    requires x.id != y.id && Distinct(x.tokens) && Distinct(y.tokens)
    ensures PairOf(threshold, x, y) == PairOf(threshold, y, x)
  {
    JaccardSymmetric(x.tokens, y.tokens);
    IdLessOrders();
    hide Score, Shared, IdLess, Round4;
    assert IdLess(x.id, y.id) || IdLess(y.id, x.id);
    assert IdLess(x.id, y.id) && IdLess(y.id, x.id) ==> IdLess(x.id, x.id);
  }

  /** A pair names the two items that form it. */
  lemma FormsOnce(threshold: real, items: seq<Item>, i: nat, k: nat, i': nat, k': nat, p: DuplicatePair)
    requires CleanItems(items)
    requires Forms(threshold, items, i, k, p) && Forms(threshold, items, i', k', p)
    ensures i == i' && k == k'
  {
    hide Score, Shared, IdLess, Round4;
  }

  lemma {:induction false} RowDistinct(threshold: real, items: seq<Item>, i: nat, j: nat)
    requires CleanItems(items) && i < j <= |items|
    ensures Distinct(RowPairs(threshold, items, i, j))
    decreases j
  {
    hide CleanItems, PairOf;
    if j > i + 1 {
      RowDistinct(threshold, items, i, j - 1);
      var p := PairOf(threshold, items[i], items[j - 1]);
      if p.Some? {
        RowMembers(threshold, items, i, j - 1, p.value);
        assert Forms(threshold, items, i, j - 1, p.value);
        if k :| i < k < j - 1 && Forms(threshold, items, i, k, p.value) {
          FormsOnce(threshold, items, i, k, i, j - 1, p.value);
        }
      }
    }
  }

  lemma RowsApart(threshold: real, items: seq<Item>, n: nat, p: DuplicatePair)
    requires CleanItems(items) && n < |items| && p in RawPairs(threshold, items, n)
    ensures p !in RowPairs(threshold, items, n, |items|)
  {
    hide CleanItems, PairOf, RowPairs, RawPairs, Forms;
    RawMembers(threshold, items, n, p);
    RowMembers(threshold, items, n, |items|, p);
    if p in RowPairs(threshold, items, n, |items|) {
      var i: nat, k: nat :| i < n && Forms(threshold, items, i, k, p);
      var k' :| n < k' < |items| && Forms(threshold, items, n, k', p);
      FormsOnce(threshold, items, i, k, n, k', p);
    }
  }

  lemma {:induction false} RawDistinct(threshold: real, items: seq<Item>, n: nat)
    requires CleanItems(items) && n <= |items|
    ensures Distinct(RawPairs(threshold, items, n))
    decreases n
  {
    hide CleanItems, PairOf, RowPairs;
    if n > 0 {
      RawDistinct(threshold, items, n - 1);
      RowDistinct(threshold, items, n - 1, |items|);
      var front, row := RawPairs(threshold, items, n - 1), RowPairs(threshold, items, n - 1, |items|);
      forall p | p in front ensures p !in row {
        RowsApart(threshold, items, n - 1, p);
      }
      DistinctJoin(front, row);
    }
  }

  lemma DistinctJoin<T(!new)>(s: seq<T>, t: seq<T>)
    requires Distinct(s) && Distinct(t) && forall x :: x in s ==> x !in t
    ensures Distinct(s + t)
  {
    var r := s + t;
    forall i, j | 0 <= i < j < |r| ensures r[i] != r[j] {
      if i < |s| <= j { assert r[i] in s && r[j] in t; }
    }
  }

  lemma PairLessOrders()
    ensures StrictOrder(PairLess)
  {
    IdLessOrders();
    hide IdLess;
  }

  lemma PairsStrictlySorted(threshold: real, items: seq<Item>)
    requires CleanItems(items)
    ensures StrictlySorted(PairLess, Pairs(threshold, items))
  {
    hide CleanItems, PairOf, PairLess;
    var raw := RawPairs(threshold, items, |items|);
    RawDistinct(threshold, items, |items|);
    PairLessOrders();
    forall p, q | p in raw && q in raw ensures p == q || PairLess(p, q) || PairLess(q, p) {
      RawMembers(threshold, items, |items|, p);
      RawMembers(threshold, items, |items|, q);
      var i: nat, k: nat :| Forms(threshold, items, i, k, p);
      var i': nat, k': nat :| Forms(threshold, items, i', k', q);
      PairsCompare(threshold, items, i, k, p, i', k', q);
    }
    SortSorts(PairLess, raw);
  }

  lemma PairsCompare(threshold: real, items: seq<Item>, i: nat, k: nat, p: DuplicatePair, i': nat, k': nat, q: DuplicatePair)
    requires CleanItems(items) && Forms(threshold, items, i, k, p) && Forms(threshold, items, i', k', q)
    ensures p == q || PairLess(p, q) || PairLess(q, p)
  {
    IdLessOrders();
    hide Score, Shared, Round4;
    if p.aId == q.aId && p.bId == q.bId {
      SameEnds(threshold, items, i, k, p, i', k', q);
    }
  }

  lemma SameEnds(threshold: real, items: seq<Item>, i: nat, k: nat, p: DuplicatePair, i': nat, k': nat, q: DuplicatePair)
    requires CleanItems(items) && Forms(threshold, items, i, k, p) && Forms(threshold, items, i', k', q)
    requires p.aId == q.aId && p.bId == q.bId
    ensures p == q
  {
    hide Score, Shared, IdLess, Round4;
    assert i == i' && k == k';
  }

  lemma PairsFollow(threshold: real, items: seq<Item>, other: seq<Item>, p: DuplicatePair)
    requires CleanItems(items) && CleanItems(other) && forall x :: x in items ==> x in other
    requires p in Pairs(threshold, items)
    ensures p in Pairs(threshold, other)
  {
    hide PairOf, PairLess;
    PairsMembers(threshold, items, p);
    PairsMembers(threshold, other, p);
    var i: nat, k: nat :| Forms(threshold, items, i, k, p);
    var x, y := items[i], items[k];
    assert x in items && y in items;
    var i' :| 0 <= i' < |other| && other[i'] == x;
    var k' :| 0 <= k' < |other| && other[k'] == y;
    if i' < k' {
      assert Forms(threshold, other, i', k', p);
    } else {
      PairOfSymmetric(threshold, x, y);
      assert Forms(threshold, other, k', i', p);
    }
  }

  /** Detection is order-free: any two lists with the same items give identical pairs and clusters. */
  lemma OrderFree(items: seq<Item>, other: seq<Item>, option: Option<real>, r: DedupResult, q: DedupResult)
    requires CleanItems(items) && CleanItems(other) && forall x :: x in items <==> x in other
    requires r.pairs == Pairs(Threshold(option), items) && ClusterAnswer(IdsOf(items), LinksOf(r.pairs), r.clusters)
    requires q.pairs == Pairs(Threshold(option), other) && ClusterAnswer(IdsOf(other), LinksOf(q.pairs), q.clusters)
    ensures r == q
  {
    hide PairOf, PairLess, ClusterAnswer, ClustersExact;
    var t := Threshold(option);
    PairsStrictlySorted(t, items);
    PairsStrictlySorted(t, other);
    forall p ensures p in r.pairs <==> p in q.pairs {
      if p in r.pairs { PairsFollow(t, items, other, p); }
      if p in q.pairs { PairsFollow(t, other, items, p); }
    }
    PairLessOrders();
    StrictlySortedUnique(PairLess, r.pairs, q.pairs);
    ClustersAreComponents(IdsOf(items), LinksOf(r.pairs), r.clusters);
    ClustersAreComponents(IdsOf(other), LinksOf(q.pairs), q.clusters);
    SameIds(items, other);
    SameIds(other, items);
    ClustersUnique(IdsOf(items), IdsOf(other), LinksOf(r.pairs), r.clusters, q.clusters);
  }

  lemma SameIds(items: seq<Item>, other: seq<Item>)
    requires forall x :: x in items ==> x in other
    ensures forall x :: x in IdsOf(items) ==> x in IdsOf(other)
  {
    forall x | x in IdsOf(items) ensures x in IdsOf(other) {
      var i :| 0 <= i < |items| && IdsOf(items)[i] == x;
      assert items[i] in items;
      var j :| 0 <= j < |other| && other[j] == items[i];
      assert IdsOf(other)[j] == x;
    }
  }

  // ---------------------------------------------------------------------------------------------
  // Thresholds

  lemma PairsGrow(low: real, high: real, items: seq<Item>, p: DuplicatePair)
    requires low <= high && p in Pairs(high, items)
    ensures p in Pairs(low, items)
  {
    PairsMembers(high, items, p);
    PairsMembers(low, items, p);
    var i: nat, k: nat :| Forms(high, items, i, k, p);
    assert Forms(low, items, i, k, p);
  }

  /** Every cluster at a higher threshold lies inside one cluster at a lower threshold. */
  lemma ClustersGrow(items: seq<Item>, low: real, high: real, r: seq<seq<Id>>, q: seq<seq<Id>>, c: seq<Id>)
    requires CleanItems(items) && low <= high
    requires ClusterAnswer(IdsOf(items), LinksOf(Pairs(high, items)), r) && c in r
    requires ClusterAnswer(IdsOf(items), LinksOf(Pairs(low, items)), q)
    ensures exists d :: d in q && forall x :: x in c ==> x in d
  {
    hide PairOf, PairLess, ClusterAnswer, IsCluster, Pairs;
    var ids, few, many := IdsOf(items), LinksOf(Pairs(high, items)), LinksOf(Pairs(low, items));
    ClustersAreComponents(ids, few, r);
    ClustersAreComponents(ids, many, q);
    forall l | l in few ensures l in many {
      var i :| 0 <= i < |few| && few[i] == l;
      PairsGrow(low, high, items, Pairs(high, items)[i]);
      var j :| 0 <= j < |many| && Pairs(low, items)[j] == Pairs(high, items)[i];
      assert many[j] == l;
    }
    ClusterInside(ids, few, many, c, q);
  }

  lemma ClusterInside(ids: seq<Id>, few: seq<Link>, many: seq<Link>, c: seq<Id>, q: seq<seq<Id>>)
    requires forall l :: l in few ==> l in many
    requires IsCluster(ids, few, c) && ClustersExact(ids, many, q)
    ensures exists d :: d in q && forall x :: x in c ==> x in d
  {
    IdLessOrders();
    hide IdLess, Connected;
    assert c[0] in c && c[1] in c && c[0] != c[1];
    ConnectedMore(few, many, c[0], c[1]);
    var d :| d in q && c[0] in d;
    assert IsCluster(ids, many, d);
    forall x | x in c ensures x in d {
      ConnectedMore(few, many, c[0], x);
    }
  }
}
