/** Union-find by a parent map that `Find` compresses in place, and the components it computes. */
module UnionFind {
  import opened Ids

  /** An undirected link between two ids. */
  datatype Link = Link(a: Id, b: Id)

  predicate Linked(links: seq<Link>, x: Id, y: Id) {
    Link(x, y) in links || Link(y, x) in links
  }

  ghost predicate Hop(links: seq<Link>, p: seq<Id>, i: int)
    requires 0 <= i < |p| - 1
  {
    Linked(links, p[i], p[i + 1])
  }

  ghost predicate Path(links: seq<Link>, p: seq<Id>, x: Id, y: Id) {
    |p| >= 1 && p[0] == x && p[|p| - 1] == y && forall i :: 0 <= i < |p| - 1 ==> Hop(links, p, i)
  }

  /** `x` and `y` are in one component of the link graph. */
  ghost predicate Connected(links: seq<Link>, x: Id, y: Id) {
    exists p :: Path(links, p, x, y)
  }

  lemma ConnectedSelf(links: seq<Link>, x: Id)
    ensures Connected(links, x, x)
  {
    assert Path(links, [x], x, x);
  }

  lemma ConnectedStep(links: seq<Link>, x: Id, y: Id)
    requires Linked(links, x, y)
    ensures Connected(links, x, y)
  {
    assert Hop(links, [x, y], 0);
    assert Path(links, [x, y], x, y);
  }

  lemma ConnectedJoin(links: seq<Link>, x: Id, y: Id, z: Id)
    requires Connected(links, x, y) && Connected(links, y, z)
    ensures Connected(links, x, z)
  {
    var p :| Path(links, p, x, y);
    var q :| Path(links, q, y, z);
    var r := p + q[1..];
    forall i | 0 <= i < |r| - 1 ensures Hop(links, r, i) {
      if i < |p| - 1 { assert Hop(links, p, i); } else { assert Hop(links, q, i - |p| + 1); }
    }
    assert Path(links, r, x, z);
  }

  /** More links connect no less. */
  lemma ConnectedMore(few: seq<Link>, many: seq<Link>, x: Id, y: Id)
    requires forall l :: l in few ==> l in many
    requires Connected(few, x, y)
    ensures Connected(many, x, y)
  {
    var p :| Path(few, p, x, y);
    forall i | 0 <= i < |p| - 1 ensures Hop(many, p, i) {
      assert Hop(few, p, i);
    }
    assert Path(many, p, x, y);
  }

  /** Whatever is constant across links is constant across components. */
  lemma {:induction false} ConstantAlong(links: seq<Link>, tag: map<Id, Id>, p: seq<Id>, x: Id, y: Id)
    requires Path(links, p, x, y) && x in tag
    requires forall l :: l in links ==> l.a in tag && l.b in tag && tag[l.a] == tag[l.b]
    ensures y in tag && tag[x] == tag[y]
    decreases |p|
  {
    if |p| > 1 {
      var q := p[..|p| - 1];
      forall i | 0 <= i < |q| - 1 ensures Hop(links, q, i) {
        assert Hop(links, p, i);
      }
      ConstantAlong(links, tag, q, x, q[|q| - 1]);
      assert Hop(links, p, |p| - 2);
    }
  }

  /** The labels tell exactly which ids are connected. */
  ghost predicate Tags(links: seq<Link>, tag: map<Id, Id>) {
    && (forall l :: l in links ==> l.a in tag && l.b in tag)
    && (forall x, y :: x in tag && y in tag ==> (tag[x] == tag[y] <==> Connected(links, x, y)))
  }

  /** Joining the two classes of a new link keeps the labels exact. */
  lemma TagsMerge(links: seq<Link>, tag: map<Id, Id>, l: Link, merged: map<Id, Id>)
    requires Tags(links, tag) && l.a in tag && l.b in tag
    requires merged == Hang(tag, tag[l.a], tag[l.b])
    ensures Tags(links + [l], merged)
  {
    var more := links + [l];
    forall k | k in more ensures k.a in merged && k.b in merged && merged[k.a] == merged[k.b] {
      if k in links {
        ConnectedStep(links, k.a, k.b);
      }
    }
    forall x, y | x in tag && y in tag ensures merged[x] == merged[y] <==> Connected(more, x, y) {
      if Connected(more, x, y) {
        var p :| Path(more, p, x, y);
        ConstantAlong(more, merged, p, x, y);
      }
      if merged[x] == merged[y] {
        MergedConnected(links, tag, l, x, y);
      }
    }
  }

  lemma MergedConnected(links: seq<Link>, tag: map<Id, Id>, l: Link, x: Id, y: Id)
    requires Tags(links, tag) && l.a in tag && l.b in tag && x in tag && y in tag
    requires tag[x] == tag[y]
      || (tag[x] == tag[l.a] && tag[y] == tag[l.b]) || (tag[x] == tag[l.b] && tag[y] == tag[l.a])
    ensures Connected(links + [l], x, y)
  {
    var more := links + [l];
    assert Linked(more, l.a, l.b) && Linked(more, l.b, l.a);
    ConnectedStep(more, l.a, l.b);
    ConnectedStep(more, l.b, l.a);
    if tag[x] == tag[y] {
      ConnectedMore(links, more, x, y);
    } else if tag[x] == tag[l.a] {
      ConnectedMore(links, more, x, l.a);
      ConnectedMore(links, more, l.b, y);
      ConnectedJoin(more, x, l.a, l.b);
      ConnectedJoin(more, x, l.b, y);
    } else {
      ConnectedMore(links, more, x, l.b);
      ConnectedMore(links, more, l.a, y);
      ConnectedJoin(more, x, l.b, l.a);
      ConnectedJoin(more, x, l.a, y);
    }
  }

  lemma SingletonsTag(tag: map<Id, Id>)
    requires forall x :: x in tag ==> tag[x] == x
    ensures Tags([], tag)
  {
    forall x, y | x in tag && y in tag ensures tag[x] == tag[y] <==> Connected([], x, y) {
      if x == y { ConnectedSelf([], x); }
      if Connected([], x, y) {
        var p :| Path([], p, x, y);
        if |p| > 1 { assert Hop([], p, 0); }
      }
    }
  }

  /** `x` climbs, by falling rank, to a root that is its own parent. */
  ghost predicate Settled(parent: map<Id, Id>, root: map<Id, Id>, rank: map<Id, nat>, x: Id) {
    && x in parent && x in root && x in rank
    && parent[x] in parent && parent[x] in root && parent[x] in rank
    && root[x] in parent && root[x] in rank
    && parent[root[x]] == root[x]
    && root[parent[x]] == root[x]
    && (parent[x] == x ==> root[x] == x)
    && (parent[x] != x ==> rank[parent[x]] < rank[x] && rank[root[x]] < rank[x])
  }

  ghost predicate Forested(parent: map<Id, Id>, root: map<Id, Id>, rank: map<Id, nat>) {
    && parent.Keys == root.Keys == rank.Keys
    && forall x {:trigger Settled(parent, root, rank, x)} :: x in parent ==> Settled(parent, root, rank, x)
  }

  lemma At(parent: map<Id, Id>, root: map<Id, Id>, rank: map<Id, nat>, x: Id)
    requires Forested(parent, root, rank) && x in parent
    ensures Settled(parent, root, rank, x)
  {
  }

  /** Pointing an id straight at its root moves nothing else. */
  lemma CompressKeeps(parent: map<Id, Id>, root: map<Id, Id>, rank: map<Id, nat>, c: Id)
    requires Forested(parent, root, rank) && c in parent && c in root && root[c] in parent && parent[c] != root[c]
    ensures Forested(parent[c := root[c]], root, rank)
  {
    At(parent, root, rank, c);
    At(parent, root, rank, root[c]);
    forall x | x in parent ensures Settled(parent[c := root[c]], root, rank, x) {
      At(parent, root, rank, x);
      At(parent, root, rank, root[x]);
    }
  }

  /** The roots after `ra` has been hung below `rb`. */
  function Hang(root: map<Id, Id>, ra: Id, rb: Id): map<Id, Id> {
    map x | x in root :: if root[x] == ra then rb else root[x]
  }

  ghost function Lift(root: map<Id, Id>, rank: map<Id, nat>, ra: Id, rb: Id): map<Id, nat>
    requires root.Keys == rank.Keys && rb in rank
  {
    map x | x in rank :: if root[x] == ra then rank[x] + rank[rb] + 1 else rank[x]
  }

  lemma HangKeeps(parent: map<Id, Id>, root: map<Id, Id>, rank: map<Id, nat>, ra: Id, rb: Id)
    requires Forested(parent, root, rank) && ra in parent && rb in parent && ra != rb
    requires parent[ra] == ra && parent[rb] == rb
    ensures root.Keys == rank.Keys && rb in rank
    ensures Forested(parent[ra := rb], Hang(root, ra, rb), Lift(root, rank, ra, rb))
  {
    hide Settled, Hang, Lift;
    HangKeys(root, rank, ra, rb);
    forall x | x in parent ensures Settled(parent[ra := rb], Hang(root, ra, rb), Lift(root, rank, ra, rb), x) {
      HangSettles(parent, root, rank, ra, rb, x);
    }
  }

  lemma HangKeys(root: map<Id, Id>, rank: map<Id, nat>, ra: Id, rb: Id)
    requires root.Keys == rank.Keys && rb in rank
    ensures Hang(root, ra, rb).Keys == root.Keys && Lift(root, rank, ra, rb).Keys == rank.Keys
  {
  }

  /** An id of `ra`'s class now climbs to `rb`, any other as before. */
  lemma HangSettles(parent: map<Id, Id>, root: map<Id, Id>, rank: map<Id, nat>, ra: Id, rb: Id, x: Id)
    requires Forested(parent, root, rank) && ra in parent && rb in parent && ra != rb && x in parent
    requires parent[ra] == ra && parent[rb] == rb
    ensures Settled(parent[ra := rb], Hang(root, ra, rb), Lift(root, rank, ra, rb), x)
  {
    At(parent, root, rank, ra);
    At(parent, root, rank, rb);
    At(parent, root, rank, x);
    At(parent, root, rank, root[x]);
    hide Forested;
    if root[x] == ra {
      assert Hang(root, ra, rb)[x] == rb == Hang(root, ra, rb)[rb];
    } else {
      assert x != ra && parent[x] != ra;
      assert Hang(root, ra, rb)[x] == root[x];
    }
  }

  /**
   * The parent map. `root` and `rank` are the proof's own: where each id ends up, and how far it is from
   * there.
   */
  class Forest {
    var parent: map<Id, Id>
    ghost var root: map<Id, Id>
    ghost var rank: map<Id, nat>

    ghost predicate Valid()
      reads this
    {
      Forested(parent, root, rank)
    }

    constructor (ids: seq<Id>)
      ensures Valid()
      ensures parent.Keys == (set x | x in ids)
      ensures forall x :: x in root ==> root[x] == x
    {
      parent := map x | x in ids :: x;
      root := map x | x in ids :: x;
      rank := map x | x in ids :: 0;
    }

    /** Climb to the root, then point everything on the way straight at it. Roots never change. */
    method Find(x: Id) returns (r: Id)
      requires Valid() && x in parent
      modifies this`parent
      ensures Valid() && x in root
      ensures r == root[x] && r in parent && parent[r] == r
      ensures parent.Keys == old(parent.Keys)
      ensures forall y :: y in parent && y in root ==> parent[y] == old(parent[y]) || parent[y] == root[y]
    {
      hide Forested, Settled;
      r := x;
      SettledAt(x);
      while parent[r] != r
        invariant Valid() && parent == old(parent)
        invariant r in parent && r in rank && r in root && x in root && root[r] == root[x]
        decreases rank[r]
      {
        SettledAt(r);
        r := parent[r];
        SettledAt(r);
      }
      SettledAt(r);
      var c := x;
      while parent[c] != r
        invariant Valid() && c in parent && c in root && c in rank && r in parent
        invariant root[c] == r && x in root && r == root[x] && parent[r] == r
        invariant parent.Keys == old(parent.Keys)
        invariant forall y :: y in parent && y in root ==> parent[y] == old(parent[y]) || parent[y] == root[y]
        decreases rank[c]
      {
        SettledAt(c);
        var n := parent[c];
        SettledAt(n);
        CompressKeeps(parent, root, rank, c);
        parent := parent[c := r];
        c := n;
      }
    }

    lemma SettledAt(x: Id)
      requires Valid() && x in parent
      ensures x in root && x in rank && parent[x] in parent && parent[x] in root && parent[x] in rank
      ensures root[x] in parent && parent[root[x]] == root[x] && root[parent[x]] == root[x]
      ensures parent[x] == x ==> root[x] == x
      ensures parent[x] != x ==> rank[parent[x]] < rank[x]
    {
      At(parent, root, rank, x);
    }

    /** Join the classes of two ids; exactly the first one's class changes root. */
    method Union(a: Id, b: Id)
      requires Valid() && a in parent && b in parent
      modifies this
      ensures Valid()
      ensures parent.Keys == old(parent.Keys)
      ensures old(a in root && b in root)
      ensures root == Hang(old(root), old(root[a]), old(root[b]))
    {
      hide Forested, Settled;
      SettledAt(a);
      SettledAt(b);
      var ra := Find(a);
      SettledAt(ra);
      var rb := Find(b);
      HangSame(root, rb);
      if ra != rb {
        SettledAt(ra);
        SettledAt(rb);
        HangKeeps(parent, root, rank, ra, rb);
        rank := Lift(root, rank, ra, rb);
        root := Hang(root, ra, rb);
        parent := parent[ra := rb];
      }
    }
  }

  lemma HangSame(root: map<Id, Id>, r: Id)
    ensures Hang(root, r, r) == root
  {
  }
}
