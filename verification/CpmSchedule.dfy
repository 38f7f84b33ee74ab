/**
 * The forward and backward passes: the equations an early and a late schedule solve, and the loops that
 * solve them.
 */
module CpmSchedule {
  import opened Ids
  import opened PrecedenceGraph
  import opened KahnSort

  /** The four times of every scheduled activity and the project's end. */
  datatype Schedule = Schedule(
    order: seq<Id>,
    es: map<Id, real>, ef: map<Id, real>,
    ls: map<Id, real>, lf: map<Id, real>,
    end: real)

  ghost predicate ForwardAt(g: Graph, es: map<Id, real>, ef: map<Id, real>, x: Id) {
    && x in g.pred && x in g.duration
    && x in es && x in ef
    && ef[x] == es[x] + g.duration[x]
    && es[x] >= 0.0
    && (forall p :: p in g.pred[x] ==> p in ef && ef[p] <= es[x])
    && (es[x] == 0.0 || exists p :: p in g.pred[x] && p in ef && ef[p] == es[x])
  }

  ghost predicate Forward(g: Graph, order: seq<Id>, es: map<Id, real>, ef: map<Id, real>) {
    forall x {:trigger ForwardAt(g, es, ef, x)} :: x in order ==> ForwardAt(g, es, ef, x)
  }

  ghost predicate BackwardAt(g: Graph, order: seq<Id>, end: real, ls: map<Id, real>, lf: map<Id, real>, x: Id) {
    && x in g.succ && x in g.duration
    && x in ls && x in lf
    && ls[x] == lf[x] - g.duration[x]
    && lf[x] <= end
    && (forall s :: s in g.succ[x] && s in order ==> s in ls && lf[x] <= ls[s])
    && (lf[x] == end || exists s :: s in g.succ[x] && s in order && s in ls && lf[x] == ls[s])
  }

  /** The backward equations hold for the activities in `done`. */
  ghost predicate BackwardOn(g: Graph, order: seq<Id>, done: seq<Id>, end: real, ls: map<Id, real>, lf: map<Id, real>) {
    forall x {:trigger BackwardAt(g, order, end, ls, lf, x)} ::
      x in done ==> BackwardAt(g, order, end, ls, lf, x)
  }

  ghost predicate Backward(g: Graph, order: seq<Id>, end: real, ls: map<Id, real>, lf: map<Id, real>) {
    BackwardOn(g, order, order, end, ls, lf)
  }

  /** `end` is the greatest earliest finish, or zero when nothing is scheduled. */
  ghost predicate IsEnd(order: seq<Id>, ef: map<Id, real>, end: real) {
    && (forall x :: x in order ==> x in ef && ef[x] <= end)
    && (end == 0.0 || exists x :: x in order && x in ef && ef[x] == end)
    && end >= 0.0
  }

  /** Every scheduled activity has all its times. */
  ghost predicate Timed(g: Graph, s: Schedule) {
    forall x :: x in s.order ==> x in g.duration && x in s.es && x in s.ef && x in s.ls && x in s.lf
  }

  ghost predicate Solved(g: Graph, s: Schedule) {
    && Valid(g)
    && Topological(g, s.order)
    && Maximal(g, s.order)
    && Timed(g, s)
    && Forward(g, s.order, s.es, s.ef)
    && IsEnd(s.order, s.ef, s.end)
    && Backward(g, s.order, s.end, s.ls, s.lf)
  }

  // ---------------------------------------------------------------------------------------------
  // The passes

  method ForwardPass(g: Graph, order: seq<Id>) returns (es: map<Id, real>, ef: map<Id, real>)
    requires Valid(g) && Topological(g, order)
    ensures Forward(g, order, es, ef)
    ensures forall x :: x in es <==> x in order
    ensures forall x :: x in ef <==> x in order
  {
    es, ef := map[], map[];
    for i := 0 to |order|
      invariant forall x :: x in ef <==> x in order[..i]
      invariant forall x :: x in es <==> x in order[..i]
      invariant Forward(g, order[..i], es, ef)
    {
      var id := order[i];
      var start := EarliestStart(g, order, order[..i], ef, id);
      ghost var es0, ef0 := es, ef;
      es := es[id := start];
      ef := ef[id := start + g.duration[id]];
      ExtendForward(g, order, i, es0, ef0, es, ef);
    }
    assert order[..|order|] == order;
  }

  /** Max over the predecessors' earliest finishes, at least zero. */
  method EarliestStart(g: Graph, order: seq<Id>, ghost done: seq<Id>, ef: map<Id, real>, id: Id) returns (start: real)
    requires Valid(g) && id in g.pred
    requires forall p :: p in g.pred[id] ==> p in order && p in ef
    ensures start >= 0.0
    ensures forall p :: p in g.pred[id] ==> ef[p] <= start
    ensures start == 0.0 || exists p :: p in g.pred[id] && ef[p] == start
  {
    start := 0.0;
    var preds := g.pred[id];
    for k := 0 to |preds|
      invariant start >= 0.0
      invariant forall p :: p in preds[..k] ==> ef[p] <= start
      invariant start == 0.0 || exists p :: p in preds[..k] && ef[p] == start
    {
      var p := preds[k];
      assert preds[..k + 1] == preds[..k] + [p];
      if p in order {
        start := Max(start, ef[p]);
      }
    }
    assert preds[..|preds|] == preds;
  }

  lemma ExtendForward(g: Graph, order: seq<Id>, i: nat,
                      es0: map<Id, real>, ef0: map<Id, real>, es: map<Id, real>, ef: map<Id, real>)
    requires Valid(g) && Topological(g, order) && i < |order|
    requires forall x :: x in ef0 <==> x in order[..i]
    requires forall x :: x in es0 <==> x in order[..i]
    requires Forward(g, order[..i], es0, ef0)
    requires order[i] in es && order[i] in ef
    requires es == es0[order[i] := es[order[i]]] && ef == ef0[order[i] := ef[order[i]]]
    requires ef[order[i]] == es[order[i]] + g.duration[order[i]] && es[order[i]] >= 0.0
    requires forall p :: p in g.pred[order[i]] ==> p in ef0 && ef0[p] <= es[order[i]]
    requires es[order[i]] == 0.0 || exists p :: p in g.pred[order[i]] && ef0[p] == es[order[i]]
    ensures Forward(g, order[..i + 1], es, ef)
  {
    assert order[i] !in order[..i];
    assert order[..i + 1] == order[..i] + [order[i]];
    forall x | x in order[..i + 1] ensures ForwardAt(g, es, ef, x) {
      if x == order[i] {
        assert forall p :: p in g.pred[x] ==> p in order[..i];
        assert forall p :: p in g.pred[x] ==> ef[p] == ef0[p];
      } else {
        assert ForwardAt(g, es0, ef0, x);
        assert forall p :: p in g.pred[x] ==> p in ef0 && p != order[i] && ef[p] == ef0[p];
      }
    }
  }

  method ProjectEnd(order: seq<Id>, ef: map<Id, real>) returns (end: real)
    requires forall x :: x in order ==> x in ef && ef[x] >= 0.0
    ensures IsEnd(order, ef, end)
  {
    end := 0.0;
    for i := 0 to |order|
      invariant IsEnd(order[..i], ef, end)
    {
      assert order[..i + 1] == order[..i] + [order[i]];
      end := Max(end, ef[order[i]]);
    }
    assert order[..|order|] == order;
  }

  method BackwardPass(g: Graph, order: seq<Id>, end: real) returns (ls: map<Id, real>, lf: map<Id, real>)
    requires Valid(g) && Topological(g, order)
    ensures Backward(g, order, end, ls, lf)
    ensures forall x :: x in ls <==> x in order
    ensures forall x :: x in lf <==> x in order
  {
    ls, lf := map[], map[];
    var i := |order| - 1;
    while i >= 0
      invariant -1 <= i < |order|
      invariant forall x :: x in ls <==> x in order[i + 1..]
      invariant forall x :: x in lf <==> x in order[i + 1..]
      invariant BackwardOn(g, order, order[i + 1..], end, ls, lf)
    {
      var id := order[i];
      SuccessorsComeLater(g, order, i);
      var finish := LatestFinish(g, order, end, ls, id);
      ghost var ls0, lf0 := ls, lf;
      lf := lf[id := finish];
      ls := ls[id := finish - g.duration[id]];
      ExtendBackward(g, order, i, end, ls0, lf0, ls, lf);
      i := i - 1;
    }
    assert order[0..] == order;
  }

  lemma SuccessorsComeLater(g: Graph, order: seq<Id>, i: nat)
    requires Valid(g) && Topological(g, order) && i < |order|
    ensures order[i] in g.succ
    ensures forall s :: s in g.succ[order[i]] && s in order ==> s in order[i + 1..]
  {
    forall s | s in g.succ[order[i]] && s in order ensures s in order[i + 1..] {
      assert Edge(g, order[i], s);
      var j :| 0 <= j < |order| && order[j] == s;
      assert order[i] in order[..j];
      assert order[i + 1..][j - i - 1] == s;
    }
  }

  /** Min over the scheduled successors' latest starts, at most the project's end. */
  method LatestFinish(g: Graph, order: seq<Id>, end: real, ls: map<Id, real>, id: Id) returns (finish: real)
    requires Valid(g) && id in g.succ
    requires forall s :: s in g.succ[id] && s in order ==> s in ls
    ensures finish <= end
    ensures forall s :: s in g.succ[id] && s in order ==> finish <= ls[s]
    ensures finish == end || exists s :: s in g.succ[id] && s in order && ls[s] == finish
  {
    finish := end;
    var next := g.succ[id];
    for k := 0 to |next|
      invariant finish <= end
      invariant forall s :: s in next[..k] && s in order ==> finish <= ls[s]
      invariant finish == end || exists s :: s in next[..k] && s in order && ls[s] == finish
    {
      assert next[..k + 1] == next[..k] + [next[k]];
      if next[k] in order {
        finish := Min(finish, ls[next[k]]);
      }
    }
    assert next[..|next|] == next;
  }

  lemma ExtendBackward(g: Graph, order: seq<Id>, i: nat, end: real,
                       ls0: map<Id, real>, lf0: map<Id, real>, ls: map<Id, real>, lf: map<Id, real>)
    requires Valid(g) && Topological(g, order) && i < |order|
    requires forall x :: x in ls0 <==> x in order[i + 1..]
    requires forall x :: x in lf0 <==> x in order[i + 1..]
    requires BackwardOn(g, order, order[i + 1..], end, ls0, lf0)
    requires order[i] in ls && order[i] in lf
    requires ls == ls0[order[i] := ls[order[i]]] && lf == lf0[order[i] := lf[order[i]]]
    requires ls[order[i]] == lf[order[i]] - g.duration[order[i]] && lf[order[i]] <= end
    requires forall s :: s in g.succ[order[i]] && s in order ==> s in ls0 && lf[order[i]] <= ls0[s]
    requires lf[order[i]] == end || exists s :: s in g.succ[order[i]] && s in order && ls0[s] == lf[order[i]]
    ensures BackwardOn(g, order, order[i..], end, ls, lf)
    ensures forall x :: x in ls <==> x in order[i..]
    ensures forall x :: x in lf <==> x in order[i..]
  {
    assert order[i..] == [order[i]] + order[i + 1..];
    assert order[i] !in order[i + 1..];
    forall x | x in order[i..] ensures BackwardAt(g, order, end, ls, lf, x) {
      if x == order[i] {
        SuccessorsComeLater(g, order, i);
        assert forall s :: s in g.succ[x] && s in order ==> ls[s] == ls0[s];
      } else {
        assert BackwardAt(g, order, end, ls0, lf0, x);
        assert forall s :: s in g.succ[x] && s in order ==> s in ls0 && s != order[i] && ls[s] == ls0[s];
      }
    }
  }
}
