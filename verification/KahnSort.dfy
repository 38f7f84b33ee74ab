/**
 * Kahn's topological sort over mutable in-degrees and a growing queue, and what it means that it
 * stops: the order is a topological order of exactly the activities no cycle leads to.
 */
module KahnSort {
  import opened Ids
  import opened PrecedenceGraph

  /** How many of `ps` have not been processed yet. */
  function Waiting(ps: seq<Id>, done: seq<Id>): nat {
    if ps == [] then 0 else Waiting(ps[..|ps| - 1], done) + (if ps[|ps| - 1] in done then 0 else 1)
  }

  lemma {:induction false} WaitingZero(ps: seq<Id>, done: seq<Id>)
    ensures Waiting(ps, done) == 0 <==> forall p :: p in ps ==> p in done
  {
    if ps != [] {
      WaitingZero(ps[..|ps| - 1], done);
      assert ps == ps[..|ps| - 1] + [ps[|ps| - 1]];
    }
  }

  /** Processing `x` lowers the count of exactly those lists that hold it. */
  lemma {:induction false} WaitingStep(ps: seq<Id>, done: seq<Id>, x: Id)
    requires Distinct(ps) && x !in done
    ensures Waiting(ps, done) == Waiting(ps, done + [x]) + (if x in ps then 1 else 0)
  {
    if ps != [] {
      WaitingStep(ps[..|ps| - 1], done, x);
      assert ps == ps[..|ps| - 1] + [ps[|ps| - 1]];
    }
  }

  lemma {:induction false} WaitingNothingDone(ps: seq<Id>)
    ensures Waiting(ps, []) == |ps|
  {
    if ps != [] {
      WaitingNothingDone(ps[..|ps| - 1]);
    }
  }

  /** A duplicate-free order in which every predecessor of an activity comes first. */
  ghost predicate Topological(g: Graph, order: seq<Id>) {
    && Distinct(order)
    && (forall i :: 0 <= i < |order| ==> order[i] in g.pred)
    && (forall i, p :: 0 <= i < |order| && p in g.pred[order[i]] ==> p in order[..i])
  }

  /** Whatever is left out waits for something else that is left out. */
  ghost predicate Maximal(g: Graph, order: seq<Id>) {
    forall x {:trigger Blocked(g, order, x)} :: x in g.pred && x !in order ==> Blocked(g, order, x)
  }

  ghost predicate Blocked(g: Graph, order: seq<Id>, x: Id) {
    x in g.pred && exists p :: p in g.pred[x] && p !in order
  }

  ghost predicate AllDone(g: Graph, x: Id, done: seq<Id>) {
    x in g.pred && forall p :: p in g.pred[x] ==> p in done
  }

  /** Those of `next` that wait for nothing outside `done`. */
  ghost function Ready(g: Graph, done: seq<Id>, next: seq<Id>): seq<Id> {
    if next == [] then []
    else
      var last := next[|next| - 1];
      Ready(g, done, next[..|next| - 1]) + if AllDone(g, last, done) then [last] else []
  }

  /** What has been queued once `n` ids of `order` have been taken: what was free, then what each one released. */
  ghost function Enqueued(g: Graph, order: seq<Id>, n: nat): seq<Id>
    requires n <= |order|
  {
    if n == 0 then Ready(g, [], g.ids)
    else
      var id := order[n - 1];
      Enqueued(g, order, n - 1) + Ready(g, order[..n], if id in g.succ then g.succ[id] else [])
  }

  /** First in, first out. */
  ghost predicate Fifo(g: Graph, order: seq<Id>) {
    order == Enqueued(g, order, |order|)
  }

  /** The state of the queue and the in-degrees; `k` successors of the last processed id are still pending. */
  ghost predicate InDegrees(g: Graph, indeg: map<Id, int>, order: seq<Id>, pending: seq<Id>) {
    && (forall x :: x in g.pred <==> x in indeg)
    && (forall x :: x in g.pred ==>
          indeg[x] == Waiting(g.pred[x], order) + (if x in pending then 1 else 0))
  }

  ghost predicate Queued(g: Graph, indeg: map<Id, int>, queue: seq<Id>) {
    && Distinct(queue)
    && (forall x :: x in queue ==> x in g.pred)
    && (forall x :: x in g.pred ==> x in indeg && (x in queue <==> indeg[x] == 0))
  }

  method InitialQueue(g: Graph) returns (indeg: map<Id, int>, queue: seq<Id>)
    requires Valid(g)
    ensures InDegrees(g, indeg, [], [])
    ensures Queued(g, indeg, queue)
    ensures queue == Ready(g, [], g.ids)
  {
    indeg := map x | x in g.pred :: |g.pred[x]|;
    forall x | x in g.pred ensures Waiting(g.pred[x], []) == |g.pred[x]| {
      WaitingNothingDone(g.pred[x]);
    }
    queue := FreeIds(g, indeg);
  }

  method FreeIds(g: Graph, indeg: map<Id, int>) returns (queue: seq<Id>)
    requires Valid(g) && forall x :: x in g.pred ==> x in indeg && indeg[x] == |g.pred[x]|
    ensures Distinct(queue) && forall x :: x in queue <==> x in g.pred && indeg[x] == 0
    ensures queue == Ready(g, [], g.ids)
  {
    hide AllDone, Distinct;
    queue := [];
    for i := 0 to |g.ids|
      invariant queue == Ready(g, [], g.ids[..i])
    {
      assert g.ids[..i + 1][..i] == g.ids[..i];
      FreeAtFirst(g, g.ids[i]);
      if indeg[g.ids[i]] == 0 {
        queue := queue + [g.ids[i]];
      }
    }
    assert g.ids[..|g.ids|] == g.ids;
    ReadyMembers(g, [], g.ids);
    ReadyDistinct(g, [], g.ids);
    forall x | x in g.pred ensures AllDone(g, x, []) <==> indeg[x] == 0 { FreeAtFirst(g, x); }
    hide Ready;
  }

  lemma FreeAtFirst(g: Graph, x: Id)
    requires x in g.pred
    ensures AllDone(g, x, []) <==> |g.pred[x]| == 0
  {
    if g.pred[x] != [] { assert g.pred[x][0] in g.pred[x]; }
  }

  lemma {:induction false} ReadyDistinct(g: Graph, done: seq<Id>, next: seq<Id>)
    requires Distinct(next)
    ensures Distinct(Ready(g, done, next))
    decreases |next|
  {
    hide AllDone;
    if next != [] {
      var front, last := next[..|next| - 1], next[|next| - 1];
      ReadyDistinct(g, done, front);
      ReadyMembers(g, done, front);
      assert last !in front;
    }
  }

  /** Release the successors of `id`, which has just been appended to `order`. */
  method Release(g: Graph, indeg0: map<Id, int>, queue0: seq<Id>, ghost order: seq<Id>, id: Id)
    returns (indeg: map<Id, int>, queue: seq<Id>)
    requires Valid(g) && id in g.succ
    requires InDegrees(g, indeg0, order, g.succ[id])
    requires Queued(g, indeg0, queue0)
    ensures InDegrees(g, indeg, order, [])
    ensures Queued(g, indeg, queue)
    ensures queue == queue0 + Ready(g, order, g.succ[id])
  {
    hide Valid, InDegrees, Queued, AllDone;
    indeg, queue := indeg0, queue0;
    var next := g.succ[id];
    assert next[0..] == next;
    for k := 0 to |next|
      invariant InDegrees(g, indeg, order, next[k..])
      invariant Queued(g, indeg, queue)
      invariant queue == queue0 + Ready(g, order, next[..k])
    {
      var s := next[k];
      assert next[..k + 1][..k] == next[..k];
      ReleaseOne(g, indeg, queue, order, id, k);
      indeg := Lower(indeg, s);
      FreeIffDone(g, indeg, order, id, k);
      if indeg[s] == 0 {
        queue := queue + [s];
      }
    }
    assert next[|next|..] == [] && next[..|next|] == next;
  }

  lemma FreeIffDone(g: Graph, indeg: map<Id, int>, order: seq<Id>, id: Id, k: nat)
    requires Valid(g) && id in g.succ && k < |g.succ[id]|
    requires InDegrees(g, indeg, order, g.succ[id][k + 1..])
    ensures g.succ[id][k] in indeg
    ensures indeg[g.succ[id][k]] == 0 <==> AllDone(g, g.succ[id][k], order)
  {
    var next := g.succ[id];
    assert Edge(g, id, next[k]);
    assert next[k] !in next[k + 1..];
    WaitingZero(g.pred[next[k]], order);
  }

  lemma ReleaseOne(g: Graph, indeg: map<Id, int>, queue: seq<Id>, order: seq<Id>, id: Id, k: nat)
    requires Valid(g) && id in g.succ && k < |g.succ[id]|
    requires InDegrees(g, indeg, order, g.succ[id][k..])
    requires Queued(g, indeg, queue)
    ensures g.succ[id][k] in indeg
    ensures InDegrees(g, Lower(indeg, g.succ[id][k]), order, g.succ[id][k + 1..])
    ensures Queued(g, Lower(indeg, g.succ[id][k]),
                   if indeg[g.succ[id][k]] == 1 then queue + [g.succ[id][k]] else queue)
  {
    hide Valid, InDegrees, Queued;
    LoweredDegrees(g, indeg, order, id, k);
    LoweredQueue(g, indeg, queue, g.succ[id][k]);
  }

  lemma LoweredDegrees(g: Graph, indeg: map<Id, int>, order: seq<Id>, id: Id, k: nat)
    requires Valid(g) && id in g.succ && k < |g.succ[id]|
    requires InDegrees(g, indeg, order, g.succ[id][k..])
    ensures g.succ[id][k] in indeg && g.succ[id][k] in g.pred && indeg[g.succ[id][k]] >= 1
    ensures InDegrees(g, Lower(indeg, g.succ[id][k]), order, g.succ[id][k + 1..])
  {
    var next := g.succ[id];
    assert Edge(g, id, next[k]);
    assert next[k..] == [next[k]] + next[k + 1..];
    assert next[k] !in next[k + 1..];
  }

  lemma LoweredQueue(g: Graph, indeg: map<Id, int>, queue: seq<Id>, s: Id)
    requires Queued(g, indeg, queue) && s in indeg && s in g.pred && indeg[s] >= 1
    ensures Queued(g, Lower(indeg, s), if indeg[s] == 1 then queue + [s] else queue)
  {
  }

  function Lower(indeg: map<Id, int>, s: Id): map<Id, int>
    requires s in indeg
  {
    indeg[s := indeg[s] - 1]
  }

  method Sort(g: Graph) returns (order: seq<Id>)
    requires Valid(g)
    ensures Topological(g, order)
    ensures Maximal(g, order)
    ensures Fifo(g, order)
  {
    hide Valid, InDegrees, Queued, Topological, Ready, AllDone;
    var indeg, queue := InitialQueue(g);
    order := [];
    EmptyOrder(g);
    var head := 0;
    while head < |queue|
      invariant 0 <= head <= |queue|
      invariant order == queue[..head]
      invariant InDegrees(g, indeg, order, [])
      invariant Queued(g, indeg, queue)
      invariant Topological(g, order)
      invariant queue == Enqueued(g, order, |order|)
      decreases |g.ids| - head
    {
      var id := queue[head];
      head := head + 1;
      NextInQueue(g, indeg, queue, head - 1);
      ProcessNext(g, indeg, order, id);
      EnqueuedAgrees(g, order, order + [id], |order|);
      order := order + [id];
      assert order[..|order|] == order;
      indeg, queue := Release(g, indeg, queue, order, id);
    }
    assert order == queue;
    Exhausted(g, indeg, order);
  }

  /** Only what was taken so far decides what was queued so far. */
  lemma {:induction false} EnqueuedAgrees(g: Graph, a: seq<Id>, b: seq<Id>, n: nat)
    requires n <= |a| && n <= |b| && a[..n] == b[..n]
    ensures Enqueued(g, a, n) == Enqueued(g, b, n)
    decreases n
  {
    hide Ready;
    if n > 0 {
      assert a[..n - 1] == a[..n][..n - 1] && b[..n - 1] == b[..n][..n - 1] && a[n - 1] == a[..n][n - 1] && b[n - 1] == b[..n][n - 1];
      EnqueuedAgrees(g, a, b, n - 1);
    }
  }

  lemma {:induction false} EnqueuedGrows(g: Graph, order: seq<Id>, m: nat, n: nat)
    requires m <= n <= |order|
    ensures Enqueued(g, order, m) <= Enqueued(g, order, n)
    decreases n
  {
    hide Ready;
    if m < n { EnqueuedGrows(g, order, m, n - 1); }
  }

  lemma {:induction false} ReadyMembers(g: Graph, done: seq<Id>, next: seq<Id>)
    ensures forall x :: x in Ready(g, done, next) <==> x in next && AllDone(g, x, done)
    decreases |next|
  {
    hide AllDone;
    if next != [] {
      ReadyMembers(g, done, next[..|next| - 1]);
      assert next == next[..|next| - 1] + [next[|next| - 1]];
    }
  }

  /** While ids are left in the order, the queue is ahead of what was taken from it. */
  lemma QueueIsAhead(g: Graph, order: seq<Id>, n: nat)
    requires Valid(g) && Topological(g, order) && Fifo(g, order) && n < |order|
    ensures n < |Enqueued(g, order, n)|
  {
    var m := |Enqueued(g, order, n)|;
    EnqueuedGrows(g, order, n, |order|);
    if m <= n {
      var k := ReleasedAt(g, order, n, |order|, m);
      ReleasedLater(g, order, m, k);
    }
  }

  /** The step at which the id at position `m` was queued. */
  lemma {:induction false} ReleasedAt(g: Graph, order: seq<Id>, n: nat, last: nat, m: nat) returns (k: nat)
    requires n <= last <= |order| && |Enqueued(g, order, n)| <= m < |Enqueued(g, order, last)|
    ensures n < k <= last && order[k - 1] in g.succ
    ensures Enqueued(g, order, last)[m] in g.succ[order[k - 1]]
    decreases last
  {
    hide Enqueued;
    ReleasedLast(g, order, last, m);
    if m < |Enqueued(g, order, last - 1)| {
      k := ReleasedAt(g, order, n, last - 1, m);
    } else {
      k := last;
    }
  }

  /** What a step adds to the queue are successors of the id it takes. */
  lemma ReleasedLast(g: Graph, order: seq<Id>, last: nat, m: nat)
    requires last <= |order| && m < |Enqueued(g, order, last)|
    ensures last > 0 && m < |Enqueued(g, order, last - 1)| ==> Enqueued(g, order, last)[m] == Enqueued(g, order, last - 1)[m]
    ensures last > 0 && m >= |Enqueued(g, order, last - 1)| ==>
      order[last - 1] in g.succ && Enqueued(g, order, last)[m] in g.succ[order[last - 1]]
  {
    hide Ready, AllDone;
    if last > 0 && m >= |Enqueued(g, order, last - 1)| {
      var id := order[last - 1];
      var next := if id in g.succ then g.succ[id] else [];
      ReadyMembers(g, order[..last], next);
      var released := Ready(g, order[..last], next);
      assert Enqueued(g, order, last)[m] == released[m - |Enqueued(g, order, last - 1)|];
      assert Enqueued(g, order, last)[m] in released;
    }
  }

  /** An id comes after the one that releases it. */
  lemma ReleasedLater(g: Graph, order: seq<Id>, m: nat, k: nat)
    requires Valid(g) && Topological(g, order) && k <= |order| && m < |order|
    requires k > 0 && order[k - 1] in g.succ && order[m] in g.succ[order[k - 1]]
    ensures k <= m
  {
    assert Edge(g, order[k - 1], order[m]);
    assert order[k - 1] in order[..m];
  }

  /** There is only one first-in-first-out order. */
  lemma FifoIsUnique(g: Graph, a: seq<Id>, b: seq<Id>)
    requires Valid(g) && Topological(g, a) && Topological(g, b) && Fifo(g, a) && Fifo(g, b)
    ensures a == b
  {
    hide Topological, Valid;
    if |a| <= |b| { FifoPrefix(g, a, b, |a|); } else { FifoPrefix(g, b, a, |b|); }
    if |a| < |b| { QueueIsAhead(g, b, |a|); EnqueuedAgrees(g, a, b, |a|); }
    if |b| < |a| { QueueIsAhead(g, a, |b|); EnqueuedAgrees(g, b, a, |b|); }
    assert a[..|a|] == a && b[..|b|] == b;
  }

  lemma FifoAt(g: Graph, order: seq<Id>, n: nat)
    requires Valid(g) && Topological(g, order) && Fifo(g, order) && n < |order|
    ensures n < |Enqueued(g, order, n)| && order[n] == Enqueued(g, order, n)[n]
  {
    hide Topological, Valid, Enqueued;
    QueueIsAhead(g, order, n);
    EnqueuedGrows(g, order, n, |order|);
  }

  lemma {:induction false} FifoPrefix(g: Graph, a: seq<Id>, b: seq<Id>, n: nat)
    requires Valid(g) && Topological(g, a) && Topological(g, b) && Fifo(g, a) && Fifo(g, b) && n <= |a| && n <= |b|
    ensures a[..n] == b[..n]
    decreases n
  {
    hide Topological, Valid, Fifo, Enqueued;
    if n > 0 {
      FifoPrefix(g, a, b, n - 1);
      EnqueuedAgrees(g, a, b, n - 1);
      FifoAt(g, a, n - 1);
      FifoAt(g, b, n - 1);
      assert a[..n] == a[..n - 1] + [a[n - 1]] && b[..n] == b[..n - 1] + [b[n - 1]];
    }
  }

  lemma EmptyOrder(g: Graph)
    ensures Topological(g, [])
  {
  }

  lemma NextInQueue(g: Graph, indeg: map<Id, int>, queue: seq<Id>, head: nat)
    requires Valid(g) && Queued(g, indeg, queue) && head < |queue|
    ensures |queue| <= |g.ids|
    ensures queue[head] in g.pred && queue[head] in g.succ && queue[head] !in queue[..head]
    ensures queue[head] in indeg && indeg[queue[head]] == 0
    ensures queue[..head] + [queue[head]] == queue[..head + 1]
  {
    QueueBound(g, queue);
  }

  /** Taking an id with no waiting predecessor off the queue keeps the order topological. */
  lemma ProcessNext(g: Graph, indeg: map<Id, int>, order: seq<Id>, id: Id)
    requires Valid(g) && InDegrees(g, indeg, order, []) && Topological(g, order)
    requires id in g.pred && id !in order && id in indeg && indeg[id] == 0 && id in g.succ
    ensures Topological(g, order + [id])
    ensures InDegrees(g, indeg, order + [id], g.succ[id])
  {
    WaitingZero(g.pred[id], order);
    forall x | x in g.pred
      ensures Waiting(g.pred[x], order) == Waiting(g.pred[x], order + [id]) + (if x in g.succ[id] then 1 else 0)
    {
      assert x in g.succ[id] <==> Edge(g, id, x);
      WaitingStep(g.pred[x], order, id);
    }
    var longer := order + [id];
    forall i, p | 0 <= i < |longer| && p in g.pred[longer[i]] ensures p in longer[..i] {
      assert longer[..i] == order[..i];
    }
  }

  lemma Exhausted(g: Graph, indeg: map<Id, int>, order: seq<Id>)
    requires InDegrees(g, indeg, order, []) && Queued(g, indeg, order)
    ensures Maximal(g, order)
  {
    forall x | x in g.pred && x !in order ensures Blocked(g, order, x) {
      WaitingZero(g.pred[x], order);
    }
  }

  lemma QueueBound(g: Graph, queue: seq<Id>)
    requires Valid(g) && Distinct(queue)
    requires forall x :: x in queue ==> x in g.pred
    ensures |queue| <= |g.ids|
  {
    var u := set x | x in g.ids;
    DistinctCardinality(g.ids);
    DistinctBound(queue, u);
  }

  // ---------------------------------------------------------------------------------------------
  // What the order leaves out

  /** A walk that ends on a scheduled activity climbs through the order, so it never repeats. */
  lemma {:induction false} ScheduledWalkClimbs(g: Graph, order: seq<Id>, p: seq<Id>, k: nat)
    requires Valid(g) && Topological(g, order)
    requires Walk(g, p) && k < |order| && p[|p| - 1] == order[k]
    ensures forall i :: 0 <= i < |p| - 1 ==> p[i] in order[..k]
    decreases |p|
  {
    if |p| > 1 {
      var q := p[..|p| - 1];
      WalkPrefix(g, p, |p| - 1);
      assert Link(g, p, |p| - 2);
      assert Edge(g, q[|q| - 1], order[k]);
      var j :| 0 <= j < k && order[j] == q[|q| - 1];
      ScheduledWalkClimbs(g, order, q, j);
      forall i | 0 <= i < |p| - 1 ensures p[i] in order[..k] {
        assert p[i] == q[i];
        assert order[..j] <= order[..k];
      }
    }
  }

  lemma ScheduledIsFreeOfCycles(g: Graph, order: seq<Id>, x: Id)
    requires Valid(g) && Topological(g, order) && x in order
    ensures !InOrAfterCycle(g, x)
  {
    forall c, p | Cycle(g, c) && WalkBetween(g, p, c[0], x) ensures false {
      NoCycleIntoOrder(g, order, c, p, x);
    }
  }

  lemma NoCycleIntoOrder(g: Graph, order: seq<Id>, c: seq<Id>, p: seq<Id>, x: Id)
    requires Valid(g) && Topological(g, order) && Cycle(g, c)
    requires WalkBetween(g, p, c[0], x)
    ensures x !in order
  {
    if x in order {
      var k :| 0 <= k < |order| && order[k] == x;
      ScheduledWalkClimbs(g, order, p, k);
      assert c[0] in order by {
        if |p| > 1 { assert p[0] in order[..k]; }
      }
      var j :| 0 <= j < |order| && order[j] == c[0];
      ScheduledWalkClimbs(g, order, c, j);
      assert false;
    }
  }

  /** A walk whose first activity comes back later contains a cycle that leads to its end. */
  lemma RepeatClosesCycle(g: Graph, q: seq<Id>, i: nat)
    requires Valid(g) && Walk(g, q) && 0 < i < |q| && q[i] == q[0]
    ensures InOrAfterCycle(g, q[|q| - 1])
  {
    var c := q[..i + 1];
    WalkPrefix(g, q, i + 1);
    assert Cycle(g, c);
    assert WalkBetween(g, q, c[0], q[|q| - 1]);
  }

  /** Walking backwards among left-out activities must close a cycle. */
  lemma {:induction false} BackwardsIntoCycle(g: Graph, order: seq<Id>, p: seq<Id>)
    requires Valid(g) && Maximal(g, order)
    requires Walk(g, p) && Distinct(p) && p[0] !in order
    ensures InOrAfterCycle(g, p[|p| - 1])
    decreases |g.ids| - |p|
  {
    assert Blocked(g, order, p[0]);
    var y :| y in g.pred[p[0]] && y !in order;
    assert Edge(g, y, p[0]);
    var q := [y] + p;
    WalkPrepend(g, y, p);
    if y in p {
      var i :| 0 <= i < |p| && p[i] == y;
      RepeatClosesCycle(g, q, i + 1);
    } else {
      WalkBound(g, q);
      BackwardsIntoCycle(g, order, q);
    }
  }

  lemma WalkBound(g: Graph, p: seq<Id>)
    requires Valid(g) && Walk(g, p) && Distinct(p)
    ensures |p| <= |g.ids|
  {
    forall x | x in p ensures x in g.pred {
      var i :| 0 <= i < |p| && p[i] == x;
      WalkInIds(g, p, i);
    }
    QueueBound(g, p);
  }

  /** Kahn's loop leaves out exactly the activities on or after a cycle. */
  lemma UnscheduledIffCycle(g: Graph, order: seq<Id>, x: Id)
    requires Valid(g) && Topological(g, order) && Maximal(g, order) && x in g.ids
    ensures x !in order <==> InOrAfterCycle(g, x)
  {
    if x in order {
      ScheduledIsFreeOfCycles(g, order, x);
    } else {
      BackwardsIntoCycle(g, order, [x]);
    }
  }

  /** Comparing lengths detects cycles: the order is short exactly when the graph has one. */
  lemma ShortOrderIffCycle(g: Graph, order: seq<Id>)
    requires Valid(g) && Topological(g, order) && Maximal(g, order)
    ensures |order| < |g.ids| <==> exists c :: Cycle(g, c)
  {
    QueueBound(g, order);
    if |order| < |g.ids| {
      if forall x :: x in g.ids ==> x in order {
        QueueBound(g, order);
        DistinctBound(g.ids, set x | x in order);
        DistinctCardinality(order);
      }
      var x :| x in g.ids && x !in order;
      UnscheduledIffCycle(g, order, x);
    }
    if exists c :: Cycle(g, c) {
      var c :| Cycle(g, c);
      assert WalkBetween(g, c, c[0], c[|c| - 1]);
      WalkInIds(g, c, |c| - 1);
      UnscheduledIffCycle(g, order, c[|c| - 1]);
      if |order| == |g.ids| {
        DistinctCovers(order, g.ids);
      }
    }
  }
}
