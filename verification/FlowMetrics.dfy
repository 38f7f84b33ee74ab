/** The delivery-flow series over the caller's boundaries. */
module FlowMetrics {
  import opened Options
  import opened Ids
  import opened Rounding
  import opened Sorting
  import opened FlowLanes

  /** An item record, its status already classified and its numbers already finite. */
  datatype Item = Item(cancelled: bool, createdAt: Option<real>, startedAt: Option<real>, completedAt: Option<real>, points: real)

  datatype Point = Point(
    period: real, scope: real, completed: real, remaining: real, ideal: real,
    backlog: real, active: real, done: real, throughput: real)

  datatype Summary = Summary(
    totalScope: real, totalCompleted: real, remaining: real, throughputTotal: real,
    meanThroughput: real, percentComplete: Option<real>)

  datatype Flow = Flow(points: seq<Point>, summary: Summary)

  predicate RealLess(a: real, b: real) {
    a < b
  }

  /** The boundaries given, once each and ascending. */
  ghost predicate BoundariesOf(ps: seq<real>, periods: seq<real>) {
    Increasing(ps) && forall t :: t in ps <==> t in periods
  }

  method Boundaries(periods: seq<real>) returns (ps: seq<real>)
    ensures BoundariesOf(ps, periods)
  {
    var once: seq<real> := [];
    for i := 0 to |periods|
      invariant Distinct(once) && forall t :: t in once <==> t in periods[..i]
    {
      assert periods[..i + 1] == periods[..i] + [periods[i]];
      once := AddOnce(once, periods[i]);
    }
    assert periods[..|periods|] == periods;
    ps := Sort(RealLess, once);
    hide Sort, Distinct;
    SortMembers(RealLess, once);
    SortSorts(RealLess, once);
    SortedIncreases(ps);
  }

  lemma SortedIncreases(ps: seq<real>)
    requires StrictlySorted(RealLess, ps)
    ensures Increasing(ps)
  {
    forall i, j | 0 <= i < j < |ps| ensures ps[i] < ps[j] { assert RealLess(ps[i], ps[j]); }
  }

  function Measure(it: Item, byPoints: bool): real {
    if !byPoints then 1.0 else if it.points < 0.0 then 0.0 else it.points
  }

  /** The items that count: cancelled ones leave scope entirely. */
  function Resolved(items: seq<Item>, byPoints: bool): (r: seq<Work>)
    ensures NoneNegative(r)
  {
    if items == [] then []
    else
      var it := items[|items| - 1];
      Resolved(items[..|items| - 1], byPoints)
      + if it.cancelled then [] else [Work(it.createdAt, it.startedAt, it.completedAt, Measure(it, byPoints))]
  }

  method ResolveItems(items: seq<Item>, byPoints: bool) returns (ws: seq<Work>)
    ensures ws == Resolved(items, byPoints)
  {
    ws := [];
    for i := 0 to |items|
      invariant ws == Resolved(items[..i], byPoints)
    {
      var it := items[i];
      assert items[..i + 1][..i] == items[..i];
      if !it.cancelled {
        ws := ws + [Work(it.createdAt, it.startedAt, it.completedAt, if byPoints then (if it.points < 0.0 then 0.0 else it.points) else 1.0)];
      }
    }
    assert items[..|items|] == items;
  }

  function Portion(x: real, part: real, of: real): real
    requires of > 0.0
  {
    x * part / of
  }

  /** The ideal line falls from the opening scope to zero. */
  function Ideal(opening: real, span: nat, i: nat): real {
    if span == 0 then 0.0 else Round2(Portion(opening, (span - i) as real, span as real))
  }

  function PointOf(ws: seq<Work>, ps: seq<real>, i: nat): Point
    requires i < |ps|
  {
    var t := ps[i];
    Point(t, Round2(Scope(ws, t)), Round2(Done(ws, t)), Round2(Scope(ws, t) - Done(ws, t)),
          Ideal(Scope(ws, ps[0]), |ps| - 1, i),
          Round2(Backlog(ws, t)), Round2(Active(ws, t)), Round2(Done(ws, t)), Round2(Throughput(ws, Previous(ps, i), t)))
  }

  datatype Lanes = Lanes(scope: real, done: real, active: real, backlog: real, throughput: real)

  /** The inner loop: one pass over the items for one boundary. */
  method Reconstruct(ws: seq<Work>, previous: Option<real>, t: real) returns (l: Lanes)
    ensures l == Lanes(Scope(ws, t), Done(ws, t), Active(ws, t), Backlog(ws, t), Throughput(ws, previous, t))
  {
    var scope, done, active, backlog, throughput := 0.0, 0.0, 0.0, 0.0, 0.0;
    for k := 0 to |ws|
      invariant scope == Scope(ws[..k], t) && done == Done(ws[..k], t) && active == Active(ws[..k], t)
      invariant backlog == Backlog(ws[..k], t) && throughput == Throughput(ws[..k], previous, t)
    {
      var w := ws[k];
      assert ws[..k + 1][..k] == ws[..k];
      var inScope := w.createdAt.None? || w.createdAt.value <= t;
      if !inScope { continue; }
      scope := scope + w.measure;
      if w.completedAt.Some? && w.completedAt.value <= t {
        done := done + w.measure;
        if previous.None? || w.completedAt.value > previous.value { throughput := throughput + w.measure; }
      } else if w.startedAt.Some? && w.startedAt.value <= t {
        active := active + w.measure;
      } else {
        backlog := backlog + w.measure;
      }
    }
    assert ws[..|ws|] == ws;
    return Lanes(scope, done, active, backlog, throughput);
  }

  function ThroughputShown(points: seq<Point>): real {
    if points == [] then 0.0 else ThroughputShown(points[..|points| - 1]) + points[|points| - 1].throughput
  }

  function Percent(completed: real, scope: real): Option<real> {
    if scope > 0.0 then Some(Round1(completed / scope * 100.0)) else None
  }

  function SummaryOf(points: seq<Point>): Summary {
    if points == [] then Summary(0.0, 0.0, 0.0, 0.0, 0.0, None)
    else
      var last, total := points[|points| - 1], ThroughputShown(points);
      Summary(last.scope, last.completed, Round2(last.scope - last.completed), Round2(total),
              Round2(total / |points| as real), Percent(last.completed, last.scope))
  }

  /** The series over the boundaries `ps`, one point each. */
  ghost predicate SeriesOf(r: Flow, ps: seq<real>, items: seq<Item>, byPoints: bool) {
    && |r.points| == |ps|
    && (forall i :: 0 <= i < |ps| ==> r.points[i] == PointOf(Resolved(items, byPoints), ps, i))
    && r.summary == SummaryOf(r.points)
  }

  method ComputeFlowMetrics(items: seq<Item>, periods: seq<real>, byPoints: bool) returns (r: Flow, ghost ps: seq<real>)
    ensures BoundariesOf(ps, periods)
    ensures SeriesOf(r, ps, items, byPoints)
  {
    hide Round2, Round1, BoundariesOf, Resolved, Scope, Done, Active, Backlog, Throughput;
    var boundaries := Boundaries(periods);
    ps := boundaries;
    if boundaries == [] { return Flow([], Summary(0.0, 0.0, 0.0, 0.0, 0.0, None)), ps; }
    var ws := ResolveItems(items, byPoints);
    var points: seq<Point> := [];
    var openingScope := 0.0;
    for i := 0 to |boundaries|
      invariant |points| == i && (i > 0 ==> openingScope == Scope(ws, boundaries[0]))
      invariant forall j :: 0 <= j < i ==> points[j] == PointOf(ws, boundaries, j)
    {
      var t := boundaries[i];
      var l := Reconstruct(ws, if i > 0 then Some(boundaries[i - 1]) else None, t);
      if i == 0 { openingScope := l.scope; }
      points := points + [Point(t, Round2(l.scope), Round2(l.done), Round2(l.scope - l.done),
                                Ideal(openingScope, |boundaries| - 1, i),
                                Round2(l.backlog), Round2(l.active), Round2(l.done), Round2(l.throughput))];
    }
    var total := TotalThroughput(points);
    var last := points[|points| - 1];
    r := Flow(points, Summary(last.scope, last.completed, Round2(last.scope - last.completed), Round2(total),
                              Round2(total / |points| as real), Percent(last.completed, last.scope)));
  }

  method TotalThroughput(points: seq<Point>) returns (total: real)
    ensures total == ThroughputShown(points)
  {
    total := 0.0;
    for i := 0 to |points|
      invariant total == ThroughputShown(points[..i])
    {
      assert points[..i + 1][..i] == points[..i];
      total := total + points[i].throughput;
    }
    assert points[..|points|] == points;
  }

  // ---------------------------------------------------------------------------------------------
  // What the series shows

  /** Scope and completed never fall from point to point, and completed never exceeds scope. */
  lemma SeriesGrows(ws: seq<Work>, ps: seq<real>, i: nat, j: nat)
    requires NoneNegative(ws) && Increasing(ps) && i <= j < |ps|
    ensures PointOf(ws, ps, i).scope <= PointOf(ws, ps, j).scope
    ensures PointOf(ws, ps, i).completed <= PointOf(ws, ps, j).completed <= PointOf(ws, ps, j).scope
  {
    assert i < j ==> ps[i] < ps[j];
    LanesGrow(ws, ps[i], ps[j]);
    LanesGrow(ws, ps[j], ps[j]);
    Round2Monotone(Scope(ws, ps[i]), Scope(ws, ps[j]));
    Round2Monotone(Done(ws, ps[i]), Done(ws, ps[j]));
    Round2Monotone(Done(ws, ps[j]), Scope(ws, ps[j]));
  }

  ghost predicate Hundredths(x: real) {
    Whole(x * 100.0)
  }

  ghost predicate WholeHundredths(ws: seq<Work>) {
    forall w :: w in ws ==> Hundredths(w.measure)
  }

  /** When measures come in hundredths, as counts do, nothing is rounded and the shown lanes make up the shown scope. */
  lemma ShownLanesMakeScope(ws: seq<Work>, ps: seq<real>, i: nat)
    requires i < |ps| && WholeHundredths(ws)
    ensures var p := PointOf(ws, ps, i);
            && p.scope == p.backlog + p.active + p.done
            && p.remaining == p.scope - p.completed == p.backlog + p.active
            && p.scope == Scope(ws, ps[i]) && p.done == Done(ws, ps[i])
  {
    var t := ps[i];
    LanesMakeScope(ws, t);
    LanesInHundredths(ws, t);
    hide Hundredths, Round2, Scope, Done, Active, Backlog;
    HundredthsStay(Scope(ws, t));
    HundredthsStay(Done(ws, t));
    HundredthsStay(Active(ws, t));
    HundredthsStay(Backlog(ws, t));
    HundredthsAdd(Backlog(ws, t), Active(ws, t));
    HundredthsStay(Backlog(ws, t) + Active(ws, t));
  }

  lemma HundredthsStay(x: real)
    requires Hundredths(x)
    ensures Round2(x) == x
  {
    RoundWhole((x * 100.0).Floor);
  }

  lemma HundredthsAdd(x: real, y: real)
    requires Hundredths(x) && Hundredths(y)
    ensures Hundredths(x + y)
  {
    var m, n := (x * 100.0).Floor, (y * 100.0).Floor;
    assert (x + y) * 100.0 == (m + n) as real;
  }

  lemma {:induction false} LanesInHundredths(ws: seq<Work>, t: real)
    requires WholeHundredths(ws)
    ensures Hundredths(Scope(ws, t)) && Hundredths(Done(ws, t)) && Hundredths(Active(ws, t)) && Hundredths(Backlog(ws, t))
    decreases |ws|
  {
    if ws == [] {
      assert Hundredths(0.0);
    } else {
      var front, w := ws[..|ws| - 1], ws[|ws| - 1];
      assert w in ws;
      LanesInHundredths(front, t);
      assert Hundredths(0.0);
      hide Hundredths;
      HundredthsAdd(Scope(front, t), If(InScope(w, t), w.measure));
      HundredthsAdd(Done(front, t), If(IsDone(w, t), w.measure));
      HundredthsAdd(Active(front, t), If(IsActive(w, t), w.measure));
      HundredthsAdd(Backlog(front, t), If(IsBacklog(w, t), w.measure));
    }
  }

  /** The ideal line starts at the opening scope, ends at zero and never rises. */
  lemma IdealFalls(opening: real, span: nat, i: nat, j: nat)
    requires opening >= 0.0 && i <= j <= span && span > 0
    ensures Ideal(opening, span, 0) == Round2(opening) && Ideal(opening, span, span) == 0.0
    ensures Ideal(opening, span, j) <= Ideal(opening, span, i)
  {
    var s := span as real;
    hide Portion, Round2;
    Portions(opening, (span - j) as real, (span - i) as real, s);
    Round2Monotone(Portion(opening, (span - j) as real, s), Portion(opening, (span - i) as real, s));
    Round2OfZero();
  }

  lemma Round2OfZero()
    ensures Round2(0.0) == 0.0
  {
    RoundWhole(0);
  }

  lemma Portions(x: real, a: real, b: real, s: real)
    requires x >= 0.0 && s > 0.0 && a <= b
    ensures Portion(x, s, s) == x && Portion(x, 0.0, s) == 0.0
    ensures Portion(x, a, s) <= Portion(x, b, s)
  {
    assert x * (b - a) >= 0.0;
  }

  /** ... and so does the throughput, so it tells how much completed work the buckets counted. */
  lemma {:induction false} ShownThroughputIsCumulative(ws: seq<Work>, ps: seq<real>, points: seq<Point>)
    requires WholeHundredths(ws) && points != [] && |points| <= |ps|
    requires forall i :: 0 <= i < |points| ==> points[i] == PointOf(ws, ps, i)
    ensures ThroughputShown(points) == Cumulative(ws, ps, |points| - 1)
    decreases |points|
  {
    var i := |points| - 1;
    BucketInHundredths(ws, Previous(ps, i), ps[i]);
    hide Round2, Scope, Done, Active, Backlog, Throughput, Ideal, Hundredths;
    HundredthsStay(Throughput(ws, Previous(ps, i), ps[i]));
    if i > 0 { ShownThroughputIsCumulative(ws, ps, points[..i]); }
  }

  lemma {:induction false} BucketInHundredths(ws: seq<Work>, previous: Option<real>, t: real)
    requires WholeHundredths(ws)
    ensures Hundredths(Throughput(ws, previous, t))
    decreases |ws|
  {
    assert Hundredths(0.0);
    if ws != [] {
      var front, w := ws[..|ws| - 1], ws[|ws| - 1];
      assert w in ws;
      hide Hundredths;
      BucketInHundredths(front, previous, t);
      HundredthsAdd(Throughput(front, previous, t), If(FinishedSince(w, previous, t), w.measure));
    }
  }

  /** Percent complete lies between 0 and 100. */
  lemma PercentInRange(completed: real, scope: real)
    requires 0.0 <= completed <= scope
    ensures Percent(completed, scope).None? <==> scope <= 0.0
    ensures Percent(completed, scope).Some? ==> 0.0 <= Percent(completed, scope).value <= 100.0
  {
    if scope > 0.0 {
      var part := completed / scope;
      assert 0.0 <= part <= 1.0;
      RoundMonotone(0.0, part * 100.0 * 10.0);
      RoundMonotone(part * 100.0 * 10.0, 1000.0);
      RoundWhole(0);
      RoundWhole(1000);
    }
  }
}
