/** What the flow series shows, told by the item records alone. */
module FlowRecords {
  import opened Options
  import opened Rounding
  import opened FlowLanes
  import opened FlowMetrics

  // ---------------------------------------------------------------------------------------------
  // The reference: sums over the records that meet a condition

  /** The work of the items that are not cancelled and meet the condition: one each, or their points if positive. */
  function Tally(items: seq<Item>, byPoints: bool, meets: Item -> bool): real {
    if items == [] then 0.0
    else
      var it := items[|items| - 1];
      Tally(items[..|items| - 1], byPoints, meets)
      + if it.cancelled || !meets(it) then 0.0 else if !byPoints then 1.0 else if it.points > 0.0 then it.points else 0.0
  }

  predicate CreatedBy(it: Item, t: real) {
    it.createdAt == None || it.createdAt.value <= t
  }

  predicate CompletedBy(it: Item, t: real) {
    it.completedAt != None && it.completedAt.value <= t
  }

  predicate StartedBy(it: Item, t: real) {
    it.startedAt != None && it.startedAt.value <= t
  }

  /** The places of the records that are not cancelled and meet the condition. */
  function Meeting(items: seq<Item>, meets: Item -> bool): set<int> {
    set k | 0 <= k < |items| && !items[k].cancelled && meets(items[k])
  }

  lemma MeetingStep(items: seq<Item>, meets: Item -> bool)
    requires items != []
    ensures var n := |items| - 1;
            Meeting(items, meets) == Meeting(items[..n], meets) + if !items[n].cancelled && meets(items[n]) then {n} else {}
    ensures |items| - 1 !in Meeting(items[..|items| - 1], meets)
  {
  }

  /** Without points, a tally counts records. */
  lemma {:induction false} TallyCounts(items: seq<Item>, meets: Item -> bool)
    ensures Tally(items, false, meets) == |Meeting(items, meets)| as real
    decreases |items|
  {
    if items == [] {
      assert Meeting(items, meets) == {};
    } else {
      MeetingStep(items, meets);
      hide Meeting;
      TallyCounts(items[..|items| - 1], meets);
    }
  }

  // ---------------------------------------------------------------------------------------------
  // The lanes are such sums

  lemma {:induction false} ScopeTally(items: seq<Item>, byPoints: bool, t: real)
    ensures Scope(Resolved(items, byPoints), t) == Tally(items, byPoints, it => CreatedBy(it, t))
    decreases |items|
  {
    if items != [] {
      ScopeTally(items[..|items| - 1], byPoints, t);
      LastWork(items, byPoints);
    }
  }

  /** What the last record adds to the resolved work. */
  lemma LastWork(items: seq<Item>, byPoints: bool)
    requires items != []
    ensures var it, front, ws := items[|items| - 1], Resolved(items[..|items| - 1], byPoints), Resolved(items, byPoints);
            && (it.cancelled ==> ws == front)
            && (!it.cancelled ==> ws != [] && ws[..|ws| - 1] == front && var w := ws[|ws| - 1];
               && w.createdAt == it.createdAt && w.startedAt == it.startedAt && w.completedAt == it.completedAt
               && w.measure == if !byPoints then 1.0 else if it.points > 0.0 then it.points else 0.0)
  {
  }

  lemma {:induction false} DoneTally(items: seq<Item>, byPoints: bool, t: real)
    ensures Done(Resolved(items, byPoints), t) == Tally(items, byPoints, it => CreatedBy(it, t) && CompletedBy(it, t))
    decreases |items|
  {
    if items != [] {
      DoneTally(items[..|items| - 1], byPoints, t);
      LastWork(items, byPoints);
    }
  }

  lemma {:induction false} ActiveTally(items: seq<Item>, byPoints: bool, t: real)
    ensures Active(Resolved(items, byPoints), t)
         == Tally(items, byPoints, it => CreatedBy(it, t) && !CompletedBy(it, t) && StartedBy(it, t))
    decreases |items|
  {
    if items != [] {
      ActiveTally(items[..|items| - 1], byPoints, t);
      LastWork(items, byPoints);
    }
  }

  lemma {:induction false} BacklogTally(items: seq<Item>, byPoints: bool, t: real)
    ensures Backlog(Resolved(items, byPoints), t)
         == Tally(items, byPoints, it => CreatedBy(it, t) && !CompletedBy(it, t) && !StartedBy(it, t))
    decreases |items|
  {
    if items != [] {
      BacklogTally(items[..|items| - 1], byPoints, t);
      LastWork(items, byPoints);
    }
  }

  lemma {:induction false} ThroughputTally(items: seq<Item>, byPoints: bool, previous: Option<real>, t: real)
    ensures Throughput(Resolved(items, byPoints), previous, t)
         == Tally(items, byPoints, it => CreatedBy(it, t) && CompletedBy(it, t)
                                         && (previous == None || it.completedAt.value > previous.value))
    decreases |items|
  {
    if items != [] {
      ThroughputTally(items[..|items| - 1], byPoints, previous, t);
      LastWork(items, byPoints);
    }
  }

  // ---------------------------------------------------------------------------------------------
  // What is shown

  /** Each field of each point, from the records: a boundary belongs to the period it ends. */
  ghost predicate Shown(p: Point, items: seq<Item>, byPoints: bool, previous: Option<real>, t: real) {
    && p.period == t
    && NearestHundredth(p.scope, Tally(items, byPoints, it => CreatedBy(it, t)))
    && NearestHundredth(p.completed, Tally(items, byPoints, it => CreatedBy(it, t) && CompletedBy(it, t)))
    && p.done == p.completed
    && NearestHundredth(p.remaining, Tally(items, byPoints, it => CreatedBy(it, t) && !CompletedBy(it, t)))
    && NearestHundredth(p.active, Tally(items, byPoints, it => CreatedBy(it, t) && !CompletedBy(it, t) && StartedBy(it, t)))
    && NearestHundredth(p.backlog, Tally(items, byPoints, it => CreatedBy(it, t) && !CompletedBy(it, t) && !StartedBy(it, t)))
    && NearestHundredth(p.throughput, Tally(items, byPoints, it => CreatedBy(it, t) && CompletedBy(it, t)
                                                        && (previous == None || it.completedAt.value > previous.value)))
  }

  lemma {:induction false} OpenTally(items: seq<Item>, byPoints: bool, t: real)
    ensures Tally(items, byPoints, it => CreatedBy(it, t))
         == Tally(items, byPoints, it => CreatedBy(it, t) && CompletedBy(it, t))
            + Tally(items, byPoints, it => CreatedBy(it, t) && !CompletedBy(it, t))
    decreases |items|
  {
    if items != [] { OpenTally(items[..|items| - 1], byPoints, t); }
  }

  lemma PointShows(r: Flow, ps: seq<real>, items: seq<Item>, byPoints: bool, i: nat)
    requires SeriesOf(r, ps, items, byPoints) && i < |ps|
    ensures i < |r.points| && Shown(r.points[i], items, byPoints, if i == 0 then None else Some(ps[i - 1]), ps[i])
  {
    var ws, t, previous := Resolved(items, byPoints), ps[i], Previous(ps, i);
    hide Resolved, Scope, Done, Active, Backlog, Throughput, Tally, Round2, NearestHundredth, Ideal;
    ScopeTally(items, byPoints, t);
    DoneTally(items, byPoints, t);
    ActiveTally(items, byPoints, t);
    BacklogTally(items, byPoints, t);
    ThroughputTally(items, byPoints, previous, t);
    OpenTally(items, byPoints, t);
    Round2IsNearest(Scope(ws, t));
    Round2IsNearest(Done(ws, t));
    Round2IsNearest(Scope(ws, t) - Done(ws, t));
    Round2IsNearest(Active(ws, t));
    Round2IsNearest(Backlog(ws, t));
    Round2IsNearest(Throughput(ws, previous, t));
  }

  /** What is left of the opening scope after `i` of `span` equal steps down; a single boundary has no line. */
  ghost predicate OnLine(shown: real, opening: real, span: nat, i: nat) {
    if span == 0 then shown == 0.0 else NearestHundredth(shown, opening * (span - i) as real / span as real)
  }

  lemma IdealOnLine(opening: real, span: nat, i: nat)
    ensures OnLine(Ideal(opening, span, i), opening, span, i)
  {
    if span > 0 {
      assert Ideal(opening, span, i) == Round2(opening * (span - i) as real / span as real);
      hide NearestHundredth, Round2;
      Round2IsNearest(opening * (span - i) as real / span as real);
    }
  }

  /** The ideal line is straight from the opening scope to zero. */
  lemma IdealIsStraight(r: Flow, ps: seq<real>, items: seq<Item>, byPoints: bool, i: nat)
    requires SeriesOf(r, ps, items, byPoints) && i < |ps|
    ensures i < |r.points|
    ensures OnLine(r.points[i].ideal, Tally(items, byPoints, it => CreatedBy(it, ps[0])), |ps| - 1, i)
  {
    hide OnLine, Ideal, Resolved, Scope, Done, Active, Backlog, Throughput, Tally, Round2;
    var opening := Scope(Resolved(items, byPoints), ps[0]);
    assert r.points[i].ideal == Ideal(opening, |ps| - 1, i);
    ScopeTally(items, byPoints, ps[0]);
    IdealOnLine(opening, |ps| - 1, i);
  }

  /** The totals are those of the last boundary, the mean is over the boundaries; percent is to the nearest tenth. */
  lemma SummaryShows(r: Flow, ps: seq<real>, items: seq<Item>, byPoints: bool)
    requires SeriesOf(r, ps, items, byPoints)
    ensures ps == [] ==> r == Flow([], Summary(0.0, 0.0, 0.0, 0.0, 0.0, None))
    ensures ps != [] ==>
      && |r.points| == |ps|
      && var last, s := r.points[|ps| - 1], r.summary;
      && s.totalScope == last.scope && s.totalCompleted == last.completed
      && NearestHundredth(s.remaining, last.scope - last.completed)
      && NearestHundredth(s.throughputTotal, ThroughputShown(r.points))
      && NearestHundredth(s.meanThroughput, ThroughputShown(r.points) / |ps| as real)
      && (s.percentComplete == None <==> last.scope <= 0.0)
      && (s.percentComplete != None ==> NearestTenth(s.percentComplete.value, last.completed / last.scope * 100.0))
  {
    hide Resolved, ThroughputShown, PointOf;
    if ps != [] {
      var last, total := r.points[|ps| - 1], ThroughputShown(r.points);
      Round2IsNearest(last.scope - last.completed);
      Round2IsNearest(total);
      Round2IsNearest(total / |ps| as real);
      if last.scope > 0.0 { Round1IsNearest(last.completed / last.scope * 100.0); }
      hide Round1, Round2, NearestTenth, NearestHundredth;
    }
  }
}
