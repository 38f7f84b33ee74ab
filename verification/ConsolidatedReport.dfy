/** `consolidateByGroup`: the groups in order, the grand total, and what ties them together. */
module ConsolidatedReport {
  import opened Options
  import opened Ids
  import opened Sorting
  import opened Rounding
  import opened ConsolidationTotals
  import opened Consolidation

  ghost function RowOf(ps: seq<Project>, key: string, title: string, spec: Spec, fx: Fx): Row {
    Finalise(key, title, TotalsOf(ps, spec, fx), spec)
  }

  ghost predicate HasGroup(ps: seq<Project>, g: string) {
    exists p :: p in ps && p.groupKey == g
  }

  function FirstLabel(ps: seq<Project>, g: string): string {
    var members := InGroup(ps, g);
    if members == [] then "" else members[0].groupLabel
  }

  ghost function GroupRow(ps: seq<Project>, g: string, spec: Spec, fx: Fx): Row {
    RowOf(InGroup(ps, g), g, FirstLabel(ps, g), spec, fx)
  }

  // ---------------------------------------------------------------------------------------------
  // Row order

  /** A missing metric ranks below every number. */
  predicate RankLess(a: Option<real>, b: Option<real>) {
    b.Some? && (a.None? || a.value < b.value)
  }

  function Rank(r: Row, spec: Spec): Option<real> {
    if spec.sortKey in r.metrics then r.metrics[spec.sortKey] else None
  }

  predicate RowLess(spec: Spec, a: Row, b: Row) {
    var x, y := Rank(a, spec), Rank(b, spec);
    if x == y then StrLess(a.key, b.key)
    else if spec.descending then RankLess(y, x) else RankLess(x, y)
  }

  function Less(spec: Spec): (Row, Row) -> bool {
    (a, b) => RowLess(spec, a, b)
  }

  lemma RowsOrder(spec: Spec)
    ensures StrictOrder(Less(spec))
    ensures forall a: Row, b: Row :: a.key == b.key || Less(spec)(a, b) || Less(spec)(b, a)
  {
    hide StrLess, Rank;
    StrLessOrders();
    forall a, b, c | RowLess(spec, a, b) && RowLess(spec, b, c) ensures RowLess(spec, a, c) { }
    forall a ensures !RowLess(spec, a, a) { }
    forall a: Row, b: Row ensures a.key == b.key || RowLess(spec, a, b) || RowLess(spec, b, a) { }
  }

  /** One row for every group and no other, strictly in order. */
  ghost predicate RowsOk(rows: seq<Row>, ps: seq<Project>, spec: Spec, fx: Fx) {
    && StrictlySorted(Less(spec), rows)
    && (forall r :: r in rows ==> HasGroup(ps, r.key) && r == GroupRow(ps, r.key, spec, fx))
    && (forall g :: HasGroup(ps, g) ==> GroupRow(ps, g, spec, fx) in rows)
  }

  // ---------------------------------------------------------------------------------------------
  // Folding

  ghost predicate GroupsHold(order: seq<string>, groups: map<string, WorkingRow>, ps: seq<Project>, spec: Spec, fx: Fx)
    reads groups.Values, set g | g in groups :: groups[g].tracker
  {
    && Distinct(order)
    && (forall g :: g in order <==> g in groups)
    && (forall g :: g in groups <==> HasGroup(ps, g))
    && (forall g :: g in groups ==>
          && groups[g].key == g && groups[g].title == FirstLabel(ps, g)
          && groups[g].Holds(InGroup(ps, g), spec, fx))
    && (forall g, h :: g in groups && h in groups && g != h ==> groups[g].tracker != groups[h].tracker)
  }

  lemma GroupsMove(ps: seq<Project>, p: Project)
    ensures forall g :: HasGroup(ps + [p], g) <==> HasGroup(ps, g) || g == p.groupKey
    ensures forall g :: InGroup(ps + [p], g) == if g == p.groupKey then InGroup(ps, g) + [p] else InGroup(ps, g)
    ensures forall g :: HasGroup(ps, g) || g != p.groupKey ==> FirstLabel(ps + [p], g) == FirstLabel(ps, g)
    ensures !HasGroup(ps, p.groupKey) ==> InGroup(ps, p.groupKey) == [] && FirstLabel(ps + [p], p.groupKey) == p.groupLabel
  {
    var all := ps + [p];
    assert all[..|ps|] == ps && p in all && forall q :: q in all <==> q in ps || q == p;
    forall g ensures HasGroup(ps, g) <==> InGroup(ps, g) != [] { GroupsMembers(ps, g); }
    assert forall g :: InGroup(ps, g) + [] == InGroup(ps, g);
  }

  lemma {:induction false} GroupsMembers(ps: seq<Project>, g: string)
    ensures HasGroup(ps, g) <==> InGroup(ps, g) != []
    decreases |ps|
  {
    if ps != [] {
      var front, last := ps[..|ps| - 1], ps[|ps| - 1];
      GroupsMembers(front, g);
      assert forall q :: q in ps <==> q in front || q == last;
    }
  }

  lemma DistinctOneMore(s: seq<string>, x: string)
    requires Distinct(s)
    ensures x !in s ==> Distinct(s + [x])
  {
  }

  method FoldGroup(order: seq<string>, groups: map<string, WorkingRow>, p: Project, spec: Spec, fx: Fx, ghost ps: seq<Project>)
    returns (keys: seq<string>, rows: map<string, WorkingRow>)
    requires GroupsHold(order, groups, ps, spec, fx)
    modifies groups.Values, set g | g in groups :: groups[g].tracker
    ensures GroupsHold(keys, rows, ps + [p], spec, fx)
    ensures forall g :: g in rows ==>
              (g in groups && rows[g] == groups[g]) || (fresh(rows[g]) && fresh(rows[g].tracker))
  {
    hide FirstLabel, InGroup, HasGroup, WorkingRow.Holds, Distinct;
    GroupsMove(ps, p);
    DistinctOneMore(order, p.groupKey);
    var row;
    if p.groupKey in groups {
      row := groups[p.groupKey];
      keys, rows := order, groups;
    } else {
      row := new WorkingRow(spec, fx, p.groupKey, p.groupLabel);
      keys, rows := order + [p.groupKey], groups[p.groupKey := row];
    }
    row.Fold(p, spec, fx, InGroup(ps, p.groupKey));
  }

  ghost predicate Apart(groups: map<string, WorkingRow>, grand: WorkingRow) {
    forall g :: g in groups ==> groups[g] != grand && groups[g].tracker != grand.tracker
  }

  /** `consolidateByGroup`. */
  method ConsolidateByGroup(projects: seq<Project>, spec: Spec, fx: Fx) returns (groups: seq<Row>, total: Row)
    ensures RowsOk(groups, projects, spec, fx)
    ensures total == RowOf(projects, "__portfolio__", "Portfolio", spec, fx)
  {
    hide RowsOk, WorkingRow.Holds, InGroup, HasGroup, GroupsHold, Finalise, FirstLabel;
    var keys: seq<string> := [];
    var rows: map<string, WorkingRow> := map[];
    var grand := new WorkingRow(spec, fx, "__portfolio__", "Portfolio");
    NoGroups(keys, rows, spec, fx);
    for i := 0 to |projects|
      invariant GroupsHold(keys, rows, projects[..i], spec, fx)
      invariant grand.Holds(projects[..i], spec, fx) && grand.key == "__portfolio__" && grand.title == "Portfolio"
      invariant Apart(rows, grand) && fresh(grand) && fresh(grand.tracker)
      invariant forall g :: g in rows ==> fresh(rows[g]) && fresh(rows[g].tracker)
    {
      assert projects[..i + 1] == projects[..i] + [projects[i]];
      keys, rows := FoldGroup(keys, rows, projects[i], spec, fx, projects[..i]);
      grand.Fold(projects[i], spec, fx, projects[..i]);
    }
    assert projects[..|projects|] == projects;
    var unsorted := FinaliseAll(keys, rows, projects, spec, fx);
    groups := Sort(Less(spec), unsorted);
    RowsSorted(keys, unsorted, projects, spec, fx);
    HeldTotals(grand, projects, spec, fx);
    total := Finalise(grand.key, grand.title, grand.Now(), spec);
  }

  lemma NoGroups(keys: seq<string>, rows: map<string, WorkingRow>, spec: Spec, fx: Fx)
    requires keys == [] && rows == map[]
    ensures GroupsHold(keys, rows, [], spec, fx)
  {
  }

  lemma HeldTotals(row: WorkingRow, ps: seq<Project>, spec: Spec, fx: Fx)
    requires row.Holds(ps, spec, fx)
    ensures row.Now() == TotalsOf(ps, spec, fx)
  {
    hide Describes, TotalsOf;
    TotalsDetermined(row.Now(), ps, spec, fx);
  }

  /** The finished row of each key, in the keys' order. */
  ghost predicate RowsOfKeys(keys: seq<string>, rows: seq<Row>, ps: seq<Project>, spec: Spec, fx: Fx) {
    |rows| == |keys| && forall i :: 0 <= i < |keys| ==> rows[i] == GroupRow(ps, keys[i], spec, fx)
  }

  ghost predicate KeysOk(keys: seq<string>, ps: seq<Project>) {
    Distinct(keys) && forall g :: g in keys <==> HasGroup(ps, g)
  }

  method FinaliseAll(keys: seq<string>, groups: map<string, WorkingRow>, ps: seq<Project>, spec: Spec, fx: Fx) returns (rows: seq<Row>)
    requires GroupsHold(keys, groups, ps, spec, fx)
    ensures KeysOk(keys, ps) && RowsOfKeys(keys, rows, ps, spec, fx)
  {
    hide WorkingRow.Holds, InGroup, HasGroup, Finalise, FirstLabel, Distinct;
    rows := [];
    for i := 0 to |keys|
      invariant |rows| == i && forall j :: 0 <= j < i ==> rows[j] == GroupRow(ps, keys[j], spec, fx)
    {
      var row := groups[keys[i]];
      HeldTotals(row, InGroup(ps, keys[i]), spec, fx);
      rows := rows + [Finalise(row.key, row.title, row.Now(), spec)];
    }
  }

  lemma RowsSorted(keys: seq<string>, rows: seq<Row>, ps: seq<Project>, spec: Spec, fx: Fx)
    requires KeysOk(keys, ps) && RowsOfKeys(keys, rows, ps, spec, fx)
    ensures RowsOk(Sort(Less(spec), rows), ps, spec, fx)
  {
    hide Sort, Less, HasGroup;
    RowsOrder(spec);
    forall g ensures GroupRow(ps, g, spec, fx).key == g { GroupRowKey(ps, g, spec, fx); }
    hide GroupRow;
    assert forall i, j :: 0 <= i < j < |rows| ==> rows[i].key != rows[j].key;
    forall r | r in rows ensures r.key in keys && r == GroupRow(ps, r.key, spec, fx) {
      var i :| 0 <= i < |rows| && rows[i] == r;
      assert keys[i] in keys;
    }
    forall g | g in keys ensures GroupRow(ps, g, spec, fx) in rows {
      var i :| 0 <= i < |keys| && keys[i] == g;
      assert rows[i] in rows;
    }
    SortMembers(Less(spec), rows);
    SortSorts(Less(spec), rows);
  }

  lemma GroupRowKey(ps: seq<Project>, g: string, spec: Spec, fx: Fx)
    ensures GroupRow(ps, g, spec, fx).key == g
    ensures GroupRow(ps, g, spec, fx).projects == |InGroup(ps, g)|
    ensures GroupRow(ps, g, spec, fx).excludedForFx == ExcludedOf(InGroup(ps, g), fx)
  {
    hide InGroup, ExcludedOf, WithDerived;
  }

  // ---------------------------------------------------------------------------------------------
  // What the report says

  /** The rows are determined by the projects: no other sequence meets the contract. */
  lemma RowsDetermined(a: seq<Row>, b: seq<Row>, ps: seq<Project>, spec: Spec, fx: Fx)
    requires RowsOk(a, ps, spec, fx) && RowsOk(b, ps, spec, fx)
    ensures a == b
  {
    hide Less, GroupRow, HasGroup, StrictlySorted;
    RowsOrder(spec);
    StrictlySortedUnique(Less(spec), a, b);
  }

  function ProjectsIn(rows: seq<Row>): nat {
    if rows == [] then 0 else ProjectsIn(rows[..|rows| - 1]) + rows[|rows| - 1].projects
  }

  function ExcludedIn(rows: seq<Row>): nat {
    if rows == [] then 0 else ExcludedIn(rows[..|rows| - 1]) + rows[|rows| - 1].excludedForFx
  }

  function KeysOf(rows: seq<Row>): (r: seq<string>)
    ensures |r| == |rows| && forall i :: 0 <= i < |rows| ==> r[i] == rows[i].key
  {
    seq(|rows|, i requires 0 <= i < |rows| => rows[i].key)
  }

  /** Every project is counted in one group row and in the total, and so is every exclusion. */
  lemma ReportConserves(rows: seq<Row>, total: Row, ps: seq<Project>, spec: Spec, fx: Fx)
    requires RowsOk(rows, ps, spec, fx) && total == RowOf(ps, "__portfolio__", "Portfolio", spec, fx)
    ensures total.projects == |ps| == ProjectsIn(rows)
    ensures total.excludedForFx == ExcludedIn(rows)
  {
    KeysCover(rows, ps, spec, fx);
    CountRows(rows, ps, spec, fx);
    hide RowsOk, ExcludedOf, WithDerived, KeysOf, Distinct, CountOverGroups, ExcludedOverGroups;
    GroupsConserve(KeysOf(rows), ps, spec, fx, "");
  }

  lemma OrderedRowsDiffer(a: Row, b: Row, ps: seq<Project>, spec: Spec, fx: Fx)
    requires a == GroupRow(ps, a.key, spec, fx) && b == GroupRow(ps, b.key, spec, fx) && Less(spec)(a, b)
    ensures a.key != b.key
  {
    hide GroupRow, Less;
    RowsOrder(spec);
  }

  lemma KeysCover(rows: seq<Row>, ps: seq<Project>, spec: Spec, fx: Fx)
    requires RowsOk(rows, ps, spec, fx)
    ensures Distinct(KeysOf(rows)) && forall p :: p in ps ==> p.groupKey in KeysOf(rows)
  {
    var keys := KeysOf(rows);
    hide Less, GroupRow;
    RowsOrder(spec);
    forall i, j | 0 <= i < j < |rows| ensures keys[i] != keys[j] {
      assert rows[i] in rows && rows[j] in rows;
      OrderedRowsDiffer(rows[i], rows[j], ps, spec, fx);
    }
    forall p | p in ps ensures p.groupKey in keys {
      assert HasGroup(ps, p.groupKey);
      var r := GroupRow(ps, p.groupKey, spec, fx);
      GroupRowKey(ps, p.groupKey, spec, fx);
      var i :| 0 <= i < |rows| && rows[i] == r;
      assert keys[i] == p.groupKey;
    }
  }

  lemma {:induction false} CountRows(rows: seq<Row>, ps: seq<Project>, spec: Spec, fx: Fx)
    requires forall r :: r in rows ==> r == GroupRow(ps, r.key, spec, fx)
    ensures ProjectsIn(rows) == CountOverGroups(KeysOf(rows), ps)
    ensures ExcludedIn(rows) == ExcludedOverGroups(KeysOf(rows), ps, fx)
    decreases |rows|
  {
    hide GroupRow;
    if rows != [] {
      var front, last := rows[..|rows| - 1], rows[|rows| - 1];
      CountRows(front, ps, spec, fx);
      assert last in rows;
      GroupRowKey(ps, last.key, spec, fx);
      assert KeysOf(rows)[..|rows| - 1] == KeysOf(front);
    }
  }

  function Metric(r: Row, k: string): real {
    if k in r.metrics then r.metrics[k].GetOr(0.0) else 0.0
  }

  function MetricIn(rows: seq<Row>, k: string): real {
    if rows == [] then 0.0 else MetricIn(rows[..|rows| - 1], k) + Metric(rows[|rows| - 1], k)
  }

  /** A declared measure no derived metric overwrites. */
  ghost predicate PlainMeasure(spec: Spec, k: string) {
    k in Keys(spec.measures) && forall d :: d in spec.derived ==> d.key != k
  }

  /** Shown rounded, a measure's group rows add up to its total within half a cent for each row. */
  lemma RoundedRowsAddUp(rows: seq<Row>, total: Row, ps: seq<Project>, spec: Spec, fx: Fx, k: string)
    requires RowsOk(rows, ps, spec, fx) && total == RowOf(ps, "__portfolio__", "Portfolio", spec, fx) && PlainMeasure(spec, k)
    ensures var drift := Metric(total, k) - MetricIn(rows, k); var most := (|rows| + 1) as real / 200.0; -most <= drift <= most
  {
    KeysCover(rows, ps, spec, fx);
    MetricDrift(rows, ps, spec, fx, k);
    ShownRounded(ps, "__portfolio__", "Portfolio", spec, fx, k);
    hide RowsOk, Distinct, KeysOf, SumOverGroups, SumOf, MetricIn, Metric, Round2, RowOf;
    GroupsConserve(KeysOf(rows), ps, spec, fx, k);
    Round2Close(SumOf(ps, spec, fx, k));
  }

  lemma Round2Close(x: real)
    ensures -1.0 / 200.0 <= Round2(x) - x <= 1.0 / 200.0
  {
    RoundBounds(x * 100.0);
  }

  lemma ShownRounded(ps: seq<Project>, key: string, title: string, spec: Spec, fx: Fx, k: string)
    requires PlainMeasure(spec, k)
    ensures Metric(RowOf(ps, key, title, spec, fx), k) == Round2(SumOf(ps, spec, fx, k))
  {
    var t := TotalsOf(ps, spec, fx);
    hide SumOf, Round2, TotalsOf;
    assert t.sums.Keys == Keys(spec.measures) && t.sums[k] == SumOf(ps, spec, fx, k) by { DeterminedSums(ps, spec, fx, k); }
    DerivedKeeps(map j | j in t.sums :: Some(Round2(t.sums[j])), t.sums, spec.derived, k);
  }

  lemma DeterminedSums(ps: seq<Project>, spec: Spec, fx: Fx, k: string)
    requires k in Keys(spec.measures)
    ensures TotalsOf(ps, spec, fx).sums.Keys == Keys(spec.measures) && TotalsOf(ps, spec, fx).sums[k] == SumOf(ps, spec, fx, k)
  {
    hide SumOf;
  }

  lemma {:induction false} DerivedKeeps(metrics: map<string, Option<real>>, sums: map<string, real>, ds: seq<Derived>, k: string)
    requires k in metrics && forall d :: d in ds ==> d.key != k
    ensures k in WithDerived(metrics, sums, ds) && WithDerived(metrics, sums, ds)[k] == metrics[k]
    decreases |ds|
  {
    hide ApplyDerived;
    if ds != [] {
      assert ds[|ds| - 1] in ds;
      DerivedKeeps(metrics, sums, ds[..|ds| - 1], k);
    }
  }

  lemma {:induction false} MetricDrift(rows: seq<Row>, ps: seq<Project>, spec: Spec, fx: Fx, k: string)
    requires PlainMeasure(spec, k) && forall r :: r in rows ==> r == GroupRow(ps, r.key, spec, fx)
    ensures var drift := SumOverGroups(KeysOf(rows), ps, spec, fx, k) - MetricIn(rows, k); var most := |rows| as real / 200.0;
            -most <= drift <= most
    decreases |rows|
  {
    if rows != [] {
      var front, last := rows[..|rows| - 1], rows[|rows| - 1];
      assert last in rows;
      ShownRounded(InGroup(ps, last.key), last.key, FirstLabel(ps, last.key), spec, fx, k);
      Round2Close(SumOf(InGroup(ps, last.key), spec, fx, k));
      assert KeysOf(rows)[..|rows| - 1] == KeysOf(front);
      hide PlainMeasure, RowOf, Metric, Round2, SumOf, FirstLabel, InGroup;
      MetricDrift(front, ps, spec, fx, k);
    }
  }
}
