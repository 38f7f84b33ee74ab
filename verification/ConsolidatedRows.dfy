/** What a consolidated row shows, told by its projects, and how the rows stand to one another. */
module ConsolidatedRows {
  import opened Options
  import opened Sorting
  import opened Rounding
  import opened Currency
  import Measures
  import opened ConsolidationTotals
  import opened ConsolidatedReport

  // ---------------------------------------------------------------------------------------------
  // Which projects count, and with what

  /** The currency is the reporting one, or the table rates both and the reporting one not at zero. */
  predicate Converts(currency: string, fx: Fx) {
    currency == fx.target
    || (fx.rates != None && currency in fx.rates.value && fx.target in fx.rates.value && fx.rates.value[fx.target] != 0.0)
  }

  /** The places of the projects in a currency that does not convert. */
  function Unconverted(ps: seq<Project>, fx: Fx): set<int> {
    set i | 0 <= i < |ps| && !Converts(ps[i].currency, fx)
  }

  lemma {:induction false} ExcludedAre(ps: seq<Project>, fx: Fx)
    ensures ExcludedOf(ps, fx) == |Unconverted(ps, fx)|
    decreases |ps|
  {
    if ps == [] {
      assert Unconverted(ps, fx) == {};
    } else {
      ExcludedAre(ps[..|ps| - 1], fx);
      UnconvertedStep(ps, fx);
      ConvertsIs(ps[|ps| - 1].currency, fx);
    }
  }

  lemma ConvertsIs(currency: string, fx: Fx)
    ensures Converts(currency, fx) <==> IsConvertible(currency, fx.target, fx.rates)
  {
  }

  lemma UnconvertedStep(ps: seq<Project>, fx: Fx)
    requires ps != []
    ensures var n := |ps| - 1;
      && n !in Unconverted(ps[..n], fx)
      && Unconverted(ps, fx) == Unconverted(ps[..n], fx) + if Converts(ps[n].currency, fx) then {} else {n}
  {
    hide Converts;
  }

  function DeclaredAt(ms: seq<Measures.Measure>, k: string): set<int> {
    set i | 0 <= i < |ms| && ms[i].key == k
  }

  lemma {:induction false} TimesIs(ms: seq<Measures.Measure>, k: string)
    ensures Times(ms, k) == |DeclaredAt(ms, k)|
    decreases |ms|
  {
    if ms == [] {
      assert DeclaredAt(ms, k) == {};
    } else {
      var n := |ms| - 1;
      TimesIs(ms[..n], k);
      assert DeclaredAt(ms, k) == DeclaredAt(ms[..n], k) + if ms[n].key == k then {n} else {};
    }
  }

  /** The last measure declared under the key decides what its items add up to. */
  lemma {:induction false} LastDeclared(items: seq<Measures.Item>, ms: seq<Measures.Measure>, i: nat)
    requires i < |ms| && forall j :: i < j < |ms| ==> ms[j].key != ms[i].key
    ensures ValueOf(items, ms, ms[i].key) == Measures.Total(items, ms[i])
    decreases |ms|
  {
    if i < |ms| - 1 { LastDeclared(items, ms[..|ms| - 1], i); }
  }

  /** A measure declared once folds each project's items in once, in the project's own currency ... */
  lemma ProjectAdds(ps: seq<Project>, p: Project, spec: Spec, fx: Fx, i: nat)
    requires i < |spec.measures| && forall j :: 0 <= j < |spec.measures| && j != i ==> spec.measures[j].key != spec.measures[i].key
    ensures var m := spec.measures[i]; var v := Measures.Total(p.items, m);
      && LocalSumOf([], spec, m.key) == 0.0 == SumOf([], spec, fx, m.key)
      && LocalSumOf(ps + [p], spec, m.key) == LocalSumOf(ps, spec, m.key) + v
      && (!Converts(p.currency, fx) ==> SumOf(ps + [p], spec, fx, m.key) == SumOf(ps, spec, fx, m.key))
      && (p.currency == fx.target ==> SumOf(ps + [p], spec, fx, m.key) == SumOf(ps, spec, fx, m.key) + v)
      && (p.currency != fx.target && Converts(p.currency, fx) ==>
           SumOf(ps + [p], spec, fx, m.key)
           == SumOf(ps, spec, fx, m.key) + v * fx.rates.value[p.currency] / fx.rates.value[fx.target])
  {
    var m := spec.measures[i];
    OnceDeclared(spec.measures, i);
    LastDeclared(p.items, spec.measures, i);
    hide Times, ValueOf;
    assert (ps + [p])[..|ps|] == ps;
  }

  lemma OnceDeclared(ms: seq<Measures.Measure>, i: nat)
    requires i < |ms| && forall j :: 0 <= j < |ms| && j != i ==> ms[j].key != ms[i].key
    ensures Times(ms, ms[i].key) == 1
  {
    TimesIs(ms, ms[i].key);
    assert DeclaredAt(ms, ms[i].key) == {i};
  }

  // ---------------------------------------------------------------------------------------------
  // The derived metrics

  /** The figure for `a` and `b`, rounded; a ratio to nothing positive is null, or zero for the plain percentage. */
  ghost predicate Derives(r: Option<real>, op: DerivedOp, a: real, b: real) {
    match op
    case Diff => r != None && NearestHundredth(r.value, a - b)
    case DiffFloor0 => r != None && (if a > b then NearestHundredth(r.value, a - b) else r.value == 0.0)
    case RatioPct => r != None && (if b > 0.0 then NearestTenth(r.value, 100.0 * (a / b)) else r.value == 0.0)
    case RatioPctOrNull => if b > 0.0 then r != None && NearestTenth(r.value, 100.0 * (a / b)) else r == None
    case RatioOrNull => if b > 0.0 then r != None && NearestHundredth(r.value, a / b) else r == None
  }

  lemma DerivedIs(op: DerivedOp, a: real, b: real)
    ensures Derives(ApplyDerived(op, a, b), op, a, b)
  {
    Round2IsNearest(a - b);
    Round2IsNearest(0.0);
    RoundWhole(0);
    if b > 0.0 {
      var q := a / b;
      Round1IsNearest(q * 100.0);
      Round2IsNearest(q);
      hide NearestTenth, NearestHundredth;
    }
  }

  // ---------------------------------------------------------------------------------------------
  // A whole row

  /** The last derived metric under its key. */
  predicate LastDerived(ds: seq<Derived>, j: nat) {
    j < |ds| && forall i :: j < i < |ds| ==> ds[i].key != ds[j].key
  }

  ghost predicate ShowsMeasures(r: Row, ps: seq<Project>, spec: Spec, fx: Fx) {
    forall k :: PlainMeasure(spec, k) ==>
      k in r.metrics && r.metrics[k] != None && NearestHundredth(r.metrics[k].value, SumOf(ps, spec, fx, k))
  }

  ghost predicate ShowsDerived(r: Row, ps: seq<Project>, spec: Spec, fx: Fx) {
    forall j :: 0 <= j && LastDerived(spec.derived, j) ==>
      var d := spec.derived[j];
      d.key in r.metrics && Derives(r.metrics[d.key], d.op, SumOf(ps, spec, fx, d.a), SumOf(ps, spec, fx, d.b))
  }

  ghost predicate ShowsLocal(r: Row, ps: seq<Project>, spec: Spec) {
    && (forall c :: r.localCurrency == Some(c) <==> ps != [] && forall p :: p in ps ==> p.currency == c)
    && (r.local != None <==> r.localCurrency != None)
    && (r.local != None ==> forall m :: m in spec.measures ==>
          m.key in r.local.value && NearestHundredth(r.local.value[m.key], LocalSumOf(ps, spec, m.key)))
  }

  lemma {:induction false} DerivedShown(metrics: map<string, Option<real>>, sums: map<string, real>, ds: seq<Derived>, j: nat)
    requires LastDerived(ds, j)
    ensures ds[j].key in WithDerived(metrics, sums, ds)
    ensures WithDerived(metrics, sums, ds)[ds[j].key] == ApplyDerived(ds[j].op, At(sums, ds[j].a), At(sums, ds[j].b))
    decreases |ds|
  {
    hide ApplyDerived, At;
    if j < |ds| - 1 { DerivedShown(metrics, sums, ds[..|ds| - 1], j); }
  }

  /** The sum read for an operand: that of its measure, and zero where no measure has the key. */
  lemma OperandIs(ps: seq<Project>, spec: Spec, fx: Fx, k: string)
    ensures At(TotalsOf(ps, spec, fx).sums, k) == SumOf(ps, spec, fx, k)
  {
    hide SumOf;
    if k in Keys(spec.measures) {
      DeterminedSums(ps, spec, fx, k);
    } else {
      Undeclared(spec.measures, k);
      UndeclaredSum(ps, spec, fx, k);
    }
  }

  lemma RowDerives(ps: seq<Project>, key: string, title: string, spec: Spec, fx: Fx)
    ensures ShowsDerived(RowOf(ps, key, title, spec, fx), ps, spec, fx)
  {
    var t := TotalsOf(ps, spec, fx);
    var shown := map k | k in t.sums :: Some(Round2(t.sums[k]));
    assert RowOf(ps, key, title, spec, fx).metrics == WithDerived(shown, t.sums, spec.derived);
    hide TotalsOf, SumOf, WithDerived, ApplyDerived, At, Derives;
    forall j | 0 <= j && LastDerived(spec.derived, j)
      ensures var d, metrics := spec.derived[j], WithDerived(shown, t.sums, spec.derived);
        d.key in metrics && Derives(metrics[d.key], d.op, SumOf(ps, spec, fx, d.a), SumOf(ps, spec, fx, d.b))
    {
      var d := spec.derived[j];
      DerivedShown(shown, t.sums, spec.derived, j);
      OperandIs(ps, spec, fx, d.a);
      OperandIs(ps, spec, fx, d.b);
      DerivedIs(d.op, At(t.sums, d.a), At(t.sums, d.b));
    }
  }

  lemma RowMeasures(ps: seq<Project>, key: string, title: string, spec: Spec, fx: Fx)
    ensures ShowsMeasures(RowOf(ps, key, title, spec, fx), ps, spec, fx)
  {
    var t := TotalsOf(ps, spec, fx);
    var shown := map k | k in t.sums :: Some(Round2(t.sums[k]));
    assert RowOf(ps, key, title, spec, fx).metrics == WithDerived(shown, t.sums, spec.derived);
    hide TotalsOf, SumOf, WithDerived, Round2, NearestHundredth;
    forall k | PlainMeasure(spec, k)
      ensures var metrics := WithDerived(shown, t.sums, spec.derived);
        k in metrics && metrics[k] != None && NearestHundredth(metrics[k].value, SumOf(ps, spec, fx, k))
    {
      DeterminedSums(ps, spec, fx, k);
      DerivedKeeps(shown, t.sums, spec.derived, k);
      Round2IsNearest(SumOf(ps, spec, fx, k));
    }
  }

  lemma RowLocal(ps: seq<Project>, key: string, title: string, spec: Spec, fx: Fx)
    ensures ShowsLocal(RowOf(ps, key, title, spec, fx), ps, spec)
  {
    var t := TotalsOf(ps, spec, fx);
    LocalIffOneCurrency(ps, spec, fx);
    hide TotalsOf, LocalSumOf, SumOf, WithDerived, Round2, NearestHundredth, ExcludedOf;
    var r := RowOf(ps, key, title, spec, fx);
    assert r.localCurrency == t.currency && (r.local.Some? <==> t.local.Some?);
    if r.local.Some? {
      assert r.local.value == map k | k in t.local.value :: Round2(t.local.value[k]);
      forall m | m in spec.measures
        ensures m.key in r.local.value && NearestHundredth(r.local.value[m.key], LocalSumOf(ps, spec, m.key))
      {
        assert m.key in Keys(spec.measures);
        Round2IsNearest(LocalSumOf(ps, spec, m.key));
      }
    }
  }

  /** Every field of a row: rounded sums, derived figures of the unrounded ones, the local currency, and the counts. */
  lemma RowShows(ps: seq<Project>, key: string, title: string, spec: Spec, fx: Fx)
    ensures var r := RowOf(ps, key, title, spec, fx);
      && r.key == key && r.title == title && r.projects == |ps| && r.excludedForFx == |Unconverted(ps, fx)|
      && ShowsMeasures(r, ps, spec, fx) && ShowsDerived(r, ps, spec, fx) && ShowsLocal(r, ps, spec)
  {
    ExcludedAre(ps, fx);
    RowMeasures(ps, key, title, spec, fx);
    RowDerives(ps, key, title, spec, fx);
    RowLocal(ps, key, title, spec, fx);
    hide ShowsMeasures, ShowsDerived, ShowsLocal, WithDerived, ExcludedOf, Unconverted;
  }

  // ---------------------------------------------------------------------------------------------
  // Groups and their order

  /** The projects of a group are those with its key, in the order given. */
  lemma {:induction false} GroupJoins(a: seq<Project>, b: seq<Project>, g: string)
    ensures InGroup(a + b, g) == InGroup(a, g) + InGroup(b, g)
    decreases |b|
  {
    if b == [] {
      assert a + b == a;
    } else {
      var n := |b| - 1;
      assert (a + b)[..|a| + n] == a + b[..n] && (a + b)[|a| + n] == b[n];
      GroupJoins(a, b[..n], g);
      assert InGroup(b, g) == InGroup(b[..n], g) + if b[n].groupKey == g then [b[n]] else [];
      assert InGroup(a + b, g) == InGroup(a + b[..n], g) + if b[n].groupKey == g then [b[n]] else [];
      hide InGroup;
    }
  }

  lemma GroupOfOne(p: Project, g: string)
    ensures InGroup([p], g) == if p.groupKey == g then [p] else []
  {
    assert [p][..0] == [];
  }

  lemma FirstInGroup(a: seq<Project>, p: Project, b: seq<Project>, g: string)
    requires p.groupKey == g && forall j :: 0 <= j < |a| ==> a[j].groupKey != g
    ensures InGroup(a + ([p] + b), g) == [p] + InGroup(b, g)
  {
    GroupJoins(a, [p] + b, g);
    GroupJoins([p], b, g);
    NoneInGroup(a, g);
    GroupOfOne(p, g);
    hide InGroup;
  }

  /** A group goes by the label of its first project. */
  lemma GroupTitled(ps: seq<Project>, i: nat, spec: Spec, fx: Fx)
    requires i < |ps| && forall j :: 0 <= j < i ==> ps[j].groupKey != ps[i].groupKey
    ensures GroupRow(ps, ps[i].groupKey, spec, fx)
         == RowOf(InGroup(ps, ps[i].groupKey), ps[i].groupKey, ps[i].groupLabel, spec, fx)
  {
    hide RowOf, InGroup;
    assert ps == ps[..i] + ([ps[i]] + ps[i + 1..]);
    FirstInGroup(ps[..i], ps[i], ps[i + 1..], ps[i].groupKey);
  }

  lemma {:induction false} NoneInGroup(ps: seq<Project>, g: string)
    requires forall j :: 0 <= j < |ps| ==> ps[j].groupKey != g
    ensures InGroup(ps, g) == []
    decreases |ps|
  {
    if ps != [] { NoneInGroup(ps[..|ps| - 1], g); }
  }

  /** What the row shows under the sort key; nothing where the metric is missing or null. */
  ghost predicate SortsBy(r: Row, spec: Spec, x: Option<real>) {
    if spec.sortKey in r.metrics then x == r.metrics[spec.sortKey] else x == None
  }

  /** Of two rows the earlier has the lower figure, the higher when descending, no figure being lowest; or an equal one and the lesser key. */
  lemma RowsInOrder(rows: seq<Row>, ps: seq<Project>, spec: Spec, fx: Fx, i: nat, j: nat, x: Option<real>, y: Option<real>)
    requires RowsOk(rows, ps, spec, fx) && i < j < |rows| && SortsBy(rows[i], spec, x) && SortsBy(rows[j], spec, y)
    ensures x == y ==> exists k: nat :: FirstDiffers(rows[i].key, rows[j].key, k)
    ensures x != y && spec.descending ==> x != None && (y == None || x.value > y.value)
    ensures x != y && !spec.descending ==> y != None && (x == None || x.value < y.value)
  {
    hide GroupRow, HasGroup, StrLess, FirstDiffers;
    assert Less(spec)(rows[i], rows[j]);
    StrLessMeaning(rows[i].key, rows[j].key);
  }
}
