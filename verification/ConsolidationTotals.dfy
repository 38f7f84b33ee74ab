/** What a consolidated row says about the projects folded into it, and the laws between rows. */
module ConsolidationTotals {
  import opened Options
  import opened Ids
  import opened Rounding
  import opened Currency
  import Measures

  datatype DerivedOp = Diff | DiffFloor0 | RatioPct | RatioPctOrNull | RatioOrNull
  datatype Derived = Derived(key: string, op: DerivedOp, a: string, b: string)
  datatype Spec = Spec(measures: seq<Measures.Measure>, derived: seq<Derived>, sortKey: string, descending: bool)

  datatype Project = Project(groupKey: string, groupLabel: string, currency: string, items: seq<Measures.Item>)

  /** The reporting currency and the rate table of one run. */
  datatype Fx = Fx(target: string, rates: Rates)

  function Keys(ms: seq<Measures.Measure>): set<string> {
    set m | m in ms :: m.key
  }

  /** How often the key is declared; every declaration is folded. */
  function Times(ms: seq<Measures.Measure>, k: string): nat {
    if ms == [] then 0 else Times(ms[..|ms| - 1], k) + if ms[|ms| - 1].key == k then 1 else 0
  }

  /** The extracted value under a key: that of its last declaration. */
  function ValueOf(items: seq<Measures.Item>, ms: seq<Measures.Measure>, k: string): real {
    if ms == [] then 0.0
    else if ms[|ms| - 1].key == k then Measures.Total(items, ms[|ms| - 1])
    else ValueOf(items, ms[..|ms| - 1], k)
  }

  function Multiple(n: nat, x: real): real {
    n as real * x
  }

  function LocalShare(p: Project, spec: Spec, k: string): real {
    Multiple(Times(spec.measures, k), ValueOf(p.items, spec.measures, k))
  }

  function Share(p: Project, spec: Spec, fx: Fx, k: string): real {
    if IsConvertible(p.currency, fx.target, fx.rates)
    then Multiple(Times(spec.measures, k), ConvertAmount(ValueOf(p.items, spec.measures, k), p.currency, fx.target, fx.rates))
    else 0.0
  }

  function SumOf(ps: seq<Project>, spec: Spec, fx: Fx, k: string): real {
    if ps == [] then 0.0 else SumOf(ps[..|ps| - 1], spec, fx, k) + Share(ps[|ps| - 1], spec, fx, k)
  }

  function LocalSumOf(ps: seq<Project>, spec: Spec, k: string): real {
    if ps == [] then 0.0 else LocalSumOf(ps[..|ps| - 1], spec, k) + LocalShare(ps[|ps| - 1], spec, k)
  }

  function ExcludedOf(ps: seq<Project>, fx: Fx): nat {
    if ps == [] then 0
    else ExcludedOf(ps[..|ps| - 1], fx) + if IsConvertible(ps[|ps| - 1].currency, fx.target, fx.rates) then 0 else 1
  }

  /** All of them, and there is one, are in currency `c`. */
  ghost predicate AllIn(ps: seq<Project>, c: string) {
    ps != [] && forall p :: p in ps ==> p.currency == c
  }

  datatype Totals = Totals(
    projects: nat, sums: map<string, real>, currency: Option<string>, local: Option<map<string, real>>, excluded: nat)

  /** A row before rounding, told by its projects alone. */
  ghost predicate Describes(t: Totals, ps: seq<Project>, spec: Spec, fx: Fx) {
    && t.projects == |ps|
    && t.excluded == ExcludedOf(ps, fx)
    && t.sums.Keys == Keys(spec.measures) && (forall k :: k in t.sums ==> t.sums[k] == SumOf(ps, spec, fx, k))
    && (forall c :: t.currency == Some(c) <==> AllIn(ps, c))
    && (t.local.Some? <==> t.currency.Some?)
    && (t.local.Some? ==> t.local.value.Keys == Keys(spec.measures)
                          && forall k :: k in t.local.value ==> t.local.value[k] == LocalSumOf(ps, spec, k))
  }

  /** ... and its projects determine it. */
  ghost function TotalsOf(ps: seq<Project>, spec: Spec, fx: Fx): Totals {
    var shared := ps != [] && AllIn(ps, ps[0].currency);
    Totals(
      |ps|,
      map k | k in Keys(spec.measures) :: SumOf(ps, spec, fx, k),
      if shared then Some(ps[0].currency) else None,
      if shared then Some(map k | k in Keys(spec.measures) :: LocalSumOf(ps, spec, k)) else None,
      ExcludedOf(ps, fx))
  }

  lemma TotalsDetermined(t: Totals, ps: seq<Project>, spec: Spec, fx: Fx)
    requires Describes(t, ps, spec, fx)
    ensures t == TotalsOf(ps, spec, fx)
  {
    var u := TotalsOf(ps, spec, fx);
    assert forall c :: AllIn(ps, c) ==> ps[0] in ps && c == ps[0].currency;
    assert t.currency == u.currency;
    assert t.sums == u.sums;
    if t.local.Some? { assert t.local.value == u.local.value; }
  }

  /** A row has a local figure exactly if it has projects and they share one currency. */
  lemma LocalIffOneCurrency(ps: seq<Project>, spec: Spec, fx: Fx)
    ensures var t := TotalsOf(ps, spec, fx);
            && Describes(t, ps, spec, fx)
            && (t.local.Some? <==> exists c :: AllIn(ps, c))
            && (forall c :: t.currency == Some(c) <==> AllIn(ps, c))
  {
    hide SumOf, LocalSumOf, ExcludedOf, Keys;
    assert forall c :: AllIn(ps, c) ==> ps[0] in ps && c == ps[0].currency;
  }

  datatype Row = Row(
    key: string, title: string, projects: nat, metrics: map<string, Option<real>>,
    localCurrency: Option<string>, local: Option<map<string, real>>, excludedForFx: nat)

  function ApplyDerived(op: DerivedOp, a: real, b: real): Option<real> {
    match op
    case Diff => Some(Round2(a - b))
    case DiffFloor0 => Some(Round2(if a - b < 0.0 then 0.0 else a - b))
    case RatioPct => if b > 0.0 then Some(Round1(a / b * 100.0)) else Some(0.0)
    case RatioPctOrNull => if b > 0.0 then Some(Round1(a / b * 100.0)) else None
    case RatioOrNull => if b > 0.0 then Some(Round2(a / b)) else None
  }

  function At(sums: map<string, real>, k: string): real {
    if k in sums then sums[k] else 0.0
  }

  function WithDerived(metrics: map<string, Option<real>>, sums: map<string, real>, ds: seq<Derived>): map<string, Option<real>> {
    if ds == [] then metrics
    else
      var d := ds[|ds| - 1];
      WithDerived(metrics, sums, ds[..|ds| - 1])[d.key := ApplyDerived(d.op, At(sums, d.a), At(sums, d.b))]
  }

  function Finalise(key: string, title: string, t: Totals, spec: Spec): Row {
    Row(key, title, t.projects,
        WithDerived(map k | k in t.sums :: Some(Round2(t.sums[k])), t.sums, spec.derived),
        t.currency,
        if t.local.Some? then Some(map k | k in t.local.value :: Round2(t.local.value[k])) else None,
        t.excluded)
  }

  /** Derived metrics read the raw sums only: naming an earlier derived metric that is no measure reads zero. */
  lemma DerivedReadsMeasuresOnly(t: Totals, ps: seq<Project>, spec: Spec, fx: Fx, k: string)
    requires Describes(t, ps, spec, fx) && k !in Keys(spec.measures)
    ensures At(t.sums, k) == 0.0 == SumOf(ps, spec, fx, k)
  {
    Undeclared(spec.measures, k);
    UndeclaredSum(ps, spec, fx, k);
  }

  lemma {:induction false} Undeclared(ms: seq<Measures.Measure>, k: string)
    requires k !in Keys(ms)
    ensures Times(ms, k) == 0
    decreases |ms|
  {
    if ms != [] {
      assert ms[|ms| - 1] in ms;
      Undeclared(ms[..|ms| - 1], k);
    }
  }

  lemma {:induction false} UndeclaredSum(ps: seq<Project>, spec: Spec, fx: Fx, k: string)
    requires Times(spec.measures, k) == 0
    ensures SumOf(ps, spec, fx, k) == 0.0
    decreases |ps|
  {
    if ps != [] { UndeclaredSum(ps[..|ps| - 1], spec, fx, k); }
  }

  // ---------------------------------------------------------------------------------------------
  // Groups and the grand total

  function InGroup(ps: seq<Project>, g: string): seq<Project> {
    if ps == [] then []
    else InGroup(ps[..|ps| - 1], g) + if ps[|ps| - 1].groupKey == g then [ps[|ps| - 1]] else []
  }

  function SumOverGroups(gs: seq<string>, ps: seq<Project>, spec: Spec, fx: Fx, k: string): real {
    if gs == [] then 0.0
    else SumOverGroups(gs[..|gs| - 1], ps, spec, fx, k) + SumOf(InGroup(ps, gs[|gs| - 1]), spec, fx, k)
  }

  function CountOverGroups(gs: seq<string>, ps: seq<Project>): nat {
    if gs == [] then 0 else CountOverGroups(gs[..|gs| - 1], ps) + |InGroup(ps, gs[|gs| - 1])|
  }

  function ExcludedOverGroups(gs: seq<string>, ps: seq<Project>, fx: Fx): nat {
    if gs == [] then 0 else ExcludedOverGroups(gs[..|gs| - 1], ps, fx) + ExcludedOf(InGroup(ps, gs[|gs| - 1]), fx)
  }

  /** The grand total is the sum of the groups: measure by measure, in projects and in exclusions. */
  lemma {:induction false} GroupsConserve(gs: seq<string>, ps: seq<Project>, spec: Spec, fx: Fx, k: string)
    requires Distinct(gs) && forall p :: p in ps ==> p.groupKey in gs
    ensures SumOverGroups(gs, ps, spec, fx, k) == SumOf(ps, spec, fx, k)
    ensures CountOverGroups(gs, ps) == |ps|
    ensures ExcludedOverGroups(gs, ps, fx) == ExcludedOf(ps, fx)
    decreases |ps|
  {
    if ps == [] {
      NoProjects(gs, spec, fx, k);
    } else {
      assert ps[|ps| - 1] in ps;
      GroupsConserve(gs, ps[..|ps| - 1], spec, fx, k);
      OneMoreProject(gs, ps, spec, fx, k);
    }
  }

  lemma {:induction false} NoProjects(gs: seq<string>, spec: Spec, fx: Fx, k: string)
    ensures SumOverGroups(gs, [], spec, fx, k) == 0.0 && CountOverGroups(gs, []) == 0 && ExcludedOverGroups(gs, [], fx) == 0
    decreases |gs|
  {
    if gs != [] { NoProjects(gs[..|gs| - 1], spec, fx, k); }
  }

  lemma OneMoreInGroup(ps: seq<Project>, g: string, spec: Spec, fx: Fx, k: string)
    requires ps != []
    ensures var front, p := InGroup(ps[..|ps| - 1], g), ps[|ps| - 1]; var counts := p.groupKey == g;
            && |InGroup(ps, g)| == |front| + (if counts then 1 else 0)
            && SumOf(InGroup(ps, g), spec, fx, k) == SumOf(front, spec, fx, k) + (if counts then Share(p, spec, fx, k) else 0.0)
            && ExcludedOf(InGroup(ps, g), fx)
               == ExcludedOf(front, fx) + (if counts && !IsConvertible(p.currency, fx.target, fx.rates) then 1 else 0)
  {
    hide Share, IsConvertible;
    var front, p := InGroup(ps[..|ps| - 1], g), ps[|ps| - 1];
    assert (front + [p])[..|front|] == front;
    assert front + [] == front;
  }

  /** A project counts in its own group once, and in no other. */
  lemma {:induction false} OneMoreProject(gs: seq<string>, ps: seq<Project>, spec: Spec, fx: Fx, k: string)
    requires Distinct(gs) && ps != []
    ensures var front, p := ps[..|ps| - 1], ps[|ps| - 1]; var counts := p.groupKey in gs;
            && SumOverGroups(gs, ps, spec, fx, k) == SumOverGroups(gs, front, spec, fx, k) + (if counts then Share(p, spec, fx, k) else 0.0)
            && CountOverGroups(gs, ps) == CountOverGroups(gs, front) + (if counts then 1 else 0)
            && ExcludedOverGroups(gs, ps, fx)
               == ExcludedOverGroups(gs, front, fx) + (if counts && !IsConvertible(p.currency, fx.target, fx.rates) then 1 else 0)
    decreases |gs|
  {
    hide Share, IsConvertible, InGroup, SumOf, ExcludedOf, Distinct;
    if gs != [] {
      var g := gs[|gs| - 1];
      DistinctFront(gs);
      OneMoreProject(gs[..|gs| - 1], ps, spec, fx, k);
      OneMoreInGroup(ps, g, spec, fx, k);
    }
  }

  lemma DistinctFront(gs: seq<string>)
    requires Distinct(gs) && gs != []
    ensures var front, g := gs[..|gs| - 1], gs[|gs| - 1];
            Distinct(front) && g !in front && forall h :: h in gs <==> h in front || h == g
  {
    assert gs == gs[..|gs| - 1] + [gs[|gs| - 1]];
  }

  // ---------------------------------------------------------------------------------------------
  // Changing the reporting currency

  /** The same exclusions, and every sum times the rate ratio. */
  lemma {:induction false} SwitchingScales(ps: seq<Project>, spec: Spec, a: string, b: string, rates: Rates, k: string)
    requires MutuallyConvertible(a, b, rates)
    ensures SumOf(ps, spec, Fx(b, rates), k) == SumOf(ps, spec, Fx(a, rates), k) * RateOf(a, b, rates)
    ensures ExcludedOf(ps, Fx(b, rates)) == ExcludedOf(ps, Fx(a, rates))
    decreases |ps|
  {
    hide IsConvertible, ConvertAmount, RateOf, MutuallyConvertible, ValueOf, Times, Multiple;
    if ps != [] {
      var p := ps[|ps| - 1];
      SwitchingScales(ps[..|ps| - 1], spec, a, b, rates, k);
      var v, n := ValueOf(p.items, spec.measures, k), Times(spec.measures, k);
      SwitchTarget(v, p.currency, a, b, rates);
      if IsConvertible(p.currency, a, rates) {
        ScaleBoth(SumOf(ps[..|ps| - 1], spec, Fx(a, rates), k), n, ConvertAmount(v, p.currency, a, rates),
                  ConvertAmount(v, p.currency, b, rates), RateOf(a, b, rates));
      }
    }
  }

  lemma ScaleBoth(s: real, n: nat, v: real, w: real, r: real)
    requires w == v * r
    ensures s * r + Multiple(n, w) == (s + Multiple(n, v)) * r
  {
    var m := n as real;
    assert m * (v * r) == m * v * r;
  }

  // ---------------------------------------------------------------------------------------------
  // Worth in the base currency

  /** The table has a rate for every project's currency and for the target, which is not zero. */
  ghost predicate AllRated(ps: seq<Project>, target: string, rates: map<string, real>) {
    && target in rates && rates[target] != 0.0
    && forall p :: p in ps ==> p.currency in rates
  }

  /** The local amounts of a measure, each at its own currency's rate. */
  ghost function WorthOf(ps: seq<Project>, spec: Spec, rates: map<string, real>, k: string): real
    requires forall p :: p in ps ==> p.currency in rates
  {
    if ps == [] then 0.0
    else
      assert ps[|ps| - 1] in ps;
      WorthOf(ps[..|ps| - 1], spec, rates, k) + LocalShare(ps[|ps| - 1], spec, k) * rates[ps[|ps| - 1].currency]
  }

  /** The consolidated sum, at the target's rate, is worth what the projects' local amounts are. */
  lemma {:induction false} SumKeepsWorth(ps: seq<Project>, spec: Spec, target: string, rates: map<string, real>, k: string)
    requires AllRated(ps, target, rates)
    ensures SumOf(ps, spec, Fx(target, Some(rates)), k) * rates[target] == WorthOf(ps, spec, rates, k)
    ensures ExcludedOf(ps, Fx(target, Some(rates))) == 0
    decreases |ps|
  {
    hide ConvertAmount, ValueOf, Times, Multiple;
    if ps != [] {
      var front, p := ps[..|ps| - 1], ps[|ps| - 1];
      assert p in ps && forall q :: q in front ==> q in ps;
      SumKeepsWorth(front, spec, target, rates, k);
      var fx, n, v := Fx(target, Some(rates)), Times(spec.measures, k), ValueOf(p.items, spec.measures, k);
      WorthIsKept(v, p.currency, target, Some(rates));
      MultipleWorth(n, ConvertAmount(v, p.currency, target, Some(rates)), v, rates[target], rates[p.currency]);
      Distribute(SumOf(front, spec, fx, k), Share(p, spec, fx, k), rates[target]);
    }
  }

  lemma MultipleWorth(n: nat, w: real, v: real, q: real, p: real)
    requires w * q == v * p
    ensures Multiple(n, w) * q == Multiple(n, v) * p
  {
    var m := n as real;
    assert m * w * q == m * (w * q) && m * v * p == m * (v * p);
  }

  lemma Distribute(x: real, y: real, q: real)
    ensures (x + y) * q == x * q + y * q
  {
  }
}
