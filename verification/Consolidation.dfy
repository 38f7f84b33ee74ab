/** Consolidating projects into groups and a grand total, row objects folded in place. */
module Consolidation {
  import opened Options
  import opened Currency
  import Measures
  import opened ConsolidationTotals

  /** Something has been added, and always `c`. */
  ghost predicate Only(added: seq<string>, c: string) {
    added != [] && forall x :: x in added ==> x == c
  }

  class LocalTracker {
    var currency: Option<string>
    var seen: set<string>

    /** After these currencies have been added: the local currency is the one they all are, if there is one. */
    ghost predicate Tracks(added: seq<string>)
      reads this
    {
      && seen == (set c | c in added)
      && forall c :: currency == Some(c) <==> Only(added, c)
    }

    constructor ()
      ensures Tracks([])
    {
      currency, seen := None, {};
    }

    /** True while a single currency has been seen. */
    method Add(c: string, ghost added: seq<string>) returns (single: bool)
      requires Tracks(added)
      modifies this
      ensures Tracks(added + [c])
      ensures single <==> Only(added + [c], c)
      ensures single <==> currency.Some?
    {
      seen := seen + {c};
      single := |seen| == 1;
      currency := if single then Some(c) else None;
      OnlyOneSeen(added, c);
    }
  }

  /** The size of the set of currencies tells whether all that was added is the latest. */
  lemma OnlyOneSeen(added: seq<string>, c: string)
    ensures var all := added + [c]; var seen := set x | x in all;
      && seen == (set x | x in added) + {c}
      && (|seen| == 1 <==> Only(all, c))
      && forall d :: Only(all, d) <==> Only(all, c) && d == c
  {
    var all := added + [c];
    var seen := set x | x in all;
    assert all[|added|] == c;
    assert forall x :: x in all <==> x in added || x == c;
    if |seen| == 1 {
      assert |seen - {c}| == 0;
      forall x | x in all ensures x == c { assert x !in seen - {c}; }
    }
    if Only(all, c) { assert seen == {c}; }
  }

  method ExtractMeasures(items: seq<Measures.Item>, ms: seq<Measures.Measure>) returns (values: map<string, real>)
    ensures forall k :: At(values, k) == ValueOf(items, ms, k)
  {
    values := map[];
    for i := 0 to |ms|
      invariant forall k :: At(values, k) == ValueOf(items, ms[..i], k)
    {
      assert ms[..i + 1][..i] == ms[..i];
      var value := Measures.MeasureValue(items, ms[i]);
      values := values[ms[i].key := value];
    }
    assert ms[..|ms|] == ms;
  }

  /** `r` is `sums` with the amount of every declared measure added, as often as it is declared. */
  ghost predicate Added(sums: map<string, real>, r: map<string, real>, ms: seq<Measures.Measure>, amount: string -> real) {
    r.Keys == sums.Keys && forall k :: k in r ==> r[k] == sums[k] + Multiple(Times(ms, k), amount(k))
  }

  method AddAll(sums: map<string, real>, ms: seq<Measures.Measure>, amount: string -> real) returns (r: map<string, real>)
    requires sums.Keys == Keys(ms)
    ensures Added(sums, r, ms, amount)
  {
    hide Added, Keys, Times, Multiple;
    r := sums;
    NothingAdded(sums, amount);
    for i := 0 to |ms|
      invariant Added(sums, r, ms[..i], amount)
    {
      DeclaredIsKey(ms, i);
      assert ms[..i + 1] == ms[..i] + [ms[i]];
      OneAdded(sums, r, ms[..i], ms[i], amount);
      r := r[ms[i].key := At(r, ms[i].key) + amount(ms[i].key)];
    }
    assert ms[..|ms|] == ms;
  }

  lemma DeclaredIsKey(ms: seq<Measures.Measure>, i: nat)
    requires i < |ms|
    ensures ms[i].key in Keys(ms)
  {
  }

  lemma NothingAdded(sums: map<string, real>, amount: string -> real)
    ensures Added(sums, sums, [], amount)
  {
  }

  lemma OneAdded(sums: map<string, real>, r: map<string, real>, ms: seq<Measures.Measure>, m: Measures.Measure, amount: string -> real)
    requires Added(sums, r, ms, amount) && m.key in sums.Keys
    ensures Added(sums, r[m.key := At(r, m.key) + amount(m.key)], ms + [m], amount)
  {
    assert (ms + [m])[..|ms|] == ms;
    OnceMore(Times(ms, m.key), amount(m.key));
    hide Multiple;
  }

  lemma OnceMore(n: nat, x: real)
    ensures Multiple(n, x) + x == Multiple(n + 1, x)
  {
  }

  class WorkingRow {
    const key: string
    const title: string
    var projects: nat
    var sums: map<string, real>
    var localSums: map<string, real>
    var local: bool
    const tracker: LocalTracker
    var excludedForFx: nat

    function Now(): Totals
      reads this, tracker
    {
      Totals(projects, sums, tracker.currency, if local then Some(localSums) else None, excludedForFx)
    }

    /** The row is what folding these projects makes it. */
    ghost predicate Holds(ps: seq<Project>, spec: Spec, fx: Fx)
      reads this, tracker
    {
      && tracker.Tracks(CurrencyList(ps))
      && localSums.Keys == Keys(spec.measures)
      && (SameCurrency(ps) ==> LocalSumsOk(localSums, ps, spec))
      && Describes(Now(), ps, spec, fx)
    }

    constructor (spec: Spec, fx: Fx, key: string, title: string)
      ensures Holds([], spec, fx) && this.key == key && this.title == title && fresh(tracker)
    {
      this.key, this.title := key, title;
      projects, excludedForFx, local := 0, 0, false;
      sums := map k | k in Keys(spec.measures) :: 0.0;
      localSums := map k | k in Keys(spec.measures) :: 0.0;
      tracker := new LocalTracker();
    }

    method Fold(p: Project, spec: Spec, fx: Fx, ghost ps: seq<Project>)
      requires Holds(ps, spec, fx)
      modifies this, tracker
      ensures Holds(ps + [p], spec, fx)
    {
      ghost var before := Now();
      SumsKeys(before, ps, spec, fx);
      hide ConvertAmount, IsConvertible, ValueOf, Times, Describes, Added, Keys, SumsOk, LocalSumsOk, SumOf, LocalSumOf, AllIn, ExcludedOf;
      hide CurrencyList, SameCurrency, LocalTracker.Tracks, At;
      projects := projects + 1;
      var values := ExtractMeasures(p.items, spec.measures);
      AddConverted(p, values, spec, fx, ps);
      AddLocal(p, values, spec, ps);
      LocalTold(ps + [p]);
      Folded(before, Now(), ps, p, spec, fx);
    }

    lemma LocalTold(ps: seq<Project>)
      requires tracker.Tracks(CurrencyList(ps))
      ensures forall c :: tracker.currency == Some(c) <==> AllIn(ps, c)
    {
      forall c ensures tracker.currency == Some(c) <==> AllIn(ps, c) { OnlyIsAllIn(ps, c); }
    }

    method AddConverted(p: Project, values: map<string, real>, spec: Spec, fx: Fx, ghost ps: seq<Project>)
      requires SumsOk(sums, ps, spec, fx) && forall k :: At(values, k) == ValueOf(p.items, spec.measures, k)
      modifies this`sums, this`excludedForFx
      ensures SumsOk(sums, ps + [p], spec, fx)
      ensures excludedForFx == old(excludedForFx) + if IsConvertible(p.currency, fx.target, fx.rates) then 0 else 1
    {
      ghost var before := sums;
      assert sums.Keys == Keys(spec.measures);
      hide *;
      if IsConvertible(p.currency, fx.target, fx.rates) {
        var converted := k => ConvertAmount(At(values, k), p.currency, fx.target, fx.rates);
        sums := AddAll(sums, spec.measures, converted);
        SumsMove(before, sums, ps, p, spec, fx, converted);
      } else {
        excludedForFx := excludedForFx + 1;
        SumsStay(sums, ps, p, spec, fx);
      }
    }

    method AddLocal(p: Project, values: map<string, real>, spec: Spec, ghost ps: seq<Project>)
      requires tracker.Tracks(CurrencyList(ps)) && localSums.Keys == Keys(spec.measures)
      requires SameCurrency(ps) ==> LocalSumsOk(localSums, ps, spec)
      requires forall k :: At(values, k) == ValueOf(p.items, spec.measures, k)
      modifies this`localSums, this`local, tracker
      ensures tracker.Tracks(CurrencyList(ps + [p])) && localSums.Keys == Keys(spec.measures)
      ensures local <==> tracker.currency.Some?
      ensures local <==> SameCurrency(ps + [p])
      ensures local ==> LocalSumsOk(localSums, ps + [p], spec)
    {
      ghost var before := localSums;
      hide *;
      OneMoreCurrency(ps, p);
      var single := tracker.Add(p.currency, CurrencyList(ps));
      if single {
        var plain := k => At(values, k);
        localSums := AddAll(localSums, spec.measures, plain);
        LocalSumsMove(before, localSums, ps, p, spec, plain);
        local := true;
      } else {
        local := false;
      }
    }
  }

  function CurrencyList(ps: seq<Project>): seq<string> {
    seq(|ps|, i requires 0 <= i < |ps| => ps[i].currency)
  }

  ghost predicate SameCurrency(ps: seq<Project>) {
    ps == [] || AllIn(ps, ps[0].currency)
  }

  lemma OnlyIsAllIn(ps: seq<Project>, c: string)
    ensures Only(CurrencyList(ps), c) <==> AllIn(ps, c)
  {
    if Only(CurrencyList(ps), c) {
      forall p | p in ps ensures p.currency == c {
        var i :| 0 <= i < |ps| && ps[i] == p;
        assert CurrencyList(ps)[i] in CurrencyList(ps);
      }
    }
  }

  lemma OneMoreCurrency(ps: seq<Project>, p: Project)
    ensures CurrencyList(ps + [p]) == CurrencyList(ps) + [p.currency]
    ensures SameCurrency(ps + [p]) <==> Only(CurrencyList(ps) + [p.currency], p.currency)
    ensures SameCurrency(ps + [p]) ==> SameCurrency(ps)
  {
    var all := ps + [p];
    OnlyIsAllIn(all, p.currency);
    assert all[|ps|] == p && all[0] in all && p in all;
    assert forall q :: q in ps ==> q in all;
    if ps != [] { assert all[0] == ps[0]; }
    assert CurrencyList(all) == CurrencyList(ps) + [p.currency];
  }

  ghost predicate SumsOk(sums: map<string, real>, ps: seq<Project>, spec: Spec, fx: Fx) {
    sums.Keys == Keys(spec.measures) && forall k :: k in sums ==> sums[k] == SumOf(ps, spec, fx, k)
  }

  ghost predicate LocalSumsOk(sums: map<string, real>, ps: seq<Project>, spec: Spec) {
    sums.Keys == Keys(spec.measures) && forall k :: k in sums ==> sums[k] == LocalSumOf(ps, spec, k)
  }

  lemma SumsKeys(t: Totals, ps: seq<Project>, spec: Spec, fx: Fx)
    requires Describes(t, ps, spec, fx)
    ensures SumsOk(t.sums, ps, spec, fx) && t.sums.Keys == Keys(spec.measures)
  {
  }

  lemma SumsMove(sums: map<string, real>, r: map<string, real>, ps: seq<Project>, p: Project, spec: Spec, fx: Fx, amount: string -> real)
    requires SumsOk(sums, ps, spec, fx) && Added(sums, r, spec.measures, amount)
    requires IsConvertible(p.currency, fx.target, fx.rates)
    requires forall k :: amount(k) == ConvertAmount(ValueOf(p.items, spec.measures, k), p.currency, fx.target, fx.rates)
    ensures SumsOk(r, ps + [p], spec, fx)
  {
    OneMore(ps, p, spec, fx);
    hide ConvertAmount, IsConvertible, ValueOf, Times, Multiple, SumOf;
  }

  lemma SumsStay(sums: map<string, real>, ps: seq<Project>, p: Project, spec: Spec, fx: Fx)
    requires SumsOk(sums, ps, spec, fx) && !IsConvertible(p.currency, fx.target, fx.rates)
    ensures SumsOk(sums, ps + [p], spec, fx)
  {
    OneMore(ps, p, spec, fx);
    hide IsConvertible, ValueOf, Times, Multiple, SumOf;
  }

  lemma LocalSumsMove(sums: map<string, real>, r: map<string, real>, ps: seq<Project>, p: Project, spec: Spec, amount: string -> real)
    requires LocalSumsOk(sums, ps, spec) && Added(sums, r, spec.measures, amount)
    requires forall k :: amount(k) == ValueOf(p.items, spec.measures, k)
    ensures LocalSumsOk(r, ps + [p], spec) && r.Keys == Keys(spec.measures)
  {
    OneMore(ps, p, spec, Fx("", None));
    hide ValueOf, Times, Multiple, LocalSumOf;
  }

  lemma Folded(t: Totals, u: Totals, ps: seq<Project>, p: Project, spec: Spec, fx: Fx)
    requires Describes(t, ps, spec, fx) && u.projects == t.projects + 1
    requires u.excluded == t.excluded + if IsConvertible(p.currency, fx.target, fx.rates) then 0 else 1
    requires SumsOk(u.sums, ps + [p], spec, fx)
    requires forall c :: u.currency == Some(c) <==> AllIn(ps + [p], c)
    requires u.local.Some? <==> u.currency.Some?
    requires u.local.Some? ==> LocalSumsOk(u.local.value, ps + [p], spec)
    ensures Describes(u, ps + [p], spec, fx)
  {
    hide IsConvertible, SumOf, LocalSumOf, AllIn, ExcludedOf;
    OneMore(ps, p, spec, fx);
  }

  /** How the specification moves with one more project. */
  lemma OneMore(ps: seq<Project>, p: Project, spec: Spec, fx: Fx)
    ensures ExcludedOf(ps + [p], fx) == ExcludedOf(ps, fx) + if IsConvertible(p.currency, fx.target, fx.rates) then 0 else 1
    ensures forall k :: SumOf(ps + [p], spec, fx, k) == SumOf(ps, spec, fx, k) + Share(p, spec, fx, k)
    ensures forall k :: LocalSumOf(ps + [p], spec, k) == LocalSumOf(ps, spec, k) + LocalShare(p, spec, k)
  {
    var all := ps + [p];
    assert all[..|ps|] == ps;
  }
}
