/** Derived metrics that name earlier derived metrics: what the finaliser reads, and when that is what is documented. */
module DerivedReading {
  import opened Options
  import opened Rounding
  import opened ConsolidationTotals

  function OrZero(v: Option<real>): real {
    v.GetOr(0.0)
  }

  /** The metric as the finaliser computes it, from the sums alone. */
  function MetricOf(d: Derived, sums: map<string, real>): Option<real> {
    ApplyDerived(d.op, At(sums, d.a), At(sums, d.b))
  }

  /** The last of the earlier metrics stored under the key. */
  function LastUnder(ds: seq<Derived>, k: string): Option<Derived> {
    if ds == [] then None
    else if ds[|ds| - 1].key == k then Some(ds[|ds| - 1])
    else LastUnder(ds[..|ds| - 1], k)
  }

  /**
   * The documented reading of an operand after the metrics `ds`: a measure's sum, even where a metric reuses
   * its key, else the metric last declared under the key, itself read as documented; null or missing reads 0.
   */
  function Documented(sums: map<string, real>, ds: seq<Derived>, k: string): real
    decreases |ds|
  {
    if k in sums then sums[k]
    else if ds == [] then 0.0
    else
      var front, d := ds[..|ds| - 1], ds[|ds| - 1];
      if d.key == k then OrZero(ApplyDerived(d.op, Documented(sums, front, d.a), Documented(sums, front, d.b)))
      else Documented(sums, front, k)
  }

  /** Every operand of every metric is read as documented. */
  ghost predicate ReadsAsDocumented(sums: map<string, real>, ds: seq<Derived>)
    decreases |ds|
  {
    ds != [] ==>
      var front, d := ds[..|ds| - 1], ds[|ds| - 1];
      && ReadsAsDocumented(sums, front)
      && At(sums, d.a) == Documented(sums, front, d.a)
      && At(sums, d.b) == Documented(sums, front, d.b)
  }

  // ---------------------------------------------------------------------------------------------
  // Metrics that are never anything but null or zero

  predicate IsDifference(op: DerivedOp) {
    op == Diff || op == DiffFloor0
  }

  /** A difference of two keys one of which is measured, or a ratio of two measured ones. */
  predicate MayCount(d: Derived, ms: set<string>) {
    if IsDifference(d.op) then d.a != d.b && (d.a in ms || d.b in ms) else d.a in ms && d.b in ms
  }

  lemma RoundsTo(k: int)
    ensures Round2(k as real) == k as real && Round1(k as real) == k as real
  {
    RoundWhole(k * 100);
    RoundWhole(k * 10);
    assert (k * 100) as real == k as real * 100.0;
    assert (k * 10) as real == k as real * 10.0;
  }

  /** Sums for which the metric is not zero: 1 for the first operand, and for the second whatever tells them apart. */
  function Telling(d: Derived, ms: set<string>): map<string, real> {
    map k | k in ms ::
      if k == d.a then 1.0
      else if k == d.b then (if !IsDifference(d.op) then 1.0 else if d.a in ms then 0.0 else -1.0)
      else 0.0
  }

  lemma TellingTells(d: Derived, ms: set<string>)
    requires MayCount(d, ms)
    ensures OrZero(MetricOf(d, Telling(d, ms))) != 0.0
  {
    RoundsTo(1);
    RoundsTo(100);
    var sums := Telling(d, ms);
    if IsDifference(d.op) {
      assert At(sums, d.a) - At(sums, d.b) == 1.0;
    } else {
      assert At(sums, d.a) == 1.0 == At(sums, d.b);
    }
  }

  lemma OtherwiseZero(d: Derived, sums: map<string, real>)
    requires !MayCount(d, sums.Keys)
    ensures OrZero(MetricOf(d, sums)) == 0.0
  {
    RoundsTo(0);
    if !IsDifference(d.op) && At(sums, d.b) > 0.0 {
      assert At(sums, d.a) == 0.0;
      NoPart(At(sums, d.b));
    }
  }

  lemma NoPart(b: real)
    requires b > 0.0
    ensures 0.0 / b == 0.0
  {
  }

  /** A derived metric is null or zero whatever the sums exactly if its operands can never tell. */
  lemma NeverCountsIff(d: Derived, ms: set<string>)
    ensures (forall sums: map<string, real> :: sums.Keys == ms ==> OrZero(MetricOf(d, sums)) == 0.0) <==> !MayCount(d, ms)
  {
    hide MetricOf, MayCount, Telling;
    if MayCount(d, ms) {
      TellingTells(d, ms);
      TellingKeys(d, ms);
    } else {
      forall sums: map<string, real> | sums.Keys == ms ensures OrZero(MetricOf(d, sums)) == 0.0 {
        OtherwiseZero(d, sums);
      }
    }
  }

  lemma TellingKeys(d: Derived, ms: set<string>)
    ensures Telling(d, ms).Keys == ms
  {
  }

  // ---------------------------------------------------------------------------------------------
  // When a specification reads as documented

  /** The operand is a measure, names nothing earlier, or names a metric that never counts. */
  predicate SafeOperand(ds: seq<Derived>, k: string, ms: set<string>) {
    k in ms || LastUnder(ds, k).None? || !MayCount(LastUnder(ds, k).value, ms)
  }

  predicate SafeSpec(ds: seq<Derived>, ms: set<string>)
    decreases |ds|
  {
    ds != [] ==>
      var front, d := ds[..|ds| - 1], ds[|ds| - 1];
      SafeSpec(front, ms) && SafeOperand(front, d.a, ms) && SafeOperand(front, d.b, ms)
  }

  /** Where everything earlier reads as documented, the documented reading of a key is what was computed under it. */
  lemma {:induction false} DocumentedIs(sums: map<string, real>, ds: seq<Derived>, k: string)
    requires ReadsAsDocumented(sums, ds) && k !in sums
    ensures Documented(sums, ds, k) ==
      if LastUnder(ds, k).Some? then OrZero(MetricOf(LastUnder(ds, k).value, sums)) else 0.0
    decreases |ds|
  {
    hide ApplyDerived;
    if ds != [] && ds[|ds| - 1].key != k {
      DocumentedIs(sums, ds[..|ds| - 1], k);
    }
  }

  lemma {:induction false} SafeReads(sums: map<string, real>, ds: seq<Derived>)
    requires SafeSpec(ds, sums.Keys)
    ensures ReadsAsDocumented(sums, ds)
    decreases |ds|
  {
    hide MetricOf, MayCount;
    if ds != [] {
      var front, d := ds[..|ds| - 1], ds[|ds| - 1];
      SafeReads(sums, front);
      SafeRead(sums, front, d.a);
      SafeRead(sums, front, d.b);
    }
  }

  lemma SafeRead(sums: map<string, real>, ds: seq<Derived>, k: string)
    requires ReadsAsDocumented(sums, ds) && SafeOperand(ds, k, sums.Keys)
    ensures At(sums, k) == Documented(sums, ds, k)
  {
    hide MetricOf, MayCount, LastUnder;
    if k !in sums {
      DocumentedIs(sums, ds, k);
      if LastUnder(ds, k).Some? { OtherwiseZero(LastUnder(ds, k).value, sums); }
    }
  }

  /** An unsafe operand is misread for some sums, if the documented reading got that far. */
  lemma UnsafeMisread(ds: seq<Derived>, k: string, ms: set<string>)
    requires SafeSpec(ds, ms) && !SafeOperand(ds, k, ms)
    ensures exists sums: map<string, real> :: sums.Keys == ms && At(sums, k) != Documented(sums, ds, k)
  {
    hide MetricOf, MayCount, LastUnder, Telling, ReadsAsDocumented;
    var d := LastUnder(ds, k).value;
    var sums := Telling(d, ms);
    TellingTells(d, ms);
    TellingKeys(d, ms);
    SafeReads(sums, ds);
    DocumentedIs(sums, ds, k);
  }

  lemma {:induction false} UnsafeSpecMisreads(ds: seq<Derived>, ms: set<string>)
    requires !SafeSpec(ds, ms)
    ensures exists sums: map<string, real> :: sums.Keys == ms && !ReadsAsDocumented(sums, ds)
    decreases |ds|
  {
    hide SafeOperand, Documented;
    var front, d := ds[..|ds| - 1], ds[|ds| - 1];
    if !SafeSpec(front, ms) {
      UnsafeSpecMisreads(front, ms);
      var sums: map<string, real> :| sums.Keys == ms && !ReadsAsDocumented(sums, front);
      assert !ReadsAsDocumented(sums, ds);
    } else {
      var k := if SafeOperand(front, d.a, ms) then d.b else d.a;
      UnsafeMisread(front, k, ms);
      var sums: map<string, real> :| sums.Keys == ms && At(sums, k) != Documented(sums, front, k);
      assert !ReadsAsDocumented(sums, ds);
    }
  }

  /**
   * The finaliser reads every operand as documented, whatever the sums, if and only if each one is a
   * measure, names nothing declared earlier, or names a metric that is never anything but null or zero.
   */
  lemma SpecReadsAsDocumentedIff(ds: seq<Derived>, ms: set<string>)
    ensures (forall sums: map<string, real> :: sums.Keys == ms ==> ReadsAsDocumented(sums, ds)) <==> SafeSpec(ds, ms)
  {
    hide ReadsAsDocumented, SafeSpec;
    if SafeSpec(ds, ms) {
      forall sums: map<string, real> | sums.Keys == ms ensures ReadsAsDocumented(sums, ds) { SafeReads(sums, ds); }
    } else {
      UnsafeSpecMisreads(ds, ms);
    }
  }

  /** Then the row holds, under a derived key, the metric computed from the documented readings. */
  lemma {:induction false} RowAsDocumented(metrics: map<string, Option<real>>, sums: map<string, real>, ds: seq<Derived>, k: string)
    requires ReadsAsDocumented(sums, ds) && LastUnder(ds, k).Some? && k !in sums
    ensures k in WithDerived(metrics, sums, ds)
    ensures OrZero(WithDerived(metrics, sums, ds)[k]) == Documented(sums, ds, k)
    decreases |ds|
  {
    hide ApplyDerived;
    if ds[|ds| - 1].key != k {
      RowAsDocumented(metrics, sums, ds[..|ds| - 1], k);
    }
  }

  /** One specification: of 5 and 2, `x` is 3 and `y`, documented as `x` less `n`, is not 1 but -2. */
  lemma EarlierMetricReadsZero()
    ensures
      var x, y := Derived("x", Diff, "m", "n"), Derived("y", Diff, "x", "n");
      var sums := map["m" := 5.0, "n" := 2.0];
      && WithDerived(map[], sums, [x, y]) == map["x" := Some(3.0), "y" := Some(-2.0)]
      && Documented(sums, [x, y], "y") == 1.0 && !SafeSpec([x, y], sums.Keys)
  {
    var x, y := Derived("x", Diff, "m", "n"), Derived("y", Diff, "x", "n");
    var sums := map["m" := 5.0, "n" := 2.0];
    assert [x, y][..1] == [x] && [x][..0] == [];
    RoundsTo(3);
    RoundsTo(-2);
    RoundsTo(1);
    assert WithDerived(map[], sums, [x]) == map["x" := Some(3.0)];
    assert Documented(sums, [x], "x") == 3.0;
    assert LastUnder([x], "x") == Some(x);
  }
}
