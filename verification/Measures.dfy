/** Extracting a consolidation's measures from the items of a project. */
module Measures {
  import opened Options

  /** The fields an item carries, already finite numbers. */
  type Item = map<string, real>

  datatype Agg = Sum | WeightedSum | Count | CountWhere
  datatype CompareOp = Gt | Gte | Lt | Lte | Eq

  datatype Measure = Measure(
    key: string,
    agg: Agg,
    field: Option<string>,
    weightField: Option<string>,
    weightScale: Option<real>,
    weightDefault: Option<real>,
    weightMax: Option<real>,
    op: Option<CompareOp>,
    value: Option<real>)

  function Num(it: Item, field: string): real {
    if field in it then it[field] else 0.0
  }

  predicate Compare(v: real, op: CompareOp, value: real) {
    match op
    case Gt => v > value
    case Gte => v >= value
    case Lt => v < value
    case Lte => v <= value
    case Eq => v == value
  }

  function Inverse(x: real): real {
    if x == 0.0 then 0.0 else 1.0 / x
  }

  function Weight(it: Item, m: Measure): real {
    var scale := m.weightScale.GetOr(1.0);
    var raw := if m.weightField.Some? && m.weightField.value in it then it[m.weightField.value]
               else m.weightDefault.GetOr(Inverse(scale));
    var floored := if raw < 0.0 then 0.0 else raw;
    if m.weightMax.Some? && m.weightMax.value < floored then m.weightMax.value else floored
  }

  function Scaled(base: real, weight: real, scale: real): real {
    base * weight * scale
  }

  /** What one item adds. */
  function Share(it: Item, m: Measure): real {
    var base := Num(it, m.field.GetOr(""));
    match m.agg
    case Count => 1.0
    case CountWhere => if Compare(base, m.op.GetOr(Gt), m.value.GetOr(0.0)) then 1.0 else 0.0
    case Sum => base
    case WeightedSum => Scaled(base, Weight(it, m), m.weightScale.GetOr(1.0))
  }

  /** A measure is the sum of what its items add. */
  function Total(items: seq<Item>, m: Measure): real {
    if items == [] then 0.0 else Total(items[..|items| - 1], m) + Share(items[|items| - 1], m)
  }

  method MeasureValue(items: seq<Item>, m: Measure) returns (r: real)
    ensures r == Total(items, m)
  {
    hide Scaled, Weight, Num, Compare;
    assert items[..|items|] == items;
    if m.agg == Count {
      CountIsLength(items, m);
      return |items| as real;
    }
    var field := m.field.GetOr("");
    if m.agg == CountWhere {
      var op, value := m.op.GetOr(Gt), m.value.GetOr(0.0);
      var n: nat := 0;
      for i := 0 to |items|
        invariant n as real == Total(items[..i], m)
      {
        assert items[..i + 1][..i] == items[..i];
        if Compare(Num(items[i], field), op, value) { n := n + 1; }
      }
      return n as real;
    }
    r := 0.0;
    for i := 0 to |items|
      invariant r == Total(items[..i], m)
    {
      assert items[..i + 1][..i] == items[..i];
      var base := Num(items[i], field);
      if m.agg == WeightedSum {
        r := r + Scaled(base, Weight(items[i], m), m.weightScale.GetOr(1.0));
      } else {
        r := r + base;
      }
    }
  }

  lemma {:induction false} CountIsLength(items: seq<Item>, m: Measure)
    requires m.agg == Count
    ensures Total(items, m) == |items| as real
    decreases |items|
  {
    if items != [] { CountIsLength(items[..|items| - 1], m); }
  }

  /** Splitting the items splits the measure. */
  lemma {:induction false} TotalAdds(a: seq<Item>, b: seq<Item>, m: Measure)
    ensures Total(a + b, m) == Total(a, m) + Total(b, m)
    decreases |b|
  {
    if b == [] {
      assert a + b == a;
    } else {
      TotalAdds(a, b[..|b| - 1], m);
      assert (a + b)[..|a + b| - 1] == a + b[..|b| - 1];
    }
  }

  /** The clamp leaves room for the default weight. */
  predicate DefaultFits(m: Measure) {
    var scale := m.weightScale.GetOr(1.0);
    m.weightMax.Some? ==> if scale > 0.0 then Inverse(scale) <= m.weightMax.value else 0.0 <= m.weightMax.value
  }

  /**
   * Without a weight of its own an item counts in full if the scale is positive and not at all otherwise,
   * unless the clamp is smaller than that and takes its place.
   */
  lemma DefaultWeightIsOne(it: Item, m: Measure)
    requires m.agg == WeightedSum && m.weightDefault.None?
    requires m.weightField.Some? ==> m.weightField.value !in it
    ensures var base, scale := Num(it, m.field.GetOr("")), m.weightScale.GetOr(1.0);
      Share(it, m) ==
        if !DefaultFits(m) then Scaled(base, m.weightMax.value, scale) else if scale > 0.0 then base else 0.0
  {
    var base, scale := Num(it, m.field.GetOr("")), m.weightScale.GetOr(1.0);
    if scale > 0.0 {
      Unscale(base, scale);
    } else {
      InverseSign(scale);
      assert Scaled(base, 0.0, scale) == 0.0;
    }
    hide Scaled, Num, Inverse;
  }

  lemma InverseSign(x: real)
    requires x <= 0.0
    ensures Inverse(x) <= 0.0
  {
    assert x < 0.0 ==> 1.0 / x * x == 1.0;
  }

  lemma Unscale(x: real, scale: real)
    requires scale > 0.0
    ensures Inverse(scale) > 0.0 && Scaled(x, Inverse(scale), scale) == x
  {
    assert 1.0 / scale * scale == 1.0;
    assert x * (1.0 / scale) * scale == x * (1.0 / scale * scale);
  }
}
