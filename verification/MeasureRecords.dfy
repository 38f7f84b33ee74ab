/** What one item adds to a measure, told by the item's own fields. */
module MeasureRecords {
  import opened Options
  import opened Measures

  /** The value under the name; no name reads the empty one, and a missing value reads zero. */
  function Reading(it: Item, field: Option<string>): real {
    var name := if field == None then "" else field.value;
    if name in it then it[name] else 0.0
  }

  /** The comparison, greater than zero unless the measure says otherwise. */
  predicate Passes(v: real, m: Measure) {
    var bound := if m.value == None then 0.0 else m.value.value;
    && (m.op == None || m.op == Some(Gt) ==> v > bound)
    && (m.op == Some(Lt) ==> v < bound)
    && (m.op == Some(Gte) ==> !(v < bound))
    && (m.op == Some(Lte) ==> !(v > bound))
    && (m.op == Some(Eq) ==> v == bound)
  }

  function ScaleOf(m: Measure): real {
    if m.weightScale == None then 1.0 else m.weightScale.value
  }

  /** The item's own weight, else the measure's default, else the one that undoes the scale. */
  predicate RawWeight(raw: real, it: Item, m: Measure) {
    if m.weightField != None && m.weightField.value in it then raw == it[m.weightField.value]
    else if m.weightDefault != None then raw == m.weightDefault.value
    else if ScaleOf(m) == 0.0 then raw == 0.0
    else raw * ScaleOf(m) == 1.0
  }

  /** Nothing below zero, and nothing above the measure's maximum where it has one. */
  predicate Clamped(w: real, raw: real, m: Measure) {
    var floored := if raw > 0.0 then raw else 0.0;
    w == if m.weightMax != None && floored > m.weightMax.value then m.weightMax.value else floored
  }

  ghost predicate IsWeight(w: real, it: Item, m: Measure) {
    exists raw :: RawWeight(raw, it, m) && Clamped(w, raw, m)
  }

  lemma OneOver(raw: real, scale: real)
    requires scale != 0.0
    ensures raw * scale == 1.0 <==> raw == 1.0 / scale
  {
    assert 1.0 / scale * scale == 1.0;
    if raw * scale == 1.0 { assert raw == raw * scale / scale; }
  }

  lemma WeightIs(w: real, it: Item, m: Measure)
    ensures IsWeight(w, it, m) <==> w == Weight(it, m)
  {
    var scale := ScaleOf(m);
    var raw := if m.weightField.Some? && m.weightField.value in it then it[m.weightField.value]
               else m.weightDefault.GetOr(Inverse(scale));
    forall x ensures RawWeight(x, it, m) <==> x == raw {
      if scale != 0.0 { OneOver(x, scale); }
    }
    hide RawWeight, Inverse;
    assert Clamped(w, raw, m) <==> w == Weight(it, m);
  }

  lemma TotalOfOne(it: Item, m: Measure)
    ensures Total([], m) == 0.0 && Total([it], m) == Share(it, m)
  {
    assert [it][..0] == [];
  }

  /** What an item adds; with `TotalAdds`, what all items add up to. */
  lemma ItemAdds(it: Item, m: Measure)
    ensures Total([], m) == 0.0
    ensures m.agg == Count ==> Total([it], m) == 1.0
    ensures m.agg == CountWhere ==> Total([it], m) == if Passes(Reading(it, m.field), m) then 1.0 else 0.0
    ensures m.agg == Sum ==> Total([it], m) == Reading(it, m.field)
    ensures m.agg == WeightedSum ==>
      exists w :: IsWeight(w, it, m) && Total([it], m) == Reading(it, m.field) * w * ScaleOf(m)
  {
    TotalOfOne(it, m);
    hide Weight, RawWeight, Clamped;
    if m.agg == WeightedSum {
      WeightIs(Weight(it, m), it, m);
    }
  }
}
