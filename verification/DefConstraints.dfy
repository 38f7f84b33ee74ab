/**
 * The declarative constraint layer: policies are child-wins, floors can only be tightened down a
 * lineage, and the effective set is checked against the composed definition.
 */
module DefConstraints {
  import opened Options
  import opened Json
  import opened OrderedMaps
  import opened WhiteSpace

  datatype Kind = Policy | Floor
  datatype Shape = Cardinality | Bound | Unique | Enum

  /** Count only elements whose `field` strictly equals `eq` (`None` is `undefined`). */
  datatype Where = Where(field: string, eq: Option<J>)

  datatype DefConstraint = DefConstraint(
    id: string, kind: Kind, shape: Shape, path: string,
    filter: Option<Where>,
    min: Option<real>, max: Option<real>,
    field: Option<string>,
    except: Option<seq<J>>,
    values: Option<seq<J>>,
    message: Option<string>)

  // ---------------------------------------------------------------------------------------------
  // Coercion

  predicate Blank(s: string) {
    forall i :: 0 <= i < |s| ==> IsSpace(s[i])
  }

  function AsKind(v: Option<J>): Option<Kind> {
    if v == Some(JStr("policy")) then Some(Policy)
    else if v == Some(JStr("floor")) then Some(Floor)
    else None
  }

  function AsShape(v: Option<J>): Option<Shape> {
    if v == Some(JStr("cardinality")) then Some(Cardinality)
    else if v == Some(JStr("bound")) then Some(Bound)
    else if v == Some(JStr("unique")) then Some(Unique)
    else if v == Some(JStr("enum")) then Some(Enum)
    else None
  }

  function AsText(v: Option<J>): Option<string> {
    if v.Some? && v.value.JStr? then Some(v.value.s) else None
  }

  function AsNumber(v: Option<J>): Option<real> {
    if v.Some? && v.value.JNum? then Some(v.value.n) else None
  }

  function AsList(v: Option<J>): Option<seq<J>> {
    if v.Some? && v.value.JArr? then Some(v.value.items) else None
  }

  function AsFilter(v: Option<J>): Option<Where> {
    if v.Some? && v.value.JObj? && AsText(FieldOf(v.value.fields, "field")).Some? then
      Some(Where(AsText(FieldOf(v.value.fields, "field")).value, FieldOf(v.value.fields, "eq")))
    else None
  }

  /** One untrusted entry as a constraint, or nothing when it is not a well-formed rule. */
  function Coerce(raw: J): (r: Option<DefConstraint>)
    ensures r.Some? ==> WellFormed(r.value)
  {
    if !raw.JObj? then None else
    var f := raw.fields;
    var id, path := AsText(FieldOf(f, "id")), AsText(FieldOf(f, "path"));
    var kind, shape := AsKind(FieldOf(f, "kind")), AsShape(FieldOf(f, "type"));
    if id.None? || Blank(id.value) || kind.None? || shape.None? || path.None? || Blank(path.value) then None else
    var c := DefConstraint(
      id.value, kind.value, shape.value, path.value,
      AsFilter(FieldOf(f, "where")),
      AsNumber(FieldOf(f, "min")), AsNumber(FieldOf(f, "max")),
      AsText(FieldOf(f, "field")),
      AsList(FieldOf(f, "except")), AsList(FieldOf(f, "values")),
      AsText(FieldOf(f, "message")));
    if c.shape == Unique && (c.field.None? || c.field.value == "") then None
    else if c.shape == Enum && c.values.None? then None
    else Some(c)
  }

  /** What a rule must carry to be one. */
  predicate WellFormed(c: DefConstraint) {
    && !Blank(c.id) && !Blank(c.path)
    && (c.shape == Unique ==> c.field.Some? && c.field.value != "")
    && (c.shape == Enum ==> c.values.Some?)
  }

  // ---------------------------------------------------------------------------------------------
  // Folding a lineage

  datatype FoldError =
    | DroppedToPolicy(id: string)
    | Redefined(id: string)
    | RaisedMax(id: string)
    | LoweredMin(id: string)
    | AddedException(id: string, added: seq<J>)
    | AddedValue(id: string, added: seq<J>)

  datatype Folding = Folding(byId: OMap<string, DefConstraint>, errors: seq<FoldError>)

  const START := Folding(Empty(), [])

  /** The entries of `list` that `allowed` lacks. */
  function Missing(list: seq<J>, allowed: seq<J>): seq<J> {
    if list == [] then []
    else Missing(list[..|list| - 1], allowed) + (if list[|list| - 1] in allowed then [] else [list[|list| - 1]])
  }

  lemma {:induction false} NothingMissing(list: seq<J>, allowed: seq<J>)
    ensures Missing(list, allowed) == [] <==> forall x :: x in list ==> x in allowed
    decreases |list|
  {
    if list != [] {
      NothingMissing(list[..|list| - 1], allowed);
      assert list == list[..|list| - 1] + [list[|list| - 1]];
    }
  }

  function MergeMax(prior: DefConstraint, c: DefConstraint): (Option<real>, seq<FoldError>) {
    if c.max.None? then (prior.max, [])
    else if prior.max.Some? && c.max.value > prior.max.value then (prior.max, [RaisedMax(c.id)])
    else (if prior.max.Some? && prior.max.value < c.max.value then prior.max else c.max, [])
  }

  function MergeMin(prior: DefConstraint, c: DefConstraint): (Option<real>, seq<FoldError>) {
    if c.min.None? then (prior.min, [])
    else if prior.min.Some? && c.min.value < prior.min.value then (prior.min, [LoweredMin(c.id)])
    else (if prior.min.Some? && prior.min.value > c.min.value then prior.min else c.min, [])
  }

  function MergeExcept(prior: DefConstraint, c: DefConstraint): (Option<seq<J>>, seq<FoldError>) {
    if c.shape != Unique || c.except.None? then (prior.except, [])
    else
      var added := Missing(c.except.value, prior.except.GetOr([]));
      if added != [] then (prior.except, [AddedException(c.id, added)]) else (c.except, [])
  }

  function MergeValues(prior: DefConstraint, c: DefConstraint): (Option<seq<J>>, seq<FoldError>) {
    if c.shape != Enum || c.values.None? then (prior.values, [])
    else
      var added := Missing(c.values.value, prior.values.GetOr([]));
      if added != [] then (prior.values, [AddedValue(c.id, added)]) else (c.values, [])
  }

  /** A floor met again: each side tightens, or stays as it was and reports. */
  function MergeFloor(prior: DefConstraint, c: DefConstraint): (DefConstraint, seq<FoldError>) {
    var (max, e1) := MergeMax(prior, c);
    var (min, e2) := MergeMin(prior, c);
    var (except, e3) := MergeExcept(prior, c);
    var (values, e4) := MergeValues(prior, c);
    (prior.(max := max, min := min, except := except, values := values), e1 + e2 + e3 + e4)
  }

  function Step(st: Folding, c: DefConstraint): Folding {
    if c.id !in st.byId.at || st.byId.at[c.id].kind != Floor then
      st.(byId := Set(st.byId, c.id, c))
    else
      var prior := st.byId.at[c.id];
      if c.kind != Floor then st.(errors := st.errors + [DroppedToPolicy(c.id)])
      else if c.shape != prior.shape || c.path != prior.path then st.(errors := st.errors + [Redefined(c.id)])
      else
        var (merged, found) := MergeFloor(prior, c);
        Folding(Set(st.byId, c.id, merged), st.errors + found)
  }

  /** Fold the coerced rules in lineage order. */
  function FoldRules(rules: seq<DefConstraint>): Folding {
    if rules == [] then START else Step(FoldRules(rules[..|rules| - 1]), rules[|rules| - 1])
  }

  function Rules(raws: seq<J>): seq<DefConstraint> {
    if raws == [] then []
    else Rules(raws[..|raws| - 1]) + (var c := Coerce(raws[|raws| - 1]); if c.Some? then [c.value] else [])
  }

  /** All well-formed rules of a lineage, root to leaf. */
  function LineageRules(perNode: seq<seq<J>>): seq<DefConstraint> {
    if perNode == [] then [] else LineageRules(perNode[..|perNode| - 1]) + Rules(perNode[|perNode| - 1])
  }

  method FoldConstraints(perNode: seq<seq<J>>) returns (effective: seq<DefConstraint>, errors: seq<FoldError>)
    ensures var st := FoldRules(LineageRules(perNode));
      ValidMap(st.byId) && effective == Values(st.byId) && errors == st.errors
  {
    var byId: OMap<string, DefConstraint> := Empty();
    errors := [];
    for i := 0 to |perNode|
      invariant Folding(byId, errors) == FoldRules(LineageRules(perNode[..i]))
    {
      assert perNode[..i + 1][..i] == perNode[..i];
      byId, errors := FoldNode(byId, errors, LineageRules(perNode[..i]), perNode[i]);
    }
    assert perNode[..|perNode|] == perNode;
    FoldValid(LineageRules(perNode));
    effective := Values(byId);
  }

  /** One rule folded into the map and the report. */
  method FoldRule(byId0: OMap<string, DefConstraint>, errors0: seq<FoldError>, c: DefConstraint)
    returns (byId: OMap<string, DefConstraint>, errors: seq<FoldError>)
    ensures Folding(byId, errors) == Step(Folding(byId0, errors0), c)
  {
    hide MergeFloor;
    byId, errors := byId0, errors0;
    if c.id !in byId.at || byId.at[c.id].kind != Floor {
      byId := Set(byId, c.id, c);
      return;
    }
    var prior := byId.at[c.id];
    if c.kind != Floor {
      errors := errors + [DroppedToPolicy(c.id)];
      return;
    }
    if c.shape != prior.shape || c.path != prior.path {
      errors := errors + [Redefined(c.id)];
      return;
    }
    var (merged, found) := MergeFloor(prior, c);
    errors := errors + found;
    byId := Set(byId, c.id, merged);
  }

  method FoldNode(byId0: OMap<string, DefConstraint>, errors0: seq<FoldError>, ghost above: seq<DefConstraint>, node: seq<J>)
    returns (byId: OMap<string, DefConstraint>, errors: seq<FoldError>)
    requires Folding(byId0, errors0) == FoldRules(above)
    ensures Folding(byId, errors) == FoldRules(above + Rules(node))
  {
    hide Coerce, Step, FoldRules;
    byId, errors := byId0, errors0;
    assert above + [] == above;
    for i := 0 to |node|
      invariant Folding(byId, errors) == FoldRules(above + Rules(node[..i]))
    {
      assert node[..i + 1][..i] == node[..i];
      var coerced := Coerce(node[i]);
      ghost var rules := above + Rules(node[..i]);
      if coerced.None? {
        assert above + Rules(node[..i + 1]) == rules;
        continue;
      }
      assert above + Rules(node[..i + 1]) == rules + [coerced.value];
      OneMoreRule(rules, coerced.value);
      byId, errors := FoldRule(byId, errors, coerced.value);
    }
    assert node[..|node|] == node;
  }

  lemma OneMoreRule(rules: seq<DefConstraint>, c: DefConstraint)
    ensures FoldRules(rules + [c]) == Step(FoldRules(rules), c)
  {
    assert (rules + [c])[..|rules|] == rules;
  }

  lemma {:induction false} FoldValid(rules: seq<DefConstraint>)
    ensures ValidMap(FoldRules(rules).byId)
    ensures forall id :: id in FoldRules(rules).byId.at ==> FoldRules(rules).byId.at[id].id == id
    decreases |rules|
  {
    if rules != [] {
      FoldValid(rules[..|rules| - 1]);
    }
  }
}
