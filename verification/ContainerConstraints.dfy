/** The floors every form inherits as the implicit root of its lineage, and what they add up to. */
module ContainerConstraints {
  import opened Options
  import opened Json
  import opened DefConstraints
  import opened WhiteSpace
  import opened ConstraintEvaluation
  import opened ConstraintFloors

  /** The targets several fields may share. */
  const FORM_AGGREGATING_TARGETS: seq<string> := ["description", "labels"]

  const MIN_FIELDS := DefConstraint(
    "form-min-fields", Floor, Cardinality, "fields", None, Some(1.0), None, None, None, None,
    Some("a form needs at least one field"))

  const ONE_TITLE := DefConstraint(
    "form-one-title", Floor, Cardinality, "fields", Some(Where("mapTo", Some(JStr("title")))), Some(1.0), Some(1.0),
    None, None, None, Some("a form must have exactly one field mapping to \"title\""))

  const UNIQUE_TARGETS := DefConstraint(
    "form-unique-targets", Floor, Unique, "fields", None, None, None, Some("mapTo"),
    Some([JStr(FORM_AGGREGATING_TARGETS[0]), JStr(FORM_AGGREGATING_TARGETS[1])]), None,
    Some("each field must map to a distinct target (only description/labels may be shared)"))

  const UNIQUE_KEYS := DefConstraint(
    "form-unique-keys", Floor, Unique, "fields", None, None, None, Some("key"), None, None,
    Some("field keys must be unique"))

  const FORM_CONTAINER_CONSTRAINTS := [MIN_FIELDS, ONE_TITLE, UNIQUE_TARGETS, UNIQUE_KEYS]

  function KindRootConstraints(kind: string): seq<DefConstraint> {
    if kind == "form" then FORM_CONTAINER_CONSTRAINTS else []
  }

  lemma OnlyFormsHaveFloors(kind: string)
    ensures KindRootConstraints(kind) != [] <==> kind == "form"
  {
  }

  // ---------------------------------------------------------------------------------------------
  // A constraint as the plain record the fold reads it from

  function KindName(k: Kind): string {
    match k case Policy => "policy" case Floor => "floor"
  }

  function ShapeName(s: Shape): string {
    match s case Cardinality => "cardinality" case Bound => "bound" case Unique => "unique" case Enum => "enum"
  }

  function Text(v: Option<string>): Option<J> { if v.Some? then Some(JStr(v.value)) else None }
  function Number(v: Option<real>): Option<J> { if v.Some? then Some(JNum(v.value)) else None }
  function List(v: Option<seq<J>>): Option<J> { if v.Some? then Some(JArr(v.value)) else None }

  function Filter(v: Option<Where>): Option<J> {
    if v.None? then None
    else if v.value.eq.None? then Some(JObj(map["field" := JStr(v.value.field)]))
    else Some(JObj(map["field" := JStr(v.value.field), "eq" := v.value.eq.value]))
  }

  /** The properties of the record, each present or `undefined`. */
  function Property(c: DefConstraint, k: string): Option<J> {
    if k == "id" then Some(JStr(c.id))
    else if k == "kind" then Some(JStr(KindName(c.kind)))
    else if k == "type" then Some(JStr(ShapeName(c.shape)))
    else if k == "path" then Some(JStr(c.path))
    else if k == "min" then Number(c.min)
    else if k == "max" then Number(c.max)
    else if k == "where" then Filter(c.filter)
    else if k == "field" then Text(c.field)
    else if k == "except" then List(c.except)
    else if k == "values" then List(c.values)
    else if k == "message" then Text(c.message)
    else None
  }

  const KEYS: set<string> :=
    {"id", "kind", "type", "path", "min", "max", "where", "field", "except", "values", "message"}

  function Encode(c: DefConstraint): J {
    JObj(map k | k in KEYS && Property(c, k).Some? :: Property(c, k).value)
  }

  lemma EncodedFields(c: DefConstraint, k: string)
    requires k in KEYS
    ensures FieldOf(Encode(c).fields, k) == Property(c, k)
  {
  }

  lemma FilterRoundTrip(w: Option<Where>)
    ensures AsFilter(Filter(w)) == w
  {
    assert "field" != "eq" by { assert |"field"| != |"eq"|; }
  }

  lemma NamesRoundTrip(k: Kind, s: Shape)
    ensures AsKind(Some(JStr(KindName(k)))) == Some(k)
    ensures AsShape(Some(JStr(ShapeName(s)))) == Some(s)
  {
    assert "policy"[0] != "floor"[0];
    assert "cardinality"[0] != "bound"[0] && "cardinality"[0] != "unique"[0] && "cardinality"[0] != "enum"[0];
    assert "bound"[0] != "unique"[0] && "bound"[0] != "enum"[0] && "unique"[0] != "enum"[0];
  }

  /** Reading back a well-formed constraint gives the same constraint. */
  lemma CoerceEncode(c: DefConstraint)
    requires WellFormed(c)
    ensures Coerce(Encode(c)) == Some(c)
  {
    hide FieldOf, AsKind, AsShape, AsFilter, Filter, KindName, ShapeName, Blank, Property;
    EncodedFields(c, "id"); EncodedFields(c, "kind"); EncodedFields(c, "type"); EncodedFields(c, "path");
    EncodedFields(c, "min"); EncodedFields(c, "max"); EncodedFields(c, "where"); EncodedFields(c, "field");
    EncodedFields(c, "except"); EncodedFields(c, "values"); EncodedFields(c, "message");
    PropertyValues(c);
    FilterRoundTrip(c.filter);
    NamesRoundTrip(c.kind, c.shape);
  }

  lemma PropertyValues(c: DefConstraint)
    ensures Property(c, "id") == Some(JStr(c.id)) && Property(c, "kind") == Some(JStr(KindName(c.kind)))
    ensures Property(c, "type") == Some(JStr(ShapeName(c.shape))) && Property(c, "path") == Some(JStr(c.path))
    ensures Property(c, "min") == Number(c.min) && Property(c, "max") == Number(c.max)
    ensures Property(c, "where") == Filter(c.filter) && Property(c, "field") == Text(c.field)
    ensures Property(c, "except") == List(c.except) && Property(c, "values") == List(c.values)
    ensures Property(c, "message") == Text(c.message)
  {
    assert "kind"[0] == 'k' && "type"[0] == 't' && "path"[0] == 'p';
    assert "min"[1] == 'i' && "max"[1] == 'a';
    assert "where"[0] == 'w' && "field"[0] == 'f';
    assert "except"[0] == 'e' && "values"[0] == 'v';
  }

  /** The plain records of the kind's root floors. */
  function RootNode(kind: string): seq<J> {
    EncodeAll(KindRootConstraints(kind))
  }

  function EncodeAll(cs: seq<DefConstraint>): seq<J> {
    if cs == [] then [] else EncodeAll(cs[..|cs| - 1]) + [Encode(cs[|cs| - 1])]
  }

  lemma {:induction false} RulesOfEncoded(cs: seq<DefConstraint>)
    requires forall i :: 0 <= i < |cs| ==> WellFormed(cs[i])
    ensures Rules(EncodeAll(cs)) == cs
    decreases |cs|
  {
    hide WellFormed, Encode, Coerce;
    if cs != [] {
      var front, last := cs[..|cs| - 1], cs[|cs| - 1];
      RulesOfEncoded(front);
      CoerceEncode(last);
      assert EncodeAll(cs)[..|EncodeAll(cs)| - 1] == EncodeAll(front);
      assert cs == front + [last];
    }
  }

  lemma {:induction false} RootRulesFirst(root: seq<J>, forks: seq<seq<J>>)
    ensures Rules(root) <= LineageRules([root] + forks)
    decreases |forks|
  {
    var all := [root] + forks;
    if forks == [] {
      assert all[..|all| - 1] == [];
      assert [] + Rules(root) == Rules(root);
    } else {
      assert all[..|all| - 1] == [root] + forks[..|forks| - 1];
      RootRulesFirst(root, forks[..|forks| - 1]);
    }
  }

  lemma FormRulesAreWellFormed()
    ensures forall i :: 0 <= i < |FORM_CONTAINER_CONSTRAINTS| ==> WellFormed(FORM_CONTAINER_CONSTRAINTS[i])
  {
    assert !IsSpace("form-min-fields"[0]) && !IsSpace("form-one-title"[0]);
    assert !IsSpace("form-unique-targets"[0]) && !IsSpace("form-unique-keys"[0]);
    assert !IsSpace("fields"[0]);
  }

  lemma {:induction false} CountZero(list: seq<J>, filter: Option<Where>)
    ensures Count(list, filter) == 0 <==> forall i :: 0 <= i < |list| ==> !Matches(list[i], filter)
    decreases |list|
  {
    hide Matches;
    if list != [] {
      CountZero(list[..|list| - 1], filter);
      assert forall i :: 0 <= i < |list| - 1 ==> list[..|list| - 1][i] == list[i];
    }
  }

  /** Element `i` matches, and no other does. */
  ghost predicate OnlyMatch(list: seq<J>, filter: Option<Where>, i: int) {
    0 <= i < |list| && Matches(list[i], filter) && forall j :: 0 <= j < |list| && j != i ==> !Matches(list[j], filter)
  }

  lemma {:induction false} CountOne(list: seq<J>, filter: Option<Where>)
    ensures Count(list, filter) == 1 <==> exists i :: OnlyMatch(list, filter, i)
    decreases |list|
  {
    hide Matches;
    if list != [] {
      var front, last := list[..|list| - 1], |list| - 1;
      assert forall i :: 0 <= i < last ==> front[i] == list[i];
      CountZero(front, filter);
      CountOne(front, filter);
      if Matches(list[last], filter) {
        if Count(front, filter) == 0 { assert OnlyMatch(list, filter, last); }
      } else {
        forall i ensures OnlyMatch(list, filter, i) <==> OnlyMatch(front, filter, i) {}
      }
    }
  }

  predicate MapsTo(el: J, target: string) {
    el.JObj? && FieldOf(el.fields, "mapTo") == Some(JStr(target))
  }

  /** Exactly one field is mapped to the title. */
  ghost predicate OneTitle(fields: seq<J>) {
    exists i :: 0 <= i < |fields| && MapsTo(fields[i], "title") &&
      (forall j :: 0 <= j < |fields| && j != i ==> !MapsTo(fields[j], "title"))
  }

  /** What it takes to be a form, as far as the container is concerned. */
  ghost predicate FormShape(def: map<string, J>) {
    && "fields" in def && def["fields"].JArr?
    && |def["fields"].items| >= 1
    && OneTitle(def["fields"].items)
    && AllDistinct(def["fields"].items, "key", [])
    && AllDistinct(def["fields"].items, "mapTo", [JStr("description"), JStr("labels")])
  }

  lemma {:induction false} CountAll(list: seq<J>)
    ensures Count(list, None) == |list|
    decreases |list|
  {
    if list != [] { CountAll(list[..|list| - 1]); }
  }

  lemma TitleFloorMeaning(fields: seq<J>)
    ensures Count(fields, ONE_TITLE.filter) == 1 <==> OneTitle(fields)
  {
    var filter := ONE_TITLE.filter;
    CountOne(fields, filter);
    forall i | 0 <= i < |fields| ensures Matches(fields[i], filter) <==> MapsTo(fields[i], "title") {}
    hide Count, Matches, MapsTo;
    if i :| OnlyMatch(fields, filter, i) {
      assert MapsTo(fields[i], "title");
    }
    if OneTitle(fields) {
      var i :| 0 <= i < |fields| && MapsTo(fields[i], "title") &&
        (forall j :: 0 <= j < |fields| && j != i ==> !MapsTo(fields[j], "title"));
      assert OnlyMatch(fields, filter, i);
    }
  }

  /** The four root floors say exactly that. */
  lemma RootFloorsMeaning(def: map<string, J>)
    ensures FormShape(def) <==>
      Satisfies(def, MIN_FIELDS) && Satisfies(def, ONE_TITLE) && Satisfies(def, UNIQUE_TARGETS) && Satisfies(def, UNIQUE_KEYS)
  {
    hide GetPath, AllDistinct, OneTitle, Count;
    ReadPlain(def, "fields");
    var fields := ListAt(def, "fields");
    CountAll(fields);
    TitleFloorMeaning(fields);
  }

  /**
   * With the form root floors first, a definition that passes is a form: at least one field, exactly one
   * mapped to the title, distinct keys, and distinct targets apart from the shared ones, whatever the
   * forks below declare.
   */
  lemma FormFloorsBind(def: map<string, J>, forks: seq<seq<J>>)
    requires Passes(def, LineageRules([RootNode("form")] + forks))
    ensures FormShape(def)
  {
    hide Satisfies, Passes, FormShape, LineageRules;
    FormRulesAreWellFormed();
    RulesOfEncoded(FORM_CONTAINER_CONSTRAINTS);
    RootRulesFirst(RootNode("form"), forks);
    forall i | 0 <= i < |FORM_CONTAINER_CONSTRAINTS| ensures Satisfies(def, FORM_CONTAINER_CONSTRAINTS[i]) {
      RootFloorBinds(def, forks, i);
    }
    assert FORM_CONTAINER_CONSTRAINTS[0] == MIN_FIELDS && FORM_CONTAINER_CONSTRAINTS[1] == ONE_TITLE;
    assert FORM_CONTAINER_CONSTRAINTS[2] == UNIQUE_TARGETS && FORM_CONTAINER_CONSTRAINTS[3] == UNIQUE_KEYS;
    RootFloorsMeaning(def);
  }

  lemma RootFloorBinds(def: map<string, J>, forks: seq<seq<J>>, i: nat)
    requires Passes(def, LineageRules([RootNode("form")] + forks))
    requires FORM_CONTAINER_CONSTRAINTS <= LineageRules([RootNode("form")] + forks)
    requires i < |FORM_CONTAINER_CONSTRAINTS|
    ensures Satisfies(def, FORM_CONTAINER_CONSTRAINTS[i])
  {
    hide Satisfies, Passes, LineageRules;
    var rules := LineageRules([RootNode("form")] + forks);
    assert forall j :: 0 <= j < |FORM_CONTAINER_CONSTRAINTS| ==> rules[j] == FORM_CONTAINER_CONSTRAINTS[j];
    RootIdsDiffer();
    FloorsSurvive(def, [RootNode("form")] + forks, i);
  }

  lemma RootIdsDiffer()
    ensures forall i, j :: 0 <= i < j < |FORM_CONTAINER_CONSTRAINTS| ==>
      FORM_CONTAINER_CONSTRAINTS[i].id != FORM_CONTAINER_CONSTRAINTS[j].id
  {
    assert "form-min-fields"[5] == 'm' && "form-one-title"[5] == 'o' && "form-unique-targets"[5] == 'u' && "form-unique-keys"[5] == 'u';
    assert "form-unique-targets"[12] == 't' && "form-unique-keys"[12] == 'k';
  }
}
