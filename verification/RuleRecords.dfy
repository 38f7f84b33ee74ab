/** Which plain records are rules, and which rule each of them is. */
module RuleRecords {
  import opened Options
  import opened Json
  import opened WhiteSpace
  import opened DefConstraints

  /** Some character is not white space. */
  predicate Inked(s: string) {
    exists i :: 0 <= i < |s| && s[i] !in WHITE
  }

  lemma InkedIsNotBlank(s: string)
    ensures Inked(s) <==> !Blank(s)
  {
    forall c ensures IsSpace(c) <==> c in WHITE { SpaceIsWhite(c); }
    hide IsSpace;
    hide WHITE;
  }

  /** The record says just this rule: a property of the wrong kind counts as missing. */
  ghost predicate SaysRule(f: map<string, J>, c: DefConstraint) {
    && FieldOf(f, "id") == Some(JStr(c.id)) && Inked(c.id)
    && FieldOf(f, "path") == Some(JStr(c.path)) && Inked(c.path)
    && FieldOf(f, "kind") == Some(JStr(if c.kind == Floor then "floor" else "policy"))
    && FieldOf(f, "type") == Some(JStr(TypeText(c.shape)))
    && SaysNumber(FieldOf(f, "min"), c.min) && SaysNumber(FieldOf(f, "max"), c.max)
    && SaysText(FieldOf(f, "field"), c.field) && SaysText(FieldOf(f, "message"), c.message)
    && SaysList(FieldOf(f, "except"), c.except) && SaysList(FieldOf(f, "values"), c.values)
    && SaysFilter(FieldOf(f, "where"), c.filter)
    && (c.shape == Unique ==> c.field != None && c.field != Some(""))
    && (c.shape == Enum ==> c.values != None)
  }

  ghost predicate SaysNumber(v: Option<J>, x: Option<real>) {
    forall n :: x == Some(n) <==> v == Some(JNum(n))
  }

  ghost predicate SaysText(v: Option<J>, x: Option<string>) {
    forall s :: x == Some(s) <==> v == Some(JStr(s))
  }

  ghost predicate SaysList(v: Option<J>, x: Option<seq<J>>) {
    forall l :: x == Some(l) <==> v == Some(JArr(l))
  }

  /** A filter is an object with a field name; what it compares with may be missing. */
  ghost predicate SaysFilter(v: Option<J>, x: Option<Where>) {
    forall w :: x == Some(w) <==>
      v != None && v.value.JObj? && FieldOf(v.value.fields, "field") == Some(JStr(w.field))
      && FieldOf(v.value.fields, "eq") == w.eq
  }

  lemma NumberIs(v: Option<J>, x: Option<real>)
    ensures SaysNumber(v, x) <==> AsNumber(v) == x
  {
    if SaysNumber(v, x) && AsNumber(v).Some? { assert x == Some(AsNumber(v).value); }
    if SaysNumber(v, x) && x.Some? { assert v == Some(JNum(x.value)); }
  }

  lemma TextIs(v: Option<J>, x: Option<string>)
    ensures SaysText(v, x) <==> AsText(v) == x
  {
    if SaysText(v, x) && AsText(v).Some? { assert x == Some(AsText(v).value); }
    if SaysText(v, x) && x.Some? { assert v == Some(JStr(x.value)); }
  }

  lemma ListIs(v: Option<J>, x: Option<seq<J>>)
    ensures SaysList(v, x) <==> AsList(v) == x
  {
    if SaysList(v, x) && AsList(v).Some? { assert x == Some(AsList(v).value); }
    if SaysList(v, x) && x.Some? { assert v == Some(JArr(x.value)); }
  }

  lemma FilterIs(v: Option<J>, x: Option<Where>)
    ensures SaysFilter(v, x) <==> AsFilter(v) == x
  {
    hide FieldOf;
    if SaysFilter(v, x) && AsFilter(v).Some? { assert x == Some(AsFilter(v).value); }
    if SaysFilter(v, x) && x.Some? { assert x == Some(x.value); }
  }

  function TypeText(s: Shape): string {
    match s
    case Cardinality => "cardinality"
    case Bound => "bound"
    case Unique => "unique"
    case Enum => "enum"
  }

  lemma KindIs(v: Option<J>, k: Kind)
    ensures v == Some(JStr(if k == Floor then "floor" else "policy")) <==> AsKind(v) == Some(k)
  {
    assert "floor"[0] != "policy"[0];
  }

  lemma ShapeIs(v: Option<J>, s: Shape)
    ensures v == Some(JStr(TypeText(s))) <==> AsShape(v) == Some(s)
  {
    assert TypeText(Cardinality)[0] == 'c' && TypeText(Bound)[0] == 'b';
    assert TypeText(Unique)[0] == 'u' && TypeText(Enum)[0] == 'e';
  }

  /** A record is read as a rule exactly if it says that rule; any other is no rule at all. */
  lemma CoercesExactly(raw: J, c: DefConstraint)
    ensures Coerce(raw) == Some(c) <==> raw.JObj? && SaysRule(raw.fields, c)
  {
    if raw.JObj? {
      var f := raw.fields;
      InkedIsNotBlank(c.id);
      InkedIsNotBlank(c.path);
      KindIs(FieldOf(f, "kind"), c.kind);
      ShapeIs(FieldOf(f, "type"), c.shape);
      NumberIs(FieldOf(f, "min"), c.min);
      NumberIs(FieldOf(f, "max"), c.max);
      TextIs(FieldOf(f, "field"), c.field);
      TextIs(FieldOf(f, "message"), c.message);
      ListIs(FieldOf(f, "except"), c.except);
      ListIs(FieldOf(f, "values"), c.values);
      FilterIs(FieldOf(f, "where"), c.filter);
      hide Inked, Blank, FieldOf, AsKind, AsShape, AsNumber, AsList, AsFilter, TypeText;
      hide SaysNumber, SaysText, SaysList, SaysFilter;
    }
  }
}
