/**
 * The part of JSON Schema draft 2020-12 the generated contract uses, as independent keywords:
 * `$ref` (Core 8.2.3.1), `anyOf` (Core 10.2.1.2), `items` (Core 10.3.1.2), `properties` (Core 10.3.2.1),
 * `additionalProperties` (Core 10.3.2.3), `type` (Validation 6.1.1), `enum` (Validation 6.1.2),
 * `const` (Validation 6.1.3) and `required` (Validation 6.5.3). `format` and `description` annotate only.
 */
module JsonSchema {
  import opened Options
  import opened Json

  datatype TypeKeyword = AnyType | OneType(name: string) | TypeOrNull(name: string)

  datatype Additional = AdditionalAbsent | AdditionalBool(allowed: bool) | AdditionalSchema(schema: Schema)

  /** An absent `anyOf` is `[]`; absent `properties` and `required` behave as empty ones. */
  datatype Schema = Schema(
    types: TypeKeyword,
    constant: Option<J>,
    choices: Option<seq<J>>,
    reference: Option<string>,
    anyOf: seq<Schema>,
    items: Option<Schema>,
    properties: map<string, Schema>,
    required: seq<string>,
    additional: Additional,
    format: Option<string>,
    description: Option<string>)

  /** The permissive schema `{}`. */
  const EMPTY := Schema(AnyType, None, None, None, [], None, map[], [], AdditionalAbsent, None, None)

  predicate HasTypeName(name: string, v: J) {
    match v
    case JNull => name == "null"
    case JBool(_) => name == "boolean"
    case JNum(_) => name == "number"
    case JStr(_) => name == "string"
    case JArr(_) => name == "array"
    case JObj(_) => name == "object"
  }

  predicate TypeOk(t: TypeKeyword, v: J) {
    match t
    case AnyType => true
    case OneType(name) => HasTypeName(name, v)
    case TypeOrNull(name) => HasTypeName(name, v) || v.JNull?
  }

  /** `v` validates when at most `n` references are followed one inside the other. */
  ghost predicate ValidN(n: nat, defs: map<string, Schema>, s: Schema, v: J)
    decreases n, s
  {
    && TypeOk(s.types, v)
    && (s.constant.Some? ==> v == s.constant.value)
    && (s.choices.Some? ==> v in s.choices.value)
    && (s.reference.Some? ==>
          n > 0 && s.reference.value in defs && ValidN(n - 1, defs, defs[s.reference.value], v))
    && (s.anyOf != [] ==>
          exists i :: 0 <= i < |s.anyOf| && ValidN(n, defs, s.anyOf[i], v))
    && (s.items.Some? && v.JArr? ==>
          forall i :: 0 <= i < |v.items| ==> ValidN(n, defs, s.items.value, v.items[i]))
    && (v.JObj? ==>
          forall k :: k in s.properties && k in v.fields ==> ValidN(n, defs, s.properties[k], v.fields[k]))
    && (v.JObj? ==> forall k :: k in s.required ==> k in v.fields)
    && (v.JObj? && s.additional.AdditionalBool? && !s.additional.allowed ==>
          forall k :: k in v.fields ==> k in s.properties)
    && (v.JObj? && s.additional.AdditionalSchema? ==>
          forall k :: k in v.fields && k !in s.properties ==> ValidN(n, defs, s.additional.schema, v.fields[k]))
  }

  /** `v` validates against `s` under the definitions `defs`. */
  ghost predicate Validates(defs: map<string, Schema>, s: Schema, v: J) {
    exists n: nat :: ValidN(n, defs, s, v)
  }

  /** Following more references never rejects a value: the bound only has to be large enough. */
  lemma {:induction false} ValidMore(n: nat, m: nat, defs: map<string, Schema>, s: Schema, v: J)
    requires n <= m && ValidN(n, defs, s, v)
    ensures ValidN(m, defs, s, v)
    decreases n, s
  {
    if s.reference.Some? {
      ValidMore(n - 1, m - 1, defs, defs[s.reference.value], v);
    }
    if s.anyOf != [] {
      var i :| 0 <= i < |s.anyOf| && ValidN(n, defs, s.anyOf[i], v);
      ValidMore(n, m, defs, s.anyOf[i], v);
    }
    if s.items.Some? && v.JArr? {
      forall i | 0 <= i < |v.items| ensures ValidN(m, defs, s.items.value, v.items[i]) {
        ValidMore(n, m, defs, s.items.value, v.items[i]);
      }
    }
    if v.JObj? {
      forall k | k in s.properties && k in v.fields ensures ValidN(m, defs, s.properties[k], v.fields[k]) {
        ValidMore(n, m, defs, s.properties[k], v.fields[k]);
      }
      if s.additional.AdditionalSchema? {
        forall k | k in v.fields && k !in s.properties ensures ValidN(m, defs, s.additional.schema, v.fields[k]) {
          ValidMore(n, m, defs, s.additional.schema, v.fields[k]);
        }
      }
    }
  }

  /** A schema that is only a `$ref` accepts exactly what the definition it names accepts. */
  lemma ReferenceUnfolds(defs: map<string, Schema>, name: string, v: J)
    ensures Validates(defs, EMPTY.(reference := Some(name)), v) <==> name in defs && Validates(defs, defs[name], v)
  {
    var s := EMPTY.(reference := Some(name));
    if Validates(defs, s, v) {
      var n: nat :| ValidN(n, defs, s, v);
      assert ValidN(n - 1, defs, defs[name], v);
    }
    if name in defs && Validates(defs, defs[name], v) {
      var n: nat :| ValidN(n, defs, defs[name], v);
      assert ValidN(n + 1, defs, s, v);
    }
  }
}
