/** What the contract compiler emits for each type: the schema, the names it references and its flags. */
module ContractSchema {
  import opened Options
  import opened Json
  import opened JsonSchema
  import opened ContractTypes

  function TypeSchema(name: string): Schema { EMPTY.(types := OneType(name)) }
  function ConstSchema(v: J): Schema { EMPTY.(constant := Some(v)) }
  function EnumSchema(vs: seq<J>): Schema { EMPTY.(choices := Some(vs)) }
  function RefSchema(name: string): Schema { EMPTY.(reference := Some(name)) }
  function AnyOfSchema(branches: seq<Schema>): Schema { EMPTY.(anyOf := branches) }
  function ArraySchema(items: Schema): Schema { TypeSchema("array").(items := Some(items)) }
  function RecordSchema(values: Additional): Schema { TypeSchema("object").(additional := values) }

  function ObjectSchema(properties: map<string, Schema>, required: seq<string>, open: bool): Schema {
    TypeSchema("object").(properties := properties, required := required, additional := AdditionalBool(open))
  }

  function Describe(s: Schema, doc: string): Schema {
    if doc == "" then s else s.(description := Some(doc))
  }

  function Strings(texts: seq<string>): seq<J> {
    seq(|texts|, i requires 0 <= i < |texts| => JStr(texts[i]))
  }

  // ---------------------------------------------------------------------------------------------
  // Unions

  function NonNull(parts: seq<Ty>): seq<Ty> {
    if parts == [] then []
    else NonNull(parts[..|parts| - 1]) +
         (if IsNull(parts[|parts| - 1]) || IsUndefined(parts[|parts| - 1]) then [] else [parts[|parts| - 1]])
  }

  predicate Nullable(parts: seq<Ty>) {
    exists i :: 0 <= i < |parts| && IsNull(parts[i])
  }

  predicate AllStringLits(parts: seq<Ty>) {
    forall i :: 0 <= i < |parts| ==> parts[i].StringLit?
  }

  function LiteralValues(parts: seq<Ty>): seq<J>
    requires AllStringLits(parts)
  {
    seq(|parts|, i requires 0 <= i < |parts| => JStr(parts[i].text))
  }

  /** All branches carry one and the same bare `type`. */
  predicate OneCommonType(mapped: seq<Schema>) {
    mapped != [] && forall i :: 0 <= i < |mapped| ==> mapped[i].types.OneType? && mapped[i].types == mapped[0].types
  }

  /** Branches of one bare type collapse to that type; any others become `anyOf`. */
  function Combine(mapped: seq<Schema>, nullable: bool): Schema {
    if OneCommonType(mapped) then
      (if nullable then EMPTY.(types := TypeOrNull(mapped[0].types.name)) else TypeSchema(mapped[0].types.name))
    else
      AnyOfSchema(mapped + (if nullable then [TypeSchema("null")] else []))
  }

  function ConvertUnion(nonNull: seq<Ty>, mapped: seq<Schema>, nullable: bool): Schema
    requires |mapped| == |nonNull|
  {
    if |nonNull| == 1 && !nullable then mapped[0]
    else if AllStringLits(nonNull) then
      EnumSchema(LiteralValues(nonNull) + (if nullable then [JNull] else []))
    else Combine(mapped, nullable)
  }

  // ---------------------------------------------------------------------------------------------
  // Types

  function Convert(w: World, params: set<string>, t: Ty): Schema
    decreases t
  {
    match t
    case KString => TypeSchema("string")
    case KNumber => TypeSchema("number")
    case KBoolean => TypeSchema("boolean")
    case KUnknown => EMPTY
    case KAny => EMPTY
    case KNull => TypeSchema("null")
    case KUndefined => EMPTY
    case Paren(inner) => Convert(w, params, inner)
    case Typeof(name) => if name in w.constStrings then ConstSchema(JStr(w.constStrings[name])) else EMPTY
    case Indexed(target) =>
      if Unwrapped(target).Typeof? && Unwrapped(target).name in w.enumArrays
      then EnumSchema(Strings(w.enumArrays[Unwrapped(target).name]))
      else EMPTY
    case StringLit(text) => ConstSchema(JStr(text))
    case NumberLit(value) => ConstSchema(JNum(value))
    case NullLit => TypeSchema("null")
    case OtherLit(_) => EMPTY
    case ArrayOf(elem) => ArraySchema(Convert(w, params, elem))
    case ObjectLit(members) => ObjectSchema(Properties(w, params, members), Required(members), false)
    case Union(parts) => ConvertUnion(NonNull(parts), ConvertParts(w, params, parts), Nullable(parts))
    case Ref(name, args) =>
      if name in params then EMPTY
      else if name == "Array" && args != [] then ArraySchema(Convert(w, params, args[0]))
      else if name == "Record" then
        RecordSchema(if |args| >= 2 then AdditionalSchema(Convert(w, params, args[1])) else AdditionalBool(true))
      else if name == "Date" then TypeSchema("string").(format := Some("date-time"))
      else RefSchema(name)
    case Unhandled(_) => EMPTY
  }

  /** The schemas of the branches that are neither `null` nor `undefined`. */
  function ConvertParts(w: World, params: set<string>, parts: seq<Ty>): (r: seq<Schema>)
    ensures |r| == |NonNull(parts)|
    decreases parts
  {
    if parts == [] then []
    else ConvertParts(w, params, parts[..|parts| - 1]) +
         (if IsNull(parts[|parts| - 1]) || IsUndefined(parts[|parts| - 1]) then []
          else [Convert(w, params, parts[|parts| - 1])])
  }

  /** A later property of the same name replaces an earlier one. */
  function Properties(w: World, params: set<string>, members: seq<Member>): map<string, Schema>
    decreases members
  {
    if members == [] then map[]
    else
      var m := members[|members| - 1];
      var rest := Properties(w, params, members[..|members| - 1]);
      if m.Property? then rest[m.key := Describe(Convert(w, params, m.ty), m.doc)] else rest
  }

  function Required(members: seq<Member>): seq<string> {
    if members == [] then []
    else
      var m := members[|members| - 1];
      Required(members[..|members| - 1]) + (if m.Property? && !m.optional then [m.key] else [])
  }

  function ParamSet(d: Decl): set<string> {
    set p | p in d.params
  }

  function ConvertDecl(w: World, d: Decl): Schema {
    match d
    case Interface(_, _, extendsRow, members, doc) =>
      Describe(ObjectSchema(Properties(w, ParamSet(d), members), Required(members), extendsRow), doc)
    case Alias(_, _, aliased, doc) => Describe(Convert(w, ParamSet(d), aliased), doc)
  }

  const ROW_SCHEMA := RecordSchema(AdditionalBool(true)).(description := Some("Loosely-typed normalised row."))

  function DeclDefs(w: World, decls: seq<Decl>): map<string, Schema> {
    if decls == [] then map[]
    else DeclDefs(w, decls[..|decls| - 1])[decls[|decls| - 1].name := ConvertDecl(w, decls[|decls| - 1])]
  }

  /** The emitted `$defs`: every declaration, and `Row` when nothing declares it. */
  function Defs(w: World): map<string, Schema> {
    var defs := DeclDefs(w, w.decls);
    if "Row" in defs then defs else defs["Row" := ROW_SCHEMA]
  }

  // ---------------------------------------------------------------------------------------------
  // Bookkeeping: referenced names and flags

  datatype Flag = UnhandledNode(where: string, node: Ty) | UndefinedType(name: string)

  /** Names the conversion of `t` references, whether or not the reference survives into the schema. */
  function Referenced(w: World, params: set<string>, t: Ty): set<string>
    decreases t
  {
    match t
    case Paren(inner) => Referenced(w, params, inner)
    case ArrayOf(elem) => Referenced(w, params, elem)
    case ObjectLit(members) => ReferencedMembers(w, params, members)
    case Union(parts) => ReferencedParts(w, params, parts)
    case Ref(name, args) =>
      if name in params then {}
      else if name == "Array" && args != [] then Referenced(w, params, args[0])
      else if name == "Record" then (if |args| >= 2 then Referenced(w, params, args[1]) else {})
      else if name == "Date" then {}
      else {name}
    case _ => {}
  }

  function ReferencedParts(w: World, params: set<string>, parts: seq<Ty>): set<string>
    decreases parts
  {
    if parts == [] then {}
    else ReferencedParts(w, params, parts[..|parts| - 1]) +
         (if IsNull(parts[|parts| - 1]) || IsUndefined(parts[|parts| - 1]) then {}
          else Referenced(w, params, parts[|parts| - 1]))
  }

  function ReferencedMembers(w: World, params: set<string>, members: seq<Member>): set<string>
    decreases members
  {
    if members == [] then {}
    else
      var m := members[|members| - 1];
      ReferencedMembers(w, params, members[..|members| - 1]) +
        (if m.Property? then Referenced(w, params, m.ty) else {})
  }

  /** One flag for every node the converter meets and cannot map. */
  function Flags(w: World, params: set<string>, where: string, t: Ty): seq<Flag>
    decreases t
  {
    match t
    case KUndefined => [UnhandledNode(where, t)]
    case Unhandled(_) => [UnhandledNode(where, t)]
    case Typeof(name) => if name in w.constStrings then [] else [UnhandledNode(where, t)]
    case Indexed(target) =>
      if Unwrapped(target).Typeof? && Unwrapped(target).name in w.enumArrays then [] else [UnhandledNode(where, t)]
    case Paren(inner) => Flags(w, params, where, inner)
    case ArrayOf(elem) => Flags(w, params, where, elem)
    case ObjectLit(members) => FlagsMembers(w, params, where, members)
    case Union(parts) => FlagsParts(w, params, where, parts)
    case Ref(name, args) =>
      if name in params then []
      else if name == "Array" && args != [] then Flags(w, params, where, args[0])
      else if name == "Record" && |args| >= 2 then Flags(w, params, where, args[1])
      else []
    case _ => []
  }

  function FlagsParts(w: World, params: set<string>, where: string, parts: seq<Ty>): seq<Flag>
    decreases parts
  {
    if parts == [] then []
    else FlagsParts(w, params, where, parts[..|parts| - 1]) +
         (if IsNull(parts[|parts| - 1]) || IsUndefined(parts[|parts| - 1]) then []
          else Flags(w, params, where, parts[|parts| - 1]))
  }

  function FlagsMembers(w: World, params: set<string>, where: string, members: seq<Member>): seq<Flag>
    decreases members
  {
    if members == [] then []
    else
      var m := members[|members| - 1];
      FlagsMembers(w, params, where, members[..|members| - 1]) +
        (if m.Property? then Flags(w, params, where + "." + m.key, m.ty) else [])
  }

  function ReferencedDecl(w: World, d: Decl): set<string> {
    if d.Interface? then ReferencedMembers(w, ParamSet(d), d.members) else Referenced(w, ParamSet(d), d.aliased)
  }

  function FlagsDecl(w: World, d: Decl): seq<Flag> {
    if d.Interface? then FlagsMembers(w, ParamSet(d), d.name, d.members) else Flags(w, ParamSet(d), d.name, d.aliased)
  }

  /** String literals reference nothing and raise no flag, so an `enum` may skip converting them. */
  lemma {:induction false} LiteralsAreQuiet(w: World, params: set<string>, where: string, parts: seq<Ty>)
    requires AllStringLits(NonNull(parts))
    ensures ReferencedParts(w, params, parts) == {} && FlagsParts(w, params, where, parts) == []
    decreases |parts|
  {
    if parts != [] {
      var front, last := parts[..|parts| - 1], parts[|parts| - 1];
      forall i | 0 <= i < |NonNull(front)| ensures NonNull(front)[i].StringLit? {
        assert NonNull(parts)[i] == NonNull(front)[i];
      }
      if !IsNull(last) && !IsUndefined(last) {
        assert NonNull(parts)[|NonNull(front)|] == last;
      }
      LiteralsAreQuiet(w, params, where, front);
    }
  }

  // ---------------------------------------------------------------------------------------------
  // No dangling references

  /** A `$ref` to `name` occurs somewhere in the schema. */
  ghost predicate Mentions(s: Schema, name: string)
    decreases s
  {
    || s.reference == Some(name)
    || (exists i :: 0 <= i < |s.anyOf| && Mentions(s.anyOf[i], name))
    || (s.items.Some? && Mentions(s.items.value, name))
    || (exists k :: k in s.properties && Mentions(s.properties[k], name))
    || (s.additional.AdditionalSchema? && Mentions(s.additional.schema, name))
  }

  /** Every reference that survives into a schema was recorded. */
  lemma {:induction false} MentionsAreReferenced(w: World, params: set<string>, t: Ty, name: string)
    ensures Mentions(Convert(w, params, t), name) ==> name in Referenced(w, params, t)
    decreases t
  {
    match t
    case Paren(inner) => MentionsAreReferenced(w, params, inner, name);
    case ArrayOf(elem) => MentionsAreReferenced(w, params, elem, name);
    case ObjectLit(members) =>
      PropertiesAreReferenced(w, params, members, name);
      ObjectMentions(Properties(w, params, members), Required(members), false, name);
    case Union(parts) =>
      PartsAreReferenced(w, params, parts, name);
      UnionMentions(NonNull(parts), ConvertParts(w, params, parts), Nullable(parts), name);
    case Ref(_, args) =>
      forall i | 0 <= i < |args|
        ensures Mentions(Convert(w, params, args[i]), name) ==> name in Referenced(w, params, args[i])
      {
        MentionsAreReferenced(w, params, args[i], name);
      }
    case _ =>
  }

  lemma {:induction false} PartsAreReferenced(w: World, params: set<string>, parts: seq<Ty>, name: string)
    ensures forall i :: 0 <= i < |ConvertParts(w, params, parts)| && Mentions(ConvertParts(w, params, parts)[i], name)
              ==> name in ReferencedParts(w, params, parts)
    decreases parts
  {
    if parts != [] {
      PartsAreReferenced(w, params, parts[..|parts| - 1], name);
      MentionsAreReferenced(w, params, parts[|parts| - 1], name);
    }
  }

  lemma {:induction false} PropertiesAreReferenced(w: World, params: set<string>, members: seq<Member>, name: string)
    ensures forall k :: k in Properties(w, params, members) && Mentions(Properties(w, params, members)[k], name)
              ==> name in ReferencedMembers(w, params, members)
    decreases members
  {
    if members != [] {
      var m := members[|members| - 1];
      PropertiesAreReferenced(w, params, members[..|members| - 1], name);
      if m.Property? {
        MentionsAreReferenced(w, params, m.ty, name);
        DescribeMentions(Convert(w, params, m.ty), m.doc, name);
      }
    }
  }

  lemma UnionMentions(nonNull: seq<Ty>, mapped: seq<Schema>, nullable: bool, name: string)
    requires |mapped| == |nonNull|
    ensures Mentions(ConvertUnion(nonNull, mapped, nullable), name) ==>
      exists i :: 0 <= i < |mapped| && Mentions(mapped[i], name)
  {
    var branches := mapped + (if nullable then [TypeSchema("null")] else []);
    if Mentions(AnyOfSchema(branches), name) {
      var i :| 0 <= i < |branches| && Mentions(branches[i], name);
      assert i < |mapped| ==> branches[i] == mapped[i];
    }
  }

  lemma ObjectMentions(properties: map<string, Schema>, required: seq<string>, open: bool, name: string)
    ensures Mentions(ObjectSchema(properties, required, open), name) <==>
      exists k :: k in properties && Mentions(properties[k], name)
  {
  }

  lemma DescribeMentions(s: Schema, doc: string, name: string)
    ensures Mentions(Describe(s, doc), name) <==> Mentions(s, name)
  {
  }

  function AllReferenced(w: World, decls: seq<Decl>): set<string> {
    if decls == [] then {}
    else AllReferenced(w, decls[..|decls| - 1]) + ReferencedDecl(w, decls[|decls| - 1])
  }

  function AllFlags(w: World, decls: seq<Decl>): seq<Flag> {
    if decls == [] then []
    else AllFlags(w, decls[..|decls| - 1]) + FlagsDecl(w, decls[|decls| - 1])
  }

  lemma {:induction false} DefsAreReferenced(w: World, decls: seq<Decl>, key: string, name: string)
    requires key in DeclDefs(w, decls) && Mentions(DeclDefs(w, decls)[key], name)
    ensures name in AllReferenced(w, decls)
    decreases |decls|
  {
    var d := decls[|decls| - 1];
    if key == d.name {
      if d.Interface? {
        PropertiesAreReferenced(w, ParamSet(d), d.members, name);
        ObjectMentions(Properties(w, ParamSet(d), d.members), Required(d.members), d.extendsRow, name);
        DescribeMentions(ObjectSchema(Properties(w, ParamSet(d), d.members), Required(d.members), d.extendsRow), d.doc, name);
      } else {
        MentionsAreReferenced(w, ParamSet(d), d.aliased, name);
        DescribeMentions(Convert(w, ParamSet(d), d.aliased), d.doc, name);
      }
    } else {
      DefsAreReferenced(w, decls[..|decls| - 1], key, name);
    }
  }

  /** When every recorded name is defined, the emitted contract has no dangling `$ref`. */
  lemma NoDanglingReferences(w: World)
    requires forall name :: name in AllReferenced(w, w.decls) ==> name in Defs(w)
    ensures forall key, name :: key in Defs(w) && Mentions(Defs(w)[key], name) ==> name in Defs(w)
  {
    forall key, name | key in Defs(w) && Mentions(Defs(w)[key], name) ensures name in Defs(w) {
      if key in DeclDefs(w, w.decls) {
        DefsAreReferenced(w, w.decls, key, name);
      }
    }
  }
}
