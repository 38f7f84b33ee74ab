/** The fragment on which the emitted schema accepts nothing but the type's values. */
module ContractExactness {
  import opened Options
  import opened Json
  import opened JsonSchema
  import opened ContractTypes
  import opened ContractSchema
  import opened ContractSoundness

  predicate IsScalar(name: string) {
    name in ["string", "number", "boolean", "null"]
  }

  /**
   * No branch falls back to `{}`, no union collapses array or object members to a bare `type`, every
   * reference is to a declared non-generic type, and records are keyed by plain strings.
   */
  predicate Exact(w: World, t: Ty)
    decreases t
  {
    match t
    case KUndefined => false
    case Paren(inner) => Exact(w, inner)
    case Typeof(name) => name in w.constStrings
    case Indexed(target) => Unwrapped(target).Typeof? && Unwrapped(target).name in w.enumArrays
    case OtherLit(_) => false
    case ArrayOf(elem) => Exact(w, elem)
    case ObjectLit(members) => ExactMembers(w, members)
    case Union(parts) =>
      && (forall i :: 0 <= i < |parts| ==> IsUndefined(parts[i]) || Exact(w, parts[i]))
      && var mapped := ConvertParts(w, {}, parts);
         (OneCommonType(mapped) && (|mapped| > 1 || Nullable(parts)) ==> IsScalar(mapped[0].types.name))
    case Ref(name, args) =>
      if name == "Array" && args != [] then Exact(w, args[0])
      else if name == "Record" then |args| >= 2 && args[0] == KString && Exact(w, args[1])
      else if name == "Date" then true
      else
        && args == []
        && (Find(w.decls, name).Some? || name == "Row")
        && (Find(w.decls, name).Some? ==> Find(w.decls, name).value.params == [])
    case Unhandled(_) => false
    case _ => true
  }

  predicate ExactMembers(w: World, members: seq<Member>)
    decreases members
  {
    && (forall i :: 0 <= i < |members| ==> members[i].Property? && Exact(w, members[i].ty))
    && (forall i, j :: 0 <= i < j < |members| ==> members[i].key != members[j].key)
  }

  predicate ExactDecl(w: World, d: Decl) {
    if d.Interface? then ExactMembers(w, d.members) else Exact(w, d.aliased)
  }

  /**
   * `names` holds, with a declared name, every name its declaration references, and those declarations
   * are exact. Nothing is asked of a declaration outside `names`.
   */
  predicate ExactOn(w: World, names: set<string>) {
    forall name :: name in names && Find(w.decls, name).Some? ==>
      && ExactDecl(w, Find(w.decls, name).value)
      && ReferencedDecl(w, Find(w.decls, name).value) <= names
  }

  lemma {:induction false} PartReferenced(w: World, parts: seq<Ty>, i: nat)
    requires i < |parts| && !IsNull(parts[i]) && !IsUndefined(parts[i])
    ensures Referenced(w, {}, parts[i]) <= ReferencedParts(w, {}, parts)
    decreases |parts|
  {
    if i < |parts| - 1 {
      PartReferenced(w, parts[..|parts| - 1], i);
    }
  }

  lemma {:induction false} MemberReferenced(w: World, members: seq<Member>, i: nat)
    requires i < |members| && members[i].Property?
    ensures Referenced(w, {}, members[i].ty) <= ReferencedMembers(w, {}, members)
    decreases |members|
  {
    if i < |members| - 1 {
      MemberReferenced(w, members[..|members| - 1], i);
    }
  }

  /** A schema whose `type` is one scalar name says nothing else. */
  lemma {:induction false} ScalarIsPlain(w: World, t: Ty)
    requires Convert(w, {}, t).types.OneType? && IsScalar(Convert(w, {}, t).types.name)
    ensures Convert(w, {}, t).(format := None) == TypeSchema(Convert(w, {}, t).types.name)
    decreases t
  {
    match t
    case Paren(inner) => ScalarIsPlain(w, inner);
    case Union(parts) =>
      if |NonNull(parts)| == 1 && !Nullable(parts) {
        var i := PartMapped(w, {}, parts, 0);
        ScalarIsPlain(w, parts[i]);
      }
    case _ =>
  }

  lemma PlainAccepts(n: nat, defs: map<string, Schema>, s: Schema, name: string, v: J)
    requires s.(format := None) == TypeSchema(name)
    ensures ValidN(n, defs, s, v) <==> HasTypeName(name, v)
  {
  }

  /** On the exact fragment, whatever validates is a value of the type. */
  lemma {:induction false} ConvertExact(n: nat, w: World, names: set<string>, t: Ty, v: J)
    requires ExactOn(w, names) && Referenced(w, {}, t) <= names && Exact(w, t)
    requires ValidN(n, Defs(w), Convert(w, {}, t), v)
    ensures InhabitsN(n, w, map[], t, Some(v))
    decreases n, t, 0
  {
    hide ValidN, Defs, ConvertUnion;
    var defs := Defs(w);
    match t
    case Paren(inner) => ConvertExact(n, w, names, inner, v);
    case ArrayOf(elem) => ArrayExact(n, w, names, elem, v);
    case ObjectLit(members) => MembersExact(n, w, names, members, false, v);
    case Union(parts) => UnionExact(n, w, names, parts, v);
    case Ref(name, args) => ReferenceExact(n, w, names, name, args, v);
    case Indexed(target) =>
      StringsMember(w.enumArrays[Unwrapped(target).name], v);
      EnumAccepts(n, defs, Strings(w.enumArrays[Unwrapped(target).name]), v);
    case Typeof(name) => ConstAccepts(n, defs, JStr(w.constStrings[name]), v);
    case StringLit(text) => ConstAccepts(n, defs, JStr(text), v);
    case NumberLit(value) => ConstAccepts(n, defs, JNum(value), v);
    case KString => TypeAccepts(n, defs, "string", v);
    case KNumber => TypeAccepts(n, defs, "number", v);
    case KBoolean => TypeAccepts(n, defs, "boolean", v);
    case KNull => TypeAccepts(n, defs, "null", v);
    case NullLit => TypeAccepts(n, defs, "null", v);
    case KUnknown =>
    case KAny =>
  }

  lemma {:induction false} ArrayExact(n: nat, w: World, names: set<string>, elem: Ty, v: J)
    requires ExactOn(w, names) && Referenced(w, {}, elem) <= names && Exact(w, elem)
    requires ValidN(n, Defs(w), ArraySchema(Convert(w, {}, elem)), v)
    ensures v.JArr? && forall i :: 0 <= i < |v.items| ==> InhabitsN(n, w, map[], elem, Some(v.items[i]))
    decreases n, elem, 1
  {
    hide ValidN;
    ArrayAccepts(n, Defs(w), Convert(w, {}, elem), v);
    forall i | 0 <= i < |v.items| ensures InhabitsN(n, w, map[], elem, Some(v.items[i])) {
      ConvertExact(n, w, names, elem, v.items[i]);
    }
  }

  /** With distinct names, the properties map holds exactly the declared ones. */
  lemma {:induction false} PropertyKept(w: World, members: seq<Member>, i: nat)
    requires i < |members| && forall j :: 0 <= j < |members| ==> members[j].Property?
    requires forall j, k :: 0 <= j < k < |members| ==> members[j].key != members[k].key
    ensures members[i].key in Properties(w, {}, members)
    ensures Properties(w, {}, members)[members[i].key] == Describe(Convert(w, {}, members[i].ty), members[i].doc)
    decreases |members|
  {
    if i < |members| - 1 {
      PropertyKept(w, members[..|members| - 1], i);
    }
  }

  lemma {:induction false} MembersExact(n: nat, w: World, names: set<string>, members: seq<Member>, open: bool, v: J)
    requires ExactOn(w, names) && ReferencedMembers(w, {}, members) <= names && ExactMembers(w, members)
    requires ValidN(n, Defs(w), ObjectSchema(Properties(w, {}, members), Required(members), open), v)
    ensures InhabitsMembers(n, w, map[], members, open, Some(v))
    decreases n, members
  {
    hide ValidN;
    var props := Properties(w, {}, members);
    ObjectAccepts(n, Defs(w), props, Required(members), open, v);
    RequiredKeys(members);
    forall i | 0 <= i < |members|
      ensures InhabitsN(n, w, map[], members[i].ty, FieldOf(v.fields, members[i].key))
           || (members[i].optional && members[i].key !in v.fields)
    {
      var m := members[i];
      PropertyKept(w, members, i);
      MemberReferenced(w, members, i);
      if m.key in v.fields {
        DescribeAccepts(n, Defs(w), Convert(w, {}, m.ty), m.doc, v.fields[m.key]);
        ConvertExact(n, w, names, m.ty, v.fields[m.key]);
      }
    }
    forall k | k in v.fields && !open
      ensures exists i :: 0 <= i < |members| && members[i].Property? && members[i].key == k
    {
      var i := PropertyDeclared(w, {}, members, k);
    }
  }

  lemma {:induction false} UnionExact(n: nat, w: World, names: set<string>, parts: seq<Ty>, v: J)
    requires ExactOn(w, names) && ReferencedParts(w, {}, parts) <= names && Exact(w, Union(parts))
    requires ValidN(n, Defs(w), Convert(w, {}, Union(parts)), v)
    ensures InhabitsN(n, w, map[], Union(parts), Some(v))
    decreases n, parts
  {
    hide ValidN, Defs, ConvertUnion;
    var j := BranchFound(n, w, parts, v);
    if j < 0 {
      var i :| 0 <= i < |parts| && IsNull(parts[i]);
      assert InhabitsN(n, w, map[], parts[i], Some(v));
    } else {
      var i := PartMapped(w, {}, parts, j);
      PartReferenced(w, parts, i);
      ConvertExact(n, w, names, parts[i], v);
    }
  }

  /** A union's schema accepts only `null`, if nullable, and what one of its branches accepts. */
  lemma BranchFound(n: nat, w: World, parts: seq<Ty>, v: J) returns (j: int)
    requires Exact(w, Union(parts))
    requires ValidN(n, Defs(w), Convert(w, {}, Union(parts)), v)
    ensures if j < 0 then Nullable(parts) && v == JNull
      else j < |NonNull(parts)| && ValidN(n, Defs(w), ConvertParts(w, {}, parts)[j], v)
  {
    hide ValidN, Defs, Exact, OneCommonType;
    var nonNull, mapped, nullable := NonNull(parts), ConvertParts(w, {}, parts), Nullable(parts);
    if |nonNull| == 1 && !nullable {
      j := 0;
    } else if AllStringLits(nonNull) {
      j := LiteralFound(n, w, parts, v);
    } else if OneCommonType(mapped) {
      j := CollapseFound(n, w, parts, v);
    } else {
      var branches := mapped + (if nullable then [TypeSchema("null")] else []);
      AnyOfAccepts(n, Defs(w), branches, v);
      j :| 0 <= j < |branches| && ValidN(n, Defs(w), branches[j], v);
      if j == |nonNull| {
        TypeAccepts(n, Defs(w), "null", v);
        j := -1;
      }
    }
  }

  lemma LiteralFound(n: nat, w: World, parts: seq<Ty>, v: J) returns (j: int)
    requires AllStringLits(NonNull(parts))
    requires ValidN(n, Defs(w), EnumSchema(LiteralValues(NonNull(parts)) + (if Nullable(parts) then [JNull] else [])), v)
    ensures if j < 0 then Nullable(parts) && v == JNull
      else j < |NonNull(parts)| && ValidN(n, Defs(w), ConvertParts(w, {}, parts)[j], v)
  {
    hide ValidN, Defs;
    var nonNull := NonNull(parts);
    var vs := LiteralValues(nonNull) + (if Nullable(parts) then [JNull] else []);
    EnumAccepts(n, Defs(w), vs, v);
    j :| 0 <= j < |vs| && vs[j] == v;
    if j == |nonNull| {
      j := -1;
    } else {
      var i := PartMapped(w, {}, parts, j);
      ConstAccepts(n, Defs(w), JStr(nonNull[j].text), v);
    }
  }

  lemma CollapseFound(n: nat, w: World, parts: seq<Ty>, v: J) returns (j: int)
    requires Exact(w, Union(parts)) && OneCommonType(ConvertParts(w, {}, parts))
    requires |NonNull(parts)| != 1 || Nullable(parts)
    requires ValidN(n, Defs(w), Combine(ConvertParts(w, {}, parts), Nullable(parts)), v)
    ensures if j < 0 then Nullable(parts) && v == JNull
      else j < |NonNull(parts)| && ValidN(n, Defs(w), ConvertParts(w, {}, parts)[j], v)
  {
    hide ValidN, Defs;
    var mapped := ConvertParts(w, {}, parts);
    var name := mapped[0].types.name;
    NullableTypeAccepts(n, Defs(w), name, v);
    TypeAccepts(n, Defs(w), name, v);
    if Nullable(parts) && v == JNull {
      j := -1;
    } else {
      var i := PartMapped(w, {}, parts, 0);
      ScalarIsPlain(w, parts[i]);
      PlainAccepts(n, Defs(w), mapped[0], name, v);
      j := 0;
    }
  }

  lemma {:induction false} ReferenceExact(n: nat, w: World, names: set<string>, name: string, args: seq<Ty>, v: J)
    requires ExactOn(w, names) && Referenced(w, {}, Ref(name, args)) <= names && Exact(w, Ref(name, args))
    requires ValidN(n, Defs(w), Convert(w, {}, Ref(name, args)), v)
    ensures InhabitsN(n, w, map[], Ref(name, args), Some(v))
    decreases n, args, 1
  {
    hide ValidN, Defs;
    var defs := Defs(w);
    if name == "Array" && args != [] {
      ArrayExact(n, w, names, args[0], v);
    } else if name == "Record" {
      RecordAccepts(n, defs, Convert(w, {}, args[1]), v);
      forall k | k in v.fields ensures InhabitsN(n, w, map[], args[1], Some(v.fields[k])) {
        ConvertExact(n, w, names, args[1], v.fields[k]);
      }
    } else if name == "Date" {
      DateAccepts(n, defs, v);
    } else {
      NamedExact(n, w, names, name, args, v);
    }
  }

  lemma {:induction false} NamedExact(n: nat, w: World, names: set<string>, name: string, args: seq<Ty>, v: J)
    requires args == [] && ExactOn(w, names) && name in names && (Find(w.decls, name).Some? || name == "Row")
    requires Find(w.decls, name).Some? ==> Find(w.decls, name).value.params == []
    requires ValidN(n, Defs(w), RefSchema(name), v)
    ensures InhabitsNamed(n, w, map[], name, args, Some(v))
    decreases n, args, 0
  {
    hide ValidN, Exact, ConvertDecl, ExactMembers, ReferencedDecl;
    DeclDefsFind(w, w.decls, name);
    DeclDefsFind(w, w.decls, "Row");
    RefAccepts(n, Defs(w), name, v);
    if Find(w.decls, name).None? {
      RowAccepts(n - 1, Defs(w), v);
    } else {
      var d := Find(w.decls, name).value;
      DeclExact(n - 1, w, names, d, v);
      assert (map p | p in d.params :: Bound(n, w, map[], d.params, args, p)) == map[];
    }
  }

  lemma {:induction false} DeclExact(n: nat, w: World, names: set<string>, d: Decl, v: J)
    requires ExactOn(w, names) && ReferencedDecl(w, d) <= names && d.params == []
    requires ExactDecl(w, d)
    requires ValidN(n, Defs(w), ConvertDecl(w, d), v)
    ensures InhabitsDecl(n, w, map[], d, Some(v))
    decreases n, d
  {
    hide ValidN, Defs;
    assert ParamSet(d) == {};
    if d.Interface? {
      DescribeAccepts(n, Defs(w), ObjectSchema(Properties(w, {}, d.members), Required(d.members), d.extendsRow), d.doc, v);
      MembersExact(n, w, names, d.members, d.extendsRow, v);
    } else {
      DescribeAccepts(n, Defs(w), Convert(w, {}, d.aliased), d.doc, v);
      ConvertExact(n, w, names, d.aliased, v);
    }
  }

  /**
   * The schema accepts the type's values and no others when the type and the declarations it reaches are
   * exact; what else the contract declares does not matter.
   */
  lemma CompilationIsExact(w: World, names: set<string>, t: Ty, mayBeUndefined: bool, v: J)
    requires SupportedWorld(w) && Supported(t, mayBeUndefined)
    requires ExactOn(w, names) && Referenced(w, {}, t) <= names && Exact(w, t)
    ensures Inhabits(w, map[], t, v) <==> Validates(Defs(w), Convert(w, {}, t), v)
  {
    hide ValidN, InhabitsN, Defs, Convert;
    var none: Binding := map[];
    CompilationIsSound(w, none, t, mayBeUndefined, v);
    assert none.Keys == {};
    if Validates(Defs(w), Convert(w, {}, t), v) {
      var n: nat :| ValidN(n, Defs(w), Convert(w, {}, t), v);
      ConvertExact(n, w, names, t, v);
    }
  }
}
