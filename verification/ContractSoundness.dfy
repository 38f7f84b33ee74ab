/**
 * Every JSON value of a supported type validates against the schema emitted for that type, recursive
 * references included.
 */
module ContractSoundness {
  import opened Options
  import opened Json
  import opened JsonSchema
  import opened ContractTypes
  import opened ContractSchema

  // ---------------------------------------------------------------------------------------------
  // What each emitted form accepts

  lemma ObjectAccepts(n: nat, defs: map<string, Schema>, props: map<string, Schema>, required: seq<string>, open: bool, v: J)
    ensures ValidN(n, defs, ObjectSchema(props, required, open), v) <==>
      && v.JObj?
      && (forall k :: k in props && k in v.fields ==> ValidN(n, defs, props[k], v.fields[k]))
      && (forall k :: k in required ==> k in v.fields)
      && (!open ==> forall k :: k in v.fields ==> k in props)
  {
  }

  lemma ArrayAccepts(n: nat, defs: map<string, Schema>, items: Schema, v: J)
    ensures ValidN(n, defs, ArraySchema(items), v) <==>
      v.JArr? && forall i :: 0 <= i < |v.items| ==> ValidN(n, defs, items, v.items[i])
  {
  }

  lemma RecordAccepts(n: nat, defs: map<string, Schema>, values: Schema, v: J)
    ensures ValidN(n, defs, RecordSchema(AdditionalSchema(values)), v) <==>
      v.JObj? && forall k :: k in v.fields ==> ValidN(n, defs, values, v.fields[k])
    ensures ValidN(n, defs, RecordSchema(AdditionalBool(true)), v) <==> v.JObj?
  {
  }

  lemma TypeAccepts(n: nat, defs: map<string, Schema>, name: string, v: J)
    ensures ValidN(n, defs, TypeSchema(name), v) <==> HasTypeName(name, v)
  {
  }

  lemma NullableTypeAccepts(n: nat, defs: map<string, Schema>, name: string, v: J)
    ensures ValidN(n, defs, EMPTY.(types := TypeOrNull(name)), v) <==> HasTypeName(name, v) || v == JNull
  {
  }

  lemma DateAccepts(n: nat, defs: map<string, Schema>, v: J)
    ensures ValidN(n, defs, TypeSchema("string").(format := Some("date-time")), v) <==> v.JStr?
  {
  }

  lemma EmptyAccepts(n: nat, defs: map<string, Schema>, v: J)
    ensures ValidN(n, defs, EMPTY, v)
  {
  }

  lemma ConstAccepts(n: nat, defs: map<string, Schema>, c: J, v: J)
    ensures ValidN(n, defs, ConstSchema(c), v) <==> v == c
  {
  }

  lemma EnumAccepts(n: nat, defs: map<string, Schema>, cs: seq<J>, v: J)
    ensures ValidN(n, defs, EnumSchema(cs), v) <==> v in cs
  {
  }

  lemma RowAccepts(n: nat, defs: map<string, Schema>, v: J)
    ensures ValidN(n, defs, ROW_SCHEMA, v) <==> v.JObj?
  {
  }

  lemma NeedsType(n: nat, defs: map<string, Schema>, s: Schema, v: J)
    requires ValidN(n, defs, s, v)
    ensures TypeOk(s.types, v)
  {
  }

  lemma AnyOfAccepts(n: nat, defs: map<string, Schema>, branches: seq<Schema>, v: J)
    requires branches != []
    ensures ValidN(n, defs, AnyOfSchema(branches), v) <==>
      exists i :: 0 <= i < |branches| && ValidN(n, defs, branches[i], v)
  {
  }

  lemma RefAccepts(n: nat, defs: map<string, Schema>, name: string, v: J)
    ensures ValidN(n, defs, RefSchema(name), v) <==> n > 0 && name in defs && ValidN(n - 1, defs, defs[name], v)
  {
  }

  lemma DescribeAccepts(n: nat, defs: map<string, Schema>, s: Schema, doc: string, v: J)
    ensures ValidN(n, defs, Describe(s, doc), v) <==> ValidN(n, defs, s, v)
  {
  }

  // ---------------------------------------------------------------------------------------------
  // Bookkeeping facts

  lemma {:induction false} MappedPart(w: World, params: set<string>, parts: seq<Ty>, i: nat) returns (j: nat)
    requires i < |parts| && !IsNull(parts[i]) && !IsUndefined(parts[i])
    ensures j < |ConvertParts(w, params, parts)| && ConvertParts(w, params, parts)[j] == Convert(w, params, parts[i])
    ensures NonNull(parts)[j] == parts[i]
    decreases |parts|
  {
    if i == |parts| - 1 {
      j := |NonNull(parts)| - 1;
    } else {
      j := MappedPart(w, params, parts[..|parts| - 1], i);
    }
  }

  lemma {:induction false} PartMapped(w: World, params: set<string>, parts: seq<Ty>, j: nat) returns (i: nat)
    requires j < |NonNull(parts)|
    ensures i < |parts| && !IsNull(parts[i]) && !IsUndefined(parts[i])
    ensures NonNull(parts)[j] == parts[i]
    ensures ConvertParts(w, params, parts)[j] == Convert(w, params, parts[i])
    decreases |parts|
  {
    var front := parts[..|parts| - 1];
    if j < |NonNull(front)| {
      i := PartMapped(w, params, front, j);
    } else {
      i := |parts| - 1;
    }
  }

  /** The schema of a property is that of its last declaration. */
  lemma {:induction false} PropertyDeclared(w: World, params: set<string>, members: seq<Member>, k: string) returns (i: int)
    ensures k in Properties(w, params, members) ==>
      && 0 <= i < |members| && members[i].Property? && members[i].key == k
      && Properties(w, params, members)[k] == Describe(Convert(w, params, members[i].ty), members[i].doc)
    ensures k !in Properties(w, params, members) ==>
      forall j :: 0 <= j < |members| && members[j].Property? ==> members[j].key != k
    decreases |members|
  {
    if members == [] {
      i := 0;
    } else {
      var m := members[|members| - 1];
      if m.Property? && m.key == k {
        i := |members| - 1;
      } else {
        i := PropertyDeclared(w, params, members[..|members| - 1], k);
      }
    }
  }

  lemma {:induction false} RequiredKeys(members: seq<Member>)
    ensures forall k :: k in Required(members) <==>
      exists i :: 0 <= i < |members| && members[i].Property? && !members[i].optional && members[i].key == k
    decreases |members|
  {
    if members != [] {
      var front := members[..|members| - 1];
      RequiredKeys(front);
      forall k
        ensures k in Required(members) <==>
          exists i :: 0 <= i < |members| && members[i].Property? && !members[i].optional && members[i].key == k
      {
        if k in Required(front) {
          var i :| 0 <= i < |front| && front[i].Property? && !front[i].optional && front[i].key == k;
          assert members[i] == front[i];
        }
        if i :| 0 <= i < |members| && members[i].Property? && !members[i].optional && members[i].key == k {
          if i < |front| { assert front[i] == members[i]; }
        }
      }
    }
  }

  lemma {:induction false} DeclDefsFind(w: World, decls: seq<Decl>, name: string)
    ensures name in DeclDefs(w, decls) <==> Find(decls, name).Some?
    ensures Find(decls, name).Some? ==> DeclDefs(w, decls)[name] == ConvertDecl(w, Find(decls, name).value)
    decreases |decls|
  {
    if decls != [] {
      DeclDefsFind(w, decls[..|decls| - 1], name);
    }
  }

  // ---------------------------------------------------------------------------------------------
  // Soundness

  /** The supported vocabulary: `undefined` only inside an optional property's union, typed properties only. */
  predicate Supported(t: Ty, mayBeUndefined: bool)
    decreases t
  {
    match t
    case KUndefined => false
    case Paren(inner) => Supported(inner, mayBeUndefined)
    case ArrayOf(elem) => Supported(elem, false)
    case ObjectLit(members) => SupportedMembers(members)
    case Union(parts) =>
      forall i :: 0 <= i < |parts| ==> (mayBeUndefined && IsUndefined(parts[i])) || Supported(parts[i], mayBeUndefined)
    case Ref(_, args) => forall i :: 0 <= i < |args| ==> Supported(args[i], false)
    case _ => true
  }

  predicate SupportedMembers(members: seq<Member>)
    decreases members
  {
    forall i :: 0 <= i < |members| ==> members[i].Property? && Supported(members[i].ty, members[i].optional)
  }

  predicate SupportedDecl(d: Decl) {
    if d.Interface? then SupportedMembers(d.members) else Supported(d.aliased, false)
  }

  predicate SupportedWorld(w: World) {
    forall i :: 0 <= i < |w.decls| ==> SupportedDecl(w.decls[i])
  }

  lemma {:induction false} FindSupported(decls: seq<Decl>, name: string)
    requires forall i :: 0 <= i < |decls| ==> SupportedDecl(decls[i])
    ensures Find(decls, name).Some? ==> SupportedDecl(Find(decls, name).value)
    decreases |decls|
  {
    if decls != [] {
      FindSupported(decls[..|decls| - 1], name);
    }
  }

  ghost predicate Defined(rho: Binding) {
    forall p :: p in rho ==> None !in rho[p]
  }

  /** A supported type outside an optional property's union has no `undefined` inhabitant. */
  lemma {:induction false} NeverUndefined(n: nat, w: World, rho: Binding, t: Ty)
    requires SupportedWorld(w) && Supported(t, false) && Defined(rho)
    ensures !InhabitsN(n, w, rho, t, None)
    decreases n, t
  {
    match t
    case Paren(inner) => NeverUndefined(n, w, rho, inner);
    case Union(parts) =>
      forall i | 0 <= i < |parts| ensures !InhabitsN(n, w, rho, parts[i], None) {
        NeverUndefined(n, w, rho, parts[i]);
      }
    case Ref(name, args) => NamedNeverUndefined(n, w, rho, name, args);
    case _ =>
  }

  lemma {:induction false} NamedNeverUndefined(n: nat, w: World, rho: Binding, name: string, args: seq<Ty>)
    requires SupportedWorld(w) && Defined(rho)
    requires forall i :: 0 <= i < |args| ==> Supported(args[i], false)
    ensures !InhabitsNamed(n, w, rho, name, args, None)
    decreases n, args, 1
  {
    FindSupported(w.decls, name);
    if n > 0 && Find(w.decls, name).Some? {
      var d := Find(w.decls, name).value;
      var inner := map p | p in d.params :: Bound(n, w, rho, d.params, args, p);
      BoundDefined(n, w, rho, d.params, args);
      if d.Alias? {
        NeverUndefined(n - 1, w, inner, d.aliased);
      }
      assert !InhabitsDecl(n - 1, w, inner, d, None);
    }
  }

  lemma {:induction false} BoundDefined(n: nat, w: World, rho: Binding, params: seq<string>, args: seq<Ty>)
    requires SupportedWorld(w) && Defined(rho)
    requires forall i :: 0 <= i < |args| ==> Supported(args[i], false)
    ensures Defined(map p | p in params :: Bound(n, w, rho, params, args, p))
    decreases n, args, 0
  {
    forall i | 0 <= i < |args| ensures !InhabitsN(n, w, rho, args[i], None) {
      NeverUndefined(n, w, rho, args[i]);
    }
  }

  /** Every JSON value of a supported type validates against the schema of that type. */
  lemma {:induction false} ConvertSound(n: nat, w: World, rho: Binding, t: Ty, mayBeUndefined: bool, v: J)
    requires SupportedWorld(w) && Supported(t, mayBeUndefined) && Defined(rho)
    requires InhabitsN(n, w, rho, t, Some(v))
    ensures ValidN(n, Defs(w), Convert(w, rho.Keys, t), v)
    decreases n, t, 0
  {
    hide ValidN, Defs, ConvertUnion;
    var defs := Defs(w);
    match t
    case Paren(inner) => ConvertSound(n, w, rho, inner, mayBeUndefined, v);
    case ArrayOf(elem) => ArraySound(n, w, rho, elem, v);
    case ObjectLit(members) => MembersSound(n, w, rho, members, false, v);
    case Union(parts) => UnionSound(n, w, rho, parts, mayBeUndefined, v);
    case Ref(name, args) => ReferenceSound(n, w, rho, name, args, v);
    case Indexed(target) =>
      if Unwrapped(target).Typeof? && Unwrapped(target).name in w.enumArrays {
        StringsMember(w.enumArrays[Unwrapped(target).name], v);
        EnumAccepts(n, defs, Strings(w.enumArrays[Unwrapped(target).name]), v);
      } else {
        EmptyAccepts(n, defs, v);
      }
    case Typeof(name) =>
      EmptyAccepts(n, defs, v);
      if name in w.constStrings { ConstAccepts(n, defs, JStr(w.constStrings[name]), v); }
    case _ => LeafSound(n, w, rho, t, v);
  }

  lemma LeafSound(n: nat, w: World, rho: Binding, t: Ty, v: J)
    requires !t.Paren? && !t.ArrayOf? && !t.ObjectLit? && !t.Union? && !t.Ref? && !t.Indexed? && !t.Typeof?
    requires InhabitsN(n, w, rho, t, Some(v))
    ensures ValidN(n, Defs(w), Convert(w, rho.Keys, t), v)
  {
  }

  lemma {:induction false} ReferenceSound(n: nat, w: World, rho: Binding, name: string, args: seq<Ty>, v: J)
    requires SupportedWorld(w) && Defined(rho) && forall i :: 0 <= i < |args| ==> Supported(args[i], false)
    requires InhabitsN(n, w, rho, Ref(name, args), Some(v))
    ensures ValidN(n, Defs(w), Convert(w, rho.Keys, Ref(name, args)), v)
    decreases n, args, 1
  {
    hide ValidN, Defs;
    var defs := Defs(w);
    if name in rho {
      EmptyAccepts(n, defs, v);
    } else if name == "Array" && args != [] {
      ArraySound(n, w, rho, args[0], v);
    } else if name == "Record" {
      if |args| >= 2 {
        forall k | k in v.fields ensures ValidN(n, defs, Convert(w, rho.Keys, args[1]), v.fields[k]) {
          ConvertSound(n, w, rho, args[1], false, v.fields[k]);
        }
      }
      RecordAccepts(n, defs, if |args| >= 2 then Convert(w, rho.Keys, args[1]) else EMPTY, v);
    } else if name == "Date" {
      DateAccepts(n, defs, v);
    } else {
      NamedSound(n, w, rho, name, args, v);
    }
  }

  lemma StringsMember(texts: seq<string>, v: J)
    ensures v in Strings(texts) <==> v.JStr? && v.s in texts
  {
    if v.JStr? && v.s in texts {
      var i :| 0 <= i < |texts| && texts[i] == v.s;
      assert Strings(texts)[i] == v;
    }
  }

  lemma {:induction false} ArraySound(n: nat, w: World, rho: Binding, elem: Ty, v: J)
    requires SupportedWorld(w) && Supported(elem, false) && Defined(rho)
    requires v.JArr? && forall i :: 0 <= i < |v.items| ==> InhabitsN(n, w, rho, elem, Some(v.items[i]))
    ensures ValidN(n, Defs(w), ArraySchema(Convert(w, rho.Keys, elem)), v)
    decreases n, elem, 1
  {
    hide ValidN;
    forall i | 0 <= i < |v.items| ensures ValidN(n, Defs(w), Convert(w, rho.Keys, elem), v.items[i]) {
      ConvertSound(n, w, rho, elem, false, v.items[i]);
    }
    ArrayAccepts(n, Defs(w), Convert(w, rho.Keys, elem), v);
  }

  lemma {:induction false} MembersSound(n: nat, w: World, rho: Binding, members: seq<Member>, open: bool, v: J)
    requires SupportedWorld(w) && SupportedMembers(members) && Defined(rho)
    requires InhabitsMembers(n, w, rho, members, open, Some(v))
    ensures ValidN(n, Defs(w), ObjectSchema(Properties(w, rho.Keys, members), Required(members), open), v)
    decreases n, members
  {
    hide ValidN;
    var props := Properties(w, rho.Keys, members);
    forall k | k in props && k in v.fields ensures ValidN(n, Defs(w), props[k], v.fields[k]) {
      var i := PropertyDeclared(w, rho.Keys, members, k);
      ConvertSound(n, w, rho, members[i].ty, members[i].optional, v.fields[k]);
      DescribeAccepts(n, Defs(w), Convert(w, rho.Keys, members[i].ty), members[i].doc, v.fields[k]);
    }
    RequiredKeys(members);
    forall k | k in Required(members) ensures k in v.fields {
      var i :| 0 <= i < |members| && members[i].Property? && !members[i].optional && members[i].key == k;
      NeverUndefined(n, w, rho, members[i].ty);
    }
    forall k | k in v.fields && !open ensures k in props {
      var i := PropertyDeclared(w, rho.Keys, members, k);
    }
    ObjectAccepts(n, Defs(w), props, Required(members), open, v);
  }

  lemma {:induction false} UnionSound(n: nat, w: World, rho: Binding, parts: seq<Ty>, mayBeUndefined: bool, v: J)
    requires SupportedWorld(w) && Supported(Union(parts), mayBeUndefined) && Defined(rho)
    requires InhabitsN(n, w, rho, Union(parts), Some(v))
    ensures ValidN(n, Defs(w), Convert(w, rho.Keys, Union(parts)), v)
    decreases n, parts
  {
    hide ValidN, Defs, ConvertUnion, Combine, AllStringLits, InhabitsMembers, InhabitsNamed;
    var i :| 0 <= i < |parts| && InhabitsN(n, w, rho, parts[i], Some(v));
    if IsNull(parts[i]) {
      NullAccepted(n, Defs(w), NonNull(parts), ConvertParts(w, rho.Keys, parts));
    } else {
      var j := MappedPart(w, rho.Keys, parts, i);
      ConvertSound(n, w, rho, parts[i], mayBeUndefined, v);
      BranchAccepted(n, Defs(w), NonNull(parts), ConvertParts(w, rho.Keys, parts), Nullable(parts), j, v) by {
        if parts[i].StringLit? { ConstAccepts(n, Defs(w), JStr(parts[i].text), v); }
      }
    }
  }

  lemma NullAccepted(n: nat, defs: map<string, Schema>, nonNull: seq<Ty>, mapped: seq<Schema>)
    requires |mapped| == |nonNull|
    ensures ValidN(n, defs, ConvertUnion(nonNull, mapped, true), JNull)
  {
    hide ValidN;
    if AllStringLits(nonNull) {
      var vs := LiteralValues(nonNull) + [JNull];
      assert vs[|nonNull|] == JNull;
      EnumAccepts(n, defs, vs, JNull);
    } else if OneCommonType(mapped) {
      NullableTypeAccepts(n, defs, mapped[0].types.name, JNull);
    } else {
      var branches := mapped + [TypeSchema("null")];
      assert branches[|mapped|] == TypeSchema("null");
      TypeAccepts(n, defs, "null", JNull);
      AnyOfAccepts(n, defs, branches, JNull);
    }
  }

  /** Whatever one branch accepts, the union's schema accepts. */
  lemma BranchAccepted(n: nat, defs: map<string, Schema>, nonNull: seq<Ty>, mapped: seq<Schema>, nullable: bool, j: nat, v: J)
    requires |mapped| == |nonNull| && j < |mapped|
    requires ValidN(n, defs, mapped[j], v)
    requires nonNull[j].StringLit? ==> v == JStr(nonNull[j].text)
    ensures ValidN(n, defs, ConvertUnion(nonNull, mapped, nullable), v)
  {
    hide ValidN;
    if |nonNull| == 1 && !nullable {
    } else if AllStringLits(nonNull) {
      var vs := LiteralValues(nonNull) + (if nullable then [JNull] else []);
      assert vs[j] == v;
      EnumAccepts(n, defs, vs, v);
    } else if OneCommonType(mapped) {
      NeedsType(n, defs, mapped[j], v);
      NullableTypeAccepts(n, defs, mapped[0].types.name, v);
      TypeAccepts(n, defs, mapped[0].types.name, v);
    } else {
      var branches := mapped + (if nullable then [TypeSchema("null")] else []);
      assert branches[j] == mapped[j];
      AnyOfAccepts(n, defs, branches, v);
    }
  }

  lemma {:induction false} NamedSound(n: nat, w: World, rho: Binding, name: string, args: seq<Ty>, v: J)
    requires SupportedWorld(w) && Defined(rho) && forall i :: 0 <= i < |args| ==> Supported(args[i], false)
    requires InhabitsNamed(n, w, rho, name, args, Some(v))
    ensures ValidN(n, Defs(w), RefSchema(name), v)
    decreases n, args, 0
  {
    hide ValidN;
    DeclDefsFind(w, w.decls, name);
    DeclDefsFind(w, w.decls, "Row");
    RefAccepts(n, Defs(w), name, v);
    match Find(w.decls, name)
    case None =>
      RowAccepts(n - 1, Defs(w), v);
    case Some(d) =>
      FindSupported(w.decls, name);
      var inner := map p | p in d.params :: Bound(n, w, rho, d.params, args, p);
      BoundDefined(n, w, rho, d.params, args);
      assert inner.Keys == ParamSet(d);
      DeclSound(n - 1, w, inner, d, v);
  }

  lemma {:induction false} DeclSound(n: nat, w: World, rho: Binding, d: Decl, v: J)
    requires SupportedWorld(w) && SupportedDecl(d) && Defined(rho) && rho.Keys == ParamSet(d)
    requires InhabitsDecl(n, w, rho, d, Some(v))
    ensures ValidN(n, Defs(w), ConvertDecl(w, d), v)
    decreases n, d
  {
    hide ValidN;
    if d.Interface? {
      MembersSound(n, w, rho, d.members, d.extendsRow, v);
      DescribeAccepts(n, Defs(w), ObjectSchema(Properties(w, rho.Keys, d.members), Required(d.members), d.extendsRow), d.doc, v);
    } else {
      ConvertSound(n, w, rho, d.aliased, false, v);
      DescribeAccepts(n, Defs(w), Convert(w, rho.Keys, d.aliased), d.doc, v);
    }
  }

  /** Schema compilation is sound: inhabitants validate, for every binding of the type parameters. */
  lemma CompilationIsSound(w: World, rho: Binding, t: Ty, mayBeUndefined: bool, v: J)
    requires SupportedWorld(w) && Supported(t, mayBeUndefined) && Defined(rho)
    ensures Inhabits(w, rho, t, v) ==> Validates(Defs(w), Convert(w, rho.Keys, t), v)
  {
    hide ValidN, InhabitsN, Defs, Convert;
    if Inhabits(w, rho, t, v) {
      var n: nat :| InhabitsN(n, w, rho, t, Some(v));
      ConvertSound(n, w, rho, t, mayBeUndefined, v);
    }
  }
}
