/** Where soundness and exactness end: object types outside the supported vocabulary, and collapsed array unions. */
module ContractLimits {
  import opened Options
  import opened Json
  import opened JsonSchema
  import opened ContractTypes
  import opened ContractSchema
  import opened ContractSoundness
  import opened ContractExactness

  // ---------------------------------------------------------------------------------------------
  // When an object type is sound

  /** `undefined` is one of the type's alternatives. */
  predicate HasUndefined(t: Ty)
    decreases t
  {
    match t
    case KUndefined => true
    case Paren(inner) => HasUndefined(inner)
    case Union(parts) => exists i :: 0 <= i < |parts| && HasUndefined(parts[i])
    case _ => false
  }

  /** Every property is of a supported type, `undefined` allowed in its union whether it is optional or not. */
  predicate Typed(members: seq<Member>) {
    forall i :: 0 <= i < |members| && members[i].Property? ==>
      IsUndefined(members[i].ty) || Supported(members[i].ty, true)
  }

  /** The property may be left out. */
  predicate MayMiss(m: Member) {
    m.Property? && (m.optional || HasUndefined(m.ty))
  }

  /** No other declaration of the key insists that it be there. */
  predicate NobodyNeeds(members: seq<Member>, key: string) {
    forall i :: 0 <= i < |members| && members[i].Property? && members[i].key == key ==> MayMiss(members[i])
  }

  /**
   * Nothing is skipped that a closed schema would have to allow, and no key is required that every
   * declaration of it lets be `undefined`.
   */
  predicate Fits(members: seq<Member>, open: bool) {
    && (open || forall i :: 0 <= i < |members| ==> members[i].Property?)
    && forall i :: 0 <= i < |members| && members[i].Property? && !members[i].optional ==> !NobodyNeeds(members, members[i].key)
  }

  ghost predicate IsObject(w: World, rho: Binding, members: seq<Member>, open: bool, v: J) {
    exists n: nat :: InhabitsMembers(n, w, rho, members, open, Some(v))
  }

  ghost predicate Accepted(w: World, rho: Binding, members: seq<Member>, open: bool, v: J) {
    Validates(Defs(w), ObjectSchema(Properties(w, rho.Keys, members), Required(members), open), v)
  }

  lemma {:induction false} DefinedIsSupported(t: Ty)
    requires Supported(t, true) && !HasUndefined(t)
    ensures Supported(t, false)
    decreases t
  {
    match t
    case Paren(inner) => DefinedIsSupported(inner);
    case Union(parts) =>
      forall i | 0 <= i < |parts| ensures Supported(parts[i], false) { DefinedIsSupported(parts[i]); }
    case _ =>
  }

  lemma {:induction false} UndefinedInhabits(n: nat, w: World, rho: Binding, t: Ty)
    requires HasUndefined(t)
    ensures InhabitsN(n, w, rho, t, None)
    decreases t
  {
    match t
    case KUndefined =>
    case Paren(inner) => UndefinedInhabits(n, w, rho, inner);
    case Union(parts) =>
      var i :| 0 <= i < |parts| && HasUndefined(parts[i]);
      UndefinedInhabits(n, w, rho, parts[i]);
  }

  /** A key that some declaration insists on is there. */
  lemma NeededIsThere(n: nat, w: World, rho: Binding, members: seq<Member>, open: bool, v: J, key: string)
    requires SupportedWorld(w) && Typed(members) && Defined(rho)
    requires InhabitsMembers(n, w, rho, members, open, Some(v)) && !NobodyNeeds(members, key)
    ensures key in v.fields
  {
    hide InhabitsN, Supported;
    var i :| 0 <= i < |members| && members[i].Property? && members[i].key == key && !MayMiss(members[i]);
    DefinedIsSupported(members[i].ty);
    NeverUndefined(n, w, rho, members[i].ty);
  }

  lemma PropertyAccepted(n: nat, w: World, rho: Binding, m: Member, v: J)
    requires SupportedWorld(w) && Defined(rho) && m.Property? && (IsUndefined(m.ty) || Supported(m.ty, true))
    requires InhabitsN(n, w, rho, m.ty, Some(v))
    ensures ValidN(n, Defs(w), Describe(Convert(w, rho.Keys, m.ty), m.doc), v)
  {
    hide ValidN, Defs, Convert;
    if !IsUndefined(m.ty) { ConvertSound(n, w, rho, m.ty, true, v); }
    DescribeAccepts(n, Defs(w), Convert(w, rho.Keys, m.ty), m.doc, v);
  }

  lemma FittingIsSound(n: nat, w: World, rho: Binding, members: seq<Member>, open: bool, v: J)
    requires SupportedWorld(w) && Typed(members) && Defined(rho) && Fits(members, open)
    requires InhabitsMembers(n, w, rho, members, open, Some(v))
    ensures ValidN(n, Defs(w), ObjectSchema(Properties(w, rho.Keys, members), Required(members), open), v)
  {
    hide ValidN, InhabitsN, Defs, Supported;
    var props := Properties(w, rho.Keys, members);
    forall k | k in props && k in v.fields ensures ValidN(n, Defs(w), props[k], v.fields[k]) {
      var i := PropertyDeclared(w, rho.Keys, members, k);
      PropertyAccepted(n, w, rho, members[i], v.fields[k]);
    }
    RequiredKeys(members);
    forall k | k in Required(members) ensures k in v.fields {
      NeededIsThere(n, w, rho, members, open, v, k);
    }
    forall k | k in v.fields && !open ensures k in props {
      var i := PropertyDeclared(w, rho.Keys, members, k);
    }
    ObjectAccepts(n, Defs(w), props, Required(members), open, v);
  }

  /** A value of a type that does not fit, changed in one key, is a value of the type that the schema refuses. */
  lemma MisfitRefused(n: nat, w: World, rho: Binding, members: seq<Member>, open: bool, v: J) returns (u: J)
    requires InhabitsMembers(n, w, rho, members, open, Some(v)) && !Fits(members, open)
    ensures InhabitsMembers(n, w, rho, members, open, Some(u)) && !Accepted(w, rho, members, open, u)
  {
    hide InhabitsN, Defs, Accepted, HasUndefined;
    if open || forall i :: 0 <= i < |members| ==> members[i].Property? {
      var i :| 0 <= i < |members| && members[i].Property? && !members[i].optional && NobodyNeeds(members, members[i].key);
      u := JObj(map k | k in v.fields && k != members[i].key :: v.fields[k]);
      KeyDropped(n, w, rho, members, open, v, members[i].key, u);
      RequiredKeys(members);
      Refused(w, rho, members, open, u, members[i].key);
    } else {
      var key := FreshKey(members, v.fields.Keys);
      u := JObj(v.fields[key := JNull]);
      KeyAdded(n, w, rho, members, v, key, u);
      var i := PropertyDeclared(w, rho.Keys, members, key);
      Refused(w, rho, members, open, u, key);
    }
  }

  lemma KeyDropped(n: nat, w: World, rho: Binding, members: seq<Member>, open: bool, v: J, key: string, u: J)
    requires InhabitsMembers(n, w, rho, members, open, Some(v)) && NobodyNeeds(members, key)
    requires u == JObj(map k | k in v.fields && k != key :: v.fields[k])
    ensures InhabitsMembers(n, w, rho, members, open, Some(u))
  {
    hide InhabitsN, HasUndefined;
    forall i | 0 <= i < |members| && members[i].Property?
      ensures InhabitsN(n, w, rho, members[i].ty, FieldOf(u.fields, members[i].key))
        || (members[i].optional && members[i].key !in u.fields)
    {
      if members[i].key == key {
        assert MayMiss(members[i]);
        if HasUndefined(members[i].ty) { UndefinedInhabits(n, w, rho, members[i].ty); }
      } else {
        assert FieldOf(u.fields, members[i].key) == FieldOf(v.fields, members[i].key);
      }
    }
  }

  lemma KeyAdded(n: nat, w: World, rho: Binding, members: seq<Member>, v: J, key: string, u: J)
    requires InhabitsMembers(n, w, rho, members, false, Some(v))
    requires exists i :: 0 <= i < |members| && !members[i].Property?
    requires forall i :: 0 <= i < |members| && members[i].Property? ==> members[i].key != key
    requires u == JObj(v.fields[key := JNull])
    ensures InhabitsMembers(n, w, rho, members, false, Some(u))
  {
    hide InhabitsN;
    forall i | 0 <= i < |members| && members[i].Property?
      ensures InhabitsN(n, w, rho, members[i].ty, FieldOf(u.fields, members[i].key))
        || (members[i].optional && members[i].key !in u.fields)
    {
      assert FieldOf(u.fields, members[i].key) == FieldOf(v.fields, members[i].key);
    }
  }

  /** A required key is missing, or a closed schema does not know the key. */
  lemma Refused(w: World, rho: Binding, members: seq<Member>, open: bool, u: J, key: string)
    requires u.JObj?
    requires (key in Required(members) && key !in u.fields)
      || (!open && key in u.fields && key !in Properties(w, rho.Keys, members))
    ensures !Accepted(w, rho, members, open, u)
  {
    hide ValidN, Defs, Properties, Required;
    forall n: nat
      ensures !ValidN(n, Defs(w), ObjectSchema(Properties(w, rho.Keys, members), Required(members), open), u)
    {
      ObjectAccepts(n, Defs(w), Properties(w, rho.Keys, members), Required(members), open, u);
    }
  }

  lemma {:induction false} FreshKey(members: seq<Member>, taken: set<string>) returns (key: string)
    ensures key !in taken && forall i :: 0 <= i < |members| && members[i].Property? ==> members[i].key != key
    decreases |members|
  {
    if members == [] {
      key := Unused(taken);
    } else {
      var m := members[|members| - 1];
      key := FreshKey(members[..|members| - 1], if m.Property? then taken + {m.key} else taken);
    }
  }

  lemma {:induction false} Unused(taken: set<string>) returns (key: string)
    ensures key !in taken && forall k :: k in taken ==> |k| < |key|
    decreases taken
  {
    if taken == {} {
      key := "x";
    } else {
      var k :| k in taken;
      var shorter := Unused(taken - {k});
      key := if |k| < |shorter| then shorter else k + "x";
    }
  }

  /**
   * An object type with supported property types is compiled soundly if and only if it fits or has no
   * values at all.
   */
  lemma ObjectSoundIffFits(w: World, rho: Binding, members: seq<Member>, open: bool)
    requires SupportedWorld(w) && Typed(members) && Defined(rho)
    ensures (forall v :: IsObject(w, rho, members, open, v) ==> Accepted(w, rho, members, open, v)) <==>
      Fits(members, open) || !exists v :: IsObject(w, rho, members, open, v)
  {
    hide ValidN, InhabitsN, InhabitsMembers, Defs, Supported, Fits;
    if Fits(members, open) {
      forall v | IsObject(w, rho, members, open, v) ensures Accepted(w, rho, members, open, v) {
        var n: nat :| InhabitsMembers(n, w, rho, members, open, Some(v));
        FittingIsSound(n, w, rho, members, open, v);
      }
    } else if v :| IsObject(w, rho, members, open, v) {
      var n: nat :| InhabitsMembers(n, w, rho, members, open, Some(v));
      var u := MisfitRefused(n, w, rho, members, open, v);
      assert IsObject(w, rho, members, open, u);
    }
  }

  /** An optional-looking `T | undefined` on a required property: `{}` is a value, the schema refuses it. */
  lemma RequiredUndefinedIsUnsound()
    ensures
      var t := ObjectLit([Property("a", Union([KString, KUndefined]), false, "")]);
      var w := World(map[], map[], []);
      && !Fits(t.members, false)
      && Inhabits(w, map[], t, JObj(map[])) && !Validates(Defs(w), Convert(w, {}, t), JObj(map[]))
  {
    hide ValidN, InhabitsN;
    var members := [Property("a", Union([KString, KUndefined]), false, "")];
    var w := World(map[], map[], []);
    var v := JObj(map[]);
    AbsentInhabits(w, members, v);
    assert HasUndefined(members[0].ty.parts[1]);
    assert NobodyNeeds(members, members[0].key);
    forall n: nat ensures !ValidN(n, Defs(w), Convert(w, {}, ObjectLit(members)), v) {
      AbsentRejected(n, w, members, v);
    }
  }

  lemma AbsentInhabits(w: World, members: seq<Member>, v: J)
    requires members == [Property("a", Union([KString, KUndefined]), false, "")] && v == JObj(map[])
    ensures InhabitsN(0, w, map[], ObjectLit(members), Some(v))
  {
    var none: Binding := map[];
    assert InhabitsN(0, w, none, members[0].ty.parts[1], None);
    assert InhabitsN(0, w, none, members[0].ty, None);
    assert InhabitsMembers(0, w, none, members, false, Some(v));
  }

  lemma AbsentRejected(n: nat, w: World, members: seq<Member>, v: J)
    requires members == [Property("a", Union([KString, KUndefined]), false, "")] && v == JObj(map[])
    ensures !ValidN(n, Defs(w), Convert(w, {}, ObjectLit(members)), v)
  {
    hide ValidN, Defs, Properties;
    assert members[..0] == [];
    assert "a" in Required(members);
    ObjectAccepts(n, Defs(w), Properties(w, {}, members), Required(members), false, v);
  }

  /** Index signatures are skipped, so a closed schema refuses the keys they allow. */
  lemma IndexSignatureIsUnsound()
    ensures
      var t := ObjectLit([IndexSignature("[k: string]: unknown")]);
      var w := World(map[], map[], []);
      var v := JObj(map["k" := JNull]);
      !Fits(t.members, false) && Inhabits(w, map[], t, v) && !Validates(Defs(w), Convert(w, {}, t), v)
  {
    var members := [IndexSignature("[k: string]: unknown")];
    var w := World(map[], map[], []);
    var v := JObj(map["k" := JNull]);
    var none: Binding := map[];
    assert !members[0].Property?;
    assert InhabitsN(0, w, none, ObjectLit(members), Some(v));
    assert members[..0] == [];
    assert "k" in v.fields && "k" !in Properties(w, {}, members);
    forall n: nat ensures !ValidN(n, Defs(w), Convert(w, {}, ObjectLit(members)), v) {
      ObjectAccepts(n, Defs(w), Properties(w, {}, members), Required(members), false, v);
    }
  }

  // ---------------------------------------------------------------------------------------------
  // When a union of array types is widened

  /** Array types, at least one, and `null` or not, that collapse to a bare `array`. */
  predicate ArrayUnion(parts: seq<Ty>) {
    && (forall i :: 0 <= i < |parts| ==> IsNull(parts[i]) || parts[i].ArrayOf?)
    && NonNull(parts) != [] && (|NonNull(parts)| > 1 || Nullable(parts))
  }

  /** The elements are supported and exact with all they reach. */
  ghost predicate ExactElements(w: World, names: set<string>, parts: seq<Ty>) {
    && SupportedWorld(w) && ExactOn(w, names)
    && forall i :: 0 <= i < |parts| && parts[i].ArrayOf? ==>
         && Supported(parts[i].elem, false) && Exact(w, parts[i].elem)
         && Referenced(w, {}, parts[i].elem) <= names
  }

  /** Every JSON value is of the type. */
  ghost predicate Universal(w: World, t: Ty) {
    forall v :: Inhabits(w, map[], t, v)
  }

  lemma CollapsedIs(w: World, parts: seq<Ty>)
    requires ArrayUnion(parts)
    ensures Convert(w, {}, Union(parts)) == if Nullable(parts) then EMPTY.(types := TypeOrNull("array")) else TypeSchema("array")
  {
    hide ConvertParts, NonNull, Nullable;
    var mapped := ConvertParts(w, {}, parts);
    forall j | 0 <= j < |mapped| ensures mapped[j].types == OneType("array") && !NonNull(parts)[j].StringLit? {
      var i := PartMapped(w, {}, parts, j);
      assert parts[i].ArrayOf?;
    }
    assert mapped[0].types == OneType("array") && !NonNull(parts)[0].StringLit?;
    CollapsedForm(NonNull(parts), mapped, Nullable(parts));
  }

  lemma CollapsedForm(nonNull: seq<Ty>, mapped: seq<Schema>, nullable: bool)
    requires |mapped| == |nonNull| > 0 && (|nonNull| > 1 || nullable) && !nonNull[0].StringLit?
    requires forall j :: 0 <= j < |mapped| ==> mapped[j].types == OneType("array")
    ensures ConvertUnion(nonNull, mapped, nullable) == if nullable then EMPTY.(types := TypeOrNull("array")) else TypeSchema("array")
  {
  }

  lemma CollapsedAccepts(w: World, parts: seq<Ty>, v: J)
    requires ArrayUnion(parts)
    ensures Validates(Defs(w), Convert(w, {}, Union(parts)), v) <==> v.JArr? || (v.JNull? && Nullable(parts))
  {
    hide ValidN, Defs, Convert, Nullable, NonNull;
    CollapsedIs(w, parts);
    forall n: nat
      ensures ValidN(n, Defs(w), Convert(w, {}, Union(parts)), v) <==> v.JArr? || (v.JNull? && Nullable(parts))
    {
      TypeAccepts(n, Defs(w), "array", v);
      NullableTypeAccepts(n, Defs(w), "array", v);
    }
    assert ValidN(0, Defs(w), Convert(w, {}, Union(parts)), v) ==> Validates(Defs(w), Convert(w, {}, Union(parts)), v);
  }

  /** Finitely many values of an exact type are values of it within one bound. */
  lemma {:induction false} CommonBound(w: World, names: set<string>, t: Ty, items: seq<J>) returns (n: nat)
    requires SupportedWorld(w) && Supported(t, false)
    requires ExactOn(w, names) && Referenced(w, {}, t) <= names && Exact(w, t)
    requires forall i :: 0 <= i < |items| ==> Inhabits(w, map[], t, items[i])
    ensures forall i :: 0 <= i < |items| ==> InhabitsN(n, w, map[], t, Some(items[i]))
    decreases |items|
  {
    hide ValidN, InhabitsN, Defs, Convert;
    if items == [] {
      n := 0;
    } else {
      var front, last := items[..|items| - 1], items[|items| - 1];
      var m := CommonBound(w, names, t, front);
      var k: nat :| InhabitsN(k, w, map[], t, Some(last));
      n := if m < k then k else m;
      forall i | 0 <= i < |items| ensures InhabitsN(n, w, map[], t, Some(items[i])) {
        if i < |items| - 1 {
          assert items[i] == front[i];
          InhabitsMore(w, names, t, items[i], m, n);
        } else {
          InhabitsMore(w, names, t, items[i], k, n);
        }
      }
    }
  }

  lemma InhabitsMore(w: World, names: set<string>, t: Ty, v: J, m: nat, n: nat)
    requires SupportedWorld(w) && Supported(t, false)
    requires ExactOn(w, names) && Referenced(w, {}, t) <= names && Exact(w, t)
    requires m <= n && InhabitsN(m, w, map[], t, Some(v))
    ensures InhabitsN(n, w, map[], t, Some(v))
  {
    hide ValidN, InhabitsN, Defs, Convert;
    var none: Binding := map[];
    assert none.Keys == {};
    ConvertSound(m, w, none, t, false, v);
    ValidMore(m, n, Defs(w), Convert(w, {}, t), v);
    ConvertExact(n, w, names, t, v);
  }

  /** An array that is of none of the array types: for each, one value its elements do not include. */
  lemma {:induction false} OutsideAll(w: World, parts: seq<Ty>) returns (items: seq<J>)
    requires forall i :: 0 <= i < |parts| && parts[i].ArrayOf? ==> !Universal(w, parts[i].elem)
    ensures forall i :: 0 <= i < |parts| && parts[i].ArrayOf? ==> exists v :: v in items && !Inhabits(w, map[], parts[i].elem, v)
    decreases |parts|
  {
    hide Inhabits;
    items := [];
    if parts != [] {
      var front, last := parts[..|parts| - 1], parts[|parts| - 1];
      assert forall i :: 0 <= i < |front| ==> front[i] == parts[i];
      items := OutsideAll(w, front);
      if last.ArrayOf? {
        assert !Universal(w, last.elem);
        var v :| !Inhabits(w, map[], last.elem, v);
        ghost var before := items;
        items := items + [v];
        assert items[|before|] == v;
        forall i | 0 <= i < |parts| && parts[i].ArrayOf?
          ensures exists u :: u in items && !Inhabits(w, map[], parts[i].elem, u)
        {
          if i < |front| {
            assert front[i].ArrayOf?;
            var u :| u in before && !Inhabits(w, map[], front[i].elem, u);
            assert u in items;
          }
        }
      } else {
        forall i | 0 <= i < |parts| && parts[i].ArrayOf?
          ensures exists u :: u in items && !Inhabits(w, map[], parts[i].elem, u)
        {
          assert front[i].ArrayOf?;
        }
      }
    }
  }

  lemma OutsideIsRefused(w: World, parts: seq<Ty>, items: seq<J>)
    requires forall i :: 0 <= i < |parts| ==> IsNull(parts[i]) || parts[i].ArrayOf?
    requires forall i :: 0 <= i < |parts| && parts[i].ArrayOf? ==> exists v :: v in items && !Inhabits(w, map[], parts[i].elem, v)
    ensures !Inhabits(w, map[], Union(parts), JArr(items))
  {
    var none: Binding := map[];
    forall n: nat ensures !InhabitsN(n, w, none, Union(parts), Some(JArr(items))) {
      forall i | 0 <= i < |parts| ensures !InhabitsN(n, w, none, parts[i], Some(JArr(items))) {
        if parts[i].ArrayOf? {
          var v :| v in items && !Inhabits(w, map[], parts[i].elem, v);
          var k :| 0 <= k < |items| && items[k] == v;
          assert !InhabitsN(n, w, none, parts[i].elem, Some(items[k]));
        }
      }
    }
  }

  lemma UniversalCovers(w: World, names: set<string>, parts: seq<Ty>, i: nat, items: seq<J>)
    requires ExactElements(w, names, parts) && i < |parts| && parts[i].ArrayOf? && Universal(w, parts[i].elem)
    ensures Inhabits(w, map[], Union(parts), JArr(items))
  {
    hide Inhabits;
    var n := CommonBound(w, names, parts[i].elem, items);
    ArrayInhabits(n, w, parts, i, items);
  }

  lemma ArrayInhabits(n: nat, w: World, parts: seq<Ty>, i: nat, items: seq<J>)
    requires i < |parts| && parts[i].ArrayOf?
    requires forall k :: 0 <= k < |items| ==> InhabitsN(n, w, map[], parts[i].elem, Some(items[k]))
    ensures Inhabits(w, map[], Union(parts), JArr(items))
  {
    var none: Binding := map[];
    assert InhabitsN(n, w, none, parts[i], Some(JArr(items)));
    assert InhabitsN(n, w, none, Union(parts), Some(JArr(items)));
  }

  lemma OnlyArrays(w: World, parts: seq<Ty>, v: J)
    requires forall i :: 0 <= i < |parts| ==> IsNull(parts[i]) || parts[i].ArrayOf?
    ensures Inhabits(w, map[], Union(parts), v) ==> v.JArr? || (v.JNull? && Nullable(parts))
    ensures v.JNull? && Nullable(parts) ==> Inhabits(w, map[], Union(parts), v)
  {
    var none: Binding := map[];
    if n: nat :| InhabitsN(n, w, none, Union(parts), Some(v)) {
      var i :| 0 <= i < |parts| && InhabitsN(n, w, none, parts[i], Some(v));
    }
    if v.JNull? && Nullable(parts) {
      var i :| 0 <= i < |parts| && IsNull(parts[i]);
      assert InhabitsN(0, w, none, parts[i], Some(v));
      assert InhabitsN(0, w, none, Union(parts), Some(v));
    }
  }

  /** A collapsed union of array types is exact if and only if one of them has elements of any kind. */
  lemma ArrayUnionExactIffUniversal(w: World, names: set<string>, parts: seq<Ty>)
    requires ArrayUnion(parts) && ExactElements(w, names, parts)
    ensures (forall v :: Validates(Defs(w), Convert(w, {}, Union(parts)), v) <==> Inhabits(w, map[], Union(parts), v)) <==>
      exists i :: 0 <= i < |parts| && parts[i].ArrayOf? && Universal(w, parts[i].elem)
  {
    hide Validates, Inhabits, Defs, Convert, ExactElements, Universal, NonNull;
    forall v
      ensures Validates(Defs(w), Convert(w, {}, Union(parts)), v) <==> v.JArr? || (v.JNull? && Nullable(parts))
      ensures Inhabits(w, map[], Union(parts), v) ==> v.JArr? || (v.JNull? && Nullable(parts))
      ensures v.JNull? && Nullable(parts) ==> Inhabits(w, map[], Union(parts), v)
    {
      CollapsedAccepts(w, parts, v);
      OnlyArrays(w, parts, v);
    }
    if i :| 0 <= i < |parts| && parts[i].ArrayOf? && Universal(w, parts[i].elem) {
      forall v: J | v.JArr? ensures Inhabits(w, map[], Union(parts), v) {
        UniversalCovers(w, names, parts, i, v.items);
      }
    } else {
      var items := OutsideAll(w, parts);
      OutsideIsRefused(w, parts, items);
      assert Validates(Defs(w), Convert(w, {}, Union(parts)), JArr(items));
    }
  }

  /** A union of two array types collapses to a bare `array`, which accepts arrays of anything. */
  lemma CollapsedArraysAreWidened()
    ensures
      var t := Union([ArrayOf(KString), ArrayOf(KNumber)]);
      var w := World(map[], map[], []);
      var v := JArr([JNull]);
      Validates(Defs(w), Convert(w, {}, t), v) && !Inhabits(w, map[], t, v)
  {
    hide ValidN, InhabitsN;
    var parts := [ArrayOf(KString), ArrayOf(KNumber)];
    var w := World(map[], map[], []);
    var v := JArr([JNull]);
    CollapsedArrays(w, parts);
    TypeAccepts(0, Defs(w), "array", v);
    forall n: nat ensures !InhabitsN(n, w, map[], Union(parts), Some(v)) {
      NullIsNoElement(n, w, parts, v);
    }
  }

  lemma PartsAppend(w: World, ps: seq<Ty>, p: Ty)
    requires !IsNull(p) && !IsUndefined(p)
    ensures ConvertParts(w, {}, ps + [p]) == ConvertParts(w, {}, ps) + [Convert(w, {}, p)]
    ensures NonNull(ps + [p]) == NonNull(ps) + [p]
  {
    assert (ps + [p])[..|ps|] == ps;
  }

  lemma CollapsedArrays(w: World, parts: seq<Ty>)
    requires parts == [ArrayOf(KString), ArrayOf(KNumber)]
    ensures Convert(w, {}, Union(parts)) == TypeSchema("array")
  {
    hide ConvertParts, NonNull;
    PartsAppend(w, [], parts[0]);
    PartsAppend(w, [parts[0]], parts[1]);
    assert [] + [parts[0]] == [parts[0]] && parts == [parts[0]] + [parts[1]];
    EmptyParts(w);
    assert NonNull(parts) == parts && !parts[0].StringLit?;
  }

  lemma EmptyParts(w: World)
    ensures ConvertParts(w, {}, []) == [] && NonNull([]) == []
  {
  }

  lemma NullIsNoElement(n: nat, w: World, parts: seq<Ty>, v: J)
    requires parts == [ArrayOf(KString), ArrayOf(KNumber)] && v == JArr([JNull])
    ensures !InhabitsN(n, w, map[], Union(parts), Some(v))
  {
    var none: Binding := map[];
    forall i | 0 <= i < |parts| ensures !InhabitsN(n, w, none, parts[i], Some(v)) {
      assert !InhabitsN(n, w, none, parts[i].elem, Some(v.items[0]));
    }
  }
}
