/**
 * The TypeScript type vocabulary of the broker contract, and which JSON values inhabit a type.
 * `None` stands for `undefined`, which has no JSON form: a property holding it is absent.
 */
module ContractTypes {
  import opened Options
  import opened Json

  datatype Ty =
    | KString | KNumber | KBoolean | KUnknown | KAny | KNull | KUndefined
    | Paren(inner: Ty)
    | Typeof(name: string)                  // typeof CONST
    | Indexed(target: Ty)                   // (typeof ARR)[number]
    | StringLit(text: string)
    | NumberLit(value: real)
    | NullLit
    | OtherLit(literal: J)                  // any literal the converter does not map, e.g. `true`
    | ArrayOf(elem: Ty)
    | ObjectLit(members: seq<Member>)
    | Union(parts: seq<Ty>)
    | Ref(refName: string, args: seq<Ty>)
    | Unhandled(text: string)               // any other node kind

  /** A property signature, or a member the converter skips (here: an index signature). */
  datatype Member =
    | Property(key: string, ty: Ty, optional: bool, doc: string)
    | IndexSignature(indexText: string)

  datatype Decl =
    | Interface(name: string, params: seq<string>, extendsRow: bool, members: seq<Member>, doc: string)
    | Alias(name: string, params: seq<string>, aliased: Ty, doc: string)

  /** The collected constants and the declarations, in file order. */
  datatype World = World(
    constStrings: map<string, string>,
    enumArrays: map<string, seq<string>>,
    decls: seq<Decl>)

  predicate IsNull(t: Ty) { t.NullLit? || t.KNull? }

  predicate IsUndefined(t: Ty) { t.KUndefined? }

  /** One parenthesis is looked through. */
  function Unwrapped(t: Ty): Ty {
    if t.Paren? then t.inner else t
  }

  /** The last declaration of a name, as a later one replaces an earlier. */
  function Find(decls: seq<Decl>, name: string): Option<Decl> {
    if decls == [] then None
    else if decls[|decls| - 1].name == name then Some(decls[|decls| - 1])
    else Find(decls[..|decls| - 1], name)
  }

  /** What each type parameter in scope stands for. */
  type Binding = map<string, iset<Option<J>>>

  /**
   * `v` inhabits `t` when at most `n` named types are unfolded one inside the other. Every string
   * inhabits `Date`; a type the generator cannot see into is inhabited by every JSON value; an object
   * type is closed unless it is open by declaration.
   */
  ghost predicate InhabitsN(n: nat, w: World, rho: Binding, t: Ty, v: Option<J>)
    decreases n, t
  {
    match t
    case KString => v.Some? && v.value.JStr?
    case KNumber => v.Some? && v.value.JNum?
    case KBoolean => v.Some? && v.value.JBool?
    case KUnknown => v.Some?
    case KAny => v.Some?
    case KNull => v == Some(JNull)
    case KUndefined => v == None
    case Paren(inner) => InhabitsN(n, w, rho, inner, v)
    case Typeof(name) => v.Some? && (name in w.constStrings ==> v.value == JStr(w.constStrings[name]))
    case Indexed(target) =>
      && v.Some?
      && (Unwrapped(target).Typeof? && Unwrapped(target).name in w.enumArrays ==>
            v.value.JStr? && v.value.s in w.enumArrays[Unwrapped(target).name])
    case StringLit(text) => v == Some(JStr(text))
    case NumberLit(value) => v == Some(JNum(value))
    case NullLit => v == Some(JNull)
    case OtherLit(literal) => v == Some(literal)
    case ArrayOf(elem) => 
      v.Some? && v.value.JArr? && forall i :: 0 <= i < |v.value.items| ==> InhabitsN(n, w, rho, elem, Some(v.value.items[i]))
    case ObjectLit(members) => InhabitsMembers(n, w, rho, members, false, v)
    case Union(parts) => exists i :: 0 <= i < |parts| && InhabitsN(n, w, rho, parts[i], v)
    case Ref(name, args) =>
      if name in rho then v in rho[name]
      else if name == "Array" && args != [] then
        v.Some? && v.value.JArr? && forall i :: 0 <= i < |v.value.items| ==> InhabitsN(n, w, rho, args[0], Some(v.value.items[i]))
      else if name == "Record" then
        && v.Some? && v.value.JObj?
        && (|args| >= 2 ==> forall k :: k in v.value.fields ==> InhabitsN(n, w, rho, args[1], Some(v.value.fields[k])))
      else if name == "Date" then v.Some? && v.value.JStr?
      else InhabitsNamed(n, w, rho, name, args, v)
    case Unhandled(_) => v.Some?
  }

  /** A declared type, its parameters bound to the arguments; a missing argument may be anything. */
  ghost predicate InhabitsNamed(n: nat, w: World, rho: Binding, name: string, args: seq<Ty>, v: Option<J>)
    decreases n, args, 1
  {
    n > 0 &&
    match Find(w.decls, name)
    case None => name == "Row" && v.Some? && v.value.JObj?
    case Some(d) => InhabitsDecl(n - 1, w, map p | p in d.params :: Bound(n, w, rho, d.params, args, p), d, v)
  }

  ghost function Bound(n: nat, w: World, rho: Binding, params: seq<string>, args: seq<Ty>, p: string): iset<Option<J>>
    decreases n, args, 0
  {
    iset u: Option<J> | exists i ::
      0 <= i < |params| && params[i] == p && (if i < |args| then InhabitsN(n, w, rho, args[i], u) else u.Some?)
  }

  ghost predicate InhabitsDecl(n: nat, w: World, rho: Binding, d: Decl, v: Option<J>)
    decreases n, d
  {
    match d
    case Interface(_, _, extendsRow, members, _) => InhabitsMembers(n, w, rho, members, extendsRow, v)
    case Alias(_, _, aliased, _) => InhabitsN(n, w, rho, aliased, v)
  }

  ghost predicate InhabitsMembers(n: nat, w: World, rho: Binding, members: seq<Member>, open: bool, v: Option<J>)
    decreases n, members
  {
    && v.Some? && v.value.JObj?
    && (forall i :: 0 <= i < |members| && members[i].Property? ==>
          || InhabitsN(n, w, rho, members[i].ty, FieldOf(v.value.fields, members[i].key))
          || (members[i].optional && members[i].key !in v.value.fields))
    && (!open && (forall i :: 0 <= i < |members| ==> members[i].Property?) ==>
          forall k :: k in v.value.fields ==> exists i :: 0 <= i < |members| && members[i].Property? && members[i].key == k)
  }

  /** `v` is a JSON value of type `t`. */
  ghost predicate Inhabits(w: World, rho: Binding, t: Ty, v: J) {
    exists n: nat :: InhabitsN(n, w, rho, t, Some(v))
  }
}
