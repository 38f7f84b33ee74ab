/** Which names the converter records and which nodes it flags, told by the nodes it comes to. */
module ContractBookkeeping {
  import opened Options
  import opened Json
  import opened JsonSchema
  import opened ContractTypes
  import opened ContractSchema

  /** A node of a type, and the dotted path of the property it sits under. */
  datatype Node = Node(where: string, ty: Ty)

  /** Every node the converter comes to, each once and from the outside in. */
  function Visited(params: set<string>, where: string, t: Ty): seq<Node>
    decreases t, 1
  {
    [Node(where, t)] + Inside(params, where, t)
  }

  function Inside(params: set<string>, where: string, t: Ty): seq<Node>
    decreases t, 0
  {
    match t
    case Paren(inner) => Visited(params, where, inner)
    case ArrayOf(elem) => Visited(params, where, elem)
    case ObjectLit(members) => VisitedMembers(params, where, members)
    case Union(parts) => VisitedParts(params, where, parts)
    case Ref(name, args) =>
      if name in params then []
      else if name == "Array" && |args| >= 1 then Visited(params, where, args[0])
      else if name == "Record" && |args| >= 2 then Visited(params, where, args[1])
      else []
    case _ => []
  }

  /** A union's branches, `null` and `undefined` left out. */
  function VisitedParts(params: set<string>, where: string, parts: seq<Ty>): seq<Node>
    decreases parts
  {
    if parts == [] then []
    else
      var last := parts[|parts| - 1];
      VisitedParts(params, where, parts[..|parts| - 1])
      + if last == NullLit || last == KNull || last == KUndefined then [] else Visited(params, where, last)
  }

  function VisitedMembers(params: set<string>, where: string, members: seq<Member>): seq<Node>
    decreases members
  {
    if members == [] then []
    else
      var m := members[|members| - 1];
      VisitedMembers(params, where, members[..|members| - 1])
      + if m.Property? then Visited(params, where + "." + m.key, m.ty) else []
  }

  /** The node refers to the type `name`, which the contract has to define: no parameter in scope, nothing built in. */
  predicate RefersTo(params: set<string>, t: Ty, name: string) {
    && t.Ref? && t.refName == name && name !in params
    && name != "Date" && name != "Record" && (name == "Array" ==> t.args == [])
  }

  /** `undefined` outside a union, an unknown kind of node, or a constant that was not collected. */
  predicate CannotMap(w: World, t: Ty) {
    || t == KUndefined
    || t.Unhandled?
    || (t.Typeof? && t.name !in w.constStrings)
    || (t.Indexed? && !ArrayConstant(w, t.target) && !(t.target.Paren? && ArrayConstant(w, t.target.inner)))
  }

  predicate ArrayConstant(w: World, t: Ty) {
    t.Typeof? && t.name in w.enumArrays
  }

  /** One flag for each unmapped node, in the order they are come to. */
  function FlagsFor(w: World, nodes: seq<Node>): seq<Flag> {
    if nodes == [] then []
    else
      var n := nodes[|nodes| - 1];
      FlagsFor(w, nodes[..|nodes| - 1]) + if CannotMap(w, n.ty) then [UnhandledNode(n.where, n.ty)] else []
  }

  lemma {:induction false} FlagsForJoin(w: World, a: seq<Node>, b: seq<Node>)
    ensures FlagsFor(w, a + b) == FlagsFor(w, a) + FlagsFor(w, b)
    decreases |b|
  {
    if b == [] {
      assert a + b == a;
    } else {
      assert (a + b)[..|a + b| - 1] == a + b[..|b| - 1];
      FlagsForJoin(w, a, b[..|b| - 1]);
    }
  }

  lemma FlagsForOne(w: World, n: Node, rest: seq<Node>)
    ensures FlagsFor(w, [n] + rest) == (if CannotMap(w, n.ty) then [UnhandledNode(n.where, n.ty)] else []) + FlagsFor(w, rest)
  {
    FlagsForJoin(w, [n], rest);
    assert [n][..0] == [];
  }

  /** The flags are one for each visited node that cannot be mapped, with the path to it. */
  lemma {:induction false} FlaggedExactly(w: World, params: set<string>, where: string, t: Ty)
    ensures Flags(w, params, where, t) == FlagsFor(w, Visited(params, where, t))
    decreases t, 2
  {
    FlagsForOne(w, Node(where, t), Inside(params, where, t));
    FlaggedInside(w, params, where, t);
    hide FlagsFor, Inside, Flags;
  }

  predicate HasInside(t: Ty) {
    t.Paren? || t.ArrayOf? || t.ObjectLit? || t.Union? || t.Ref?
  }

  lemma OwnFlag(w: World, params: set<string>, where: string, t: Ty)
    ensures HasInside(t) ==> !CannotMap(w, t)
    ensures !HasInside(t) ==> Inside(params, where, t) == []
    ensures !HasInside(t) ==> Flags(w, params, where, t) == if CannotMap(w, t) then [UnhandledNode(where, t)] else []
  {
  }

  lemma {:induction false} FlaggedInside(w: World, params: set<string>, where: string, t: Ty)
    ensures Flags(w, params, where, t)
         == (if CannotMap(w, t) then [UnhandledNode(where, t)] else []) + FlagsFor(w, Inside(params, where, t))
    decreases t, 1
  {
    assert FlagsFor(w, []) == [];
    OwnFlag(w, params, where, t);
    hide FlagsFor, Visited, CannotMap;
    if HasInside(t) {
      InsideFlags(w, params, where, t);
      assert [] + FlagsFor(w, Inside(params, where, t)) == FlagsFor(w, Inside(params, where, t));
    }
    hide *;
  }

  lemma {:induction false} InsideFlags(w: World, params: set<string>, where: string, t: Ty)
    requires HasInside(t)
    ensures Flags(w, params, where, t) == FlagsFor(w, Inside(params, where, t))
    decreases t, 0
  {
    assert FlagsFor(w, []) == [];
    hide FlagsFor, Visited, VisitedParts, VisitedMembers, FlagsParts, FlagsMembers, CannotMap;
    match t
    case Paren(inner) => FlaggedExactly(w, params, where, inner);
    case ArrayOf(elem) => FlaggedExactly(w, params, where, elem);
    case ObjectLit(members) => MembersFlagged(w, params, where, members);
    case Union(parts) => PartsFlagged(w, params, where, parts);
    case Ref(name, args) =>
      if name !in params && name == "Array" && |args| >= 1 { FlaggedExactly(w, params, where, args[0]); }
      if name !in params && name == "Record" && |args| >= 2 { FlaggedExactly(w, params, where, args[1]); }
  }

  lemma {:induction false} PartsFlagged(w: World, params: set<string>, where: string, parts: seq<Ty>)
    ensures FlagsParts(w, params, where, parts) == FlagsFor(w, VisitedParts(params, where, parts))
    decreases parts
  {
    assert FlagsFor(w, []) == [];
    hide Visited, FlagsFor, NamedIn, Flags, Referenced;
    if parts != [] {
      var front, last := parts[..|parts| - 1], parts[|parts| - 1];
      assert VisitedParts(params, where, front) + [] == VisitedParts(params, where, front);
      PartsFlagged(w, params, where, front);
      FlaggedExactly(w, params, where, last);
      FlagsForJoin(w, VisitedParts(params, where, front), Visited(params, where, last));
    }
  }

  lemma {:induction false} MembersFlagged(w: World, params: set<string>, where: string, members: seq<Member>)
    ensures FlagsMembers(w, params, where, members) == FlagsFor(w, VisitedMembers(params, where, members))
    decreases members
  {
    assert FlagsFor(w, []) == [];
    hide Visited, FlagsFor, NamedIn, Flags, Referenced;
    if members != [] {
      var front, m := members[..|members| - 1], members[|members| - 1];
      assert VisitedMembers(params, where, front) + [] == VisitedMembers(params, where, front);
      MembersFlagged(w, params, where, front);
      if m.Property? {
        FlaggedExactly(w, params, where + "." + m.key, m.ty);
        FlagsForJoin(w, VisitedMembers(params, where, front), Visited(params, where + "." + m.key, m.ty));
      }
    }
  }

  /** A name is recorded exactly if some visited node names it. */
  ghost predicate NamedIn(nodes: seq<Node>, params: set<string>, name: string) {
    exists i :: 0 <= i < |nodes| && RefersTo(params, nodes[i].ty, name)
  }

  lemma NamedJoin(a: seq<Node>, b: seq<Node>, params: set<string>, name: string)
    ensures NamedIn(a + b, params, name) <==> NamedIn(a, params, name) || NamedIn(b, params, name)
  {
    hide RefersTo;
    if NamedIn(a, params, name) {
      var i :| 0 <= i < |a| && RefersTo(params, a[i].ty, name);
      assert (a + b)[i] == a[i];
    }
    if NamedIn(b, params, name) {
      var i :| 0 <= i < |b| && RefersTo(params, b[i].ty, name);
      assert (a + b)[|a| + i] == b[i];
    }
  }

  lemma NamedOne(n: Node, params: set<string>, name: string)
    ensures NamedIn([n], params, name) <==> RefersTo(params, n.ty, name)
  {
    hide RefersTo;
    assert [n][0] == n;
  }

  lemma {:induction false} RecordedExactly(w: World, params: set<string>, where: string, t: Ty, name: string)
    ensures name in Referenced(w, params, t) <==> NamedIn(Visited(params, where, t), params, name)
    decreases t, 1
  {
    NamedJoin([Node(where, t)], Inside(params, where, t), params, name);
    NamedOne(Node(where, t), params, name);
    RecordedInside(w, params, where, t, name);
    hide NamedIn, Inside, Referenced;
  }

  lemma {:induction false} RecordedInside(w: World, params: set<string>, where: string, t: Ty, name: string)
    ensures name in Referenced(w, params, t) <==>
      RefersTo(params, t, name) || NamedIn(Inside(params, where, t), params, name)
    decreases t, 0
  {
    assert !NamedIn([], params, name);
    hide NamedIn, Visited;
    match t
    case Paren(inner) => RecordedExactly(w, params, where, inner, name);
    case ArrayOf(elem) => RecordedExactly(w, params, where, elem, name);
    case ObjectLit(members) => MembersRecorded(w, params, where, members, name);
    case Union(parts) => PartsRecorded(w, params, where, parts, name);
    case Ref(head, args) =>
      if head !in params && head == "Array" && |args| >= 1 { RecordedExactly(w, params, where, args[0], name); }
      if head !in params && head == "Record" && |args| >= 2 { RecordedExactly(w, params, where, args[1], name); }
    case _ =>
  }

  lemma {:induction false} PartsRecorded(w: World, params: set<string>, where: string, parts: seq<Ty>, name: string)
    ensures name in ReferencedParts(w, params, parts) <==> NamedIn(VisitedParts(params, where, parts), params, name)
    decreases parts
  {
    assert !NamedIn([], params, name);
    hide Visited, FlagsFor, NamedIn, Flags, Referenced;
    if parts != [] {
      var front, last := parts[..|parts| - 1], parts[|parts| - 1];
      assert VisitedParts(params, where, front) + [] == VisitedParts(params, where, front);
      PartsRecorded(w, params, where, front, name);
      RecordedExactly(w, params, where, last, name);
      NamedJoin(VisitedParts(params, where, front), Visited(params, where, last), params, name);
    }
  }

  lemma {:induction false} MembersRecorded(w: World, params: set<string>, where: string, members: seq<Member>, name: string)
    ensures name in ReferencedMembers(w, params, members) <==> NamedIn(VisitedMembers(params, where, members), params, name)
    decreases members
  {
    assert !NamedIn([], params, name);
    hide Visited, FlagsFor, NamedIn, Flags, Referenced;
    if members != [] {
      var front, m := members[..|members| - 1], members[|members| - 1];
      assert VisitedMembers(params, where, front) + [] == VisitedMembers(params, where, front);
      MembersRecorded(w, params, where, front, name);
      if m.Property? {
        RecordedExactly(w, params, where + "." + m.key, m.ty, name);
        NamedJoin(VisitedMembers(params, where, front), Visited(params, where + "." + m.key, m.ty), params, name);
      }
    }
  }

  /** Parameters in scope and the built-in names are never recorded: a `Date` property needs no definition. */
  lemma NeverRecorded(w: World, params: set<string>, t: Ty, name: string)
    requires name in params || name == "Date" || name == "Record"
    ensures name !in Referenced(w, params, t)
  {
    RecordedExactly(w, params, "", t, name);
  }

  lemma {:induction false} FlagsForNothing(w: World, nodes: seq<Node>)
    ensures FlagsFor(w, nodes) == [] <==> forall i :: 0 <= i < |nodes| ==> !CannotMap(w, nodes[i].ty)
    decreases |nodes|
  {
    if nodes != [] { FlagsForNothing(w, nodes[..|nodes| - 1]); }
  }

  /** A type raises no flag exactly when every node of it the converter comes to can be mapped. */
  lemma QuietIffMappable(w: World, params: set<string>, where: string, t: Ty)
    ensures Flags(w, params, where, t) == [] <==>
      forall i :: 0 <= i < |Visited(params, where, t)| ==> !CannotMap(w, Visited(params, where, t)[i].ty)
  {
    FlaggedExactly(w, params, where, t);
    FlagsForNothing(w, Visited(params, where, t));
  }

  // ---------------------------------------------------------------------------------------------
  // Whole contracts

  /** The nodes of a declaration, under its own name and with its own parameters. */
  function DeclNodes(d: Decl): seq<Node> {
    match d
    case Interface(name, params, _, members, _) => VisitedMembers((set p | p in params), name, members)
    case Alias(name, params, aliased, _) => Visited((set p | p in params), name, aliased)
  }

  function AllNodes(decls: seq<Decl>): seq<Node> {
    if decls == [] then [] else AllNodes(decls[..|decls| - 1]) + DeclNodes(decls[|decls| - 1])
  }

  /** Some node of the declaration refers to `name`, which is none of its parameters. */
  ghost predicate DeclRefersTo(d: Decl, name: string) {
    NamedIn(DeclNodes(d), (set p | p in d.params), name)
  }

  lemma DeclBookkeeping(w: World, d: Decl, name: string)
    ensures FlagsDecl(w, d) == FlagsFor(w, DeclNodes(d))
    ensures name in ReferencedDecl(w, d) <==> DeclRefersTo(d, name)
  {
    hide NamedIn, FlagsFor, Visited, VisitedMembers;
    var params := ParamSet(d);
    assert params == set p | p in d.params;
    match d
    case Interface(at, _, _, members, _) =>
      MembersFlagged(w, params, at, members);
      MembersRecorded(w, params, at, members, name);
    case Alias(at, _, aliased, _) =>
      FlaggedExactly(w, params, at, aliased);
      RecordedExactly(w, params, at, aliased, name);
  }

  /** Over all declarations, the flags are those of all nodes in file order. */
  lemma {:induction false} ContractFlags(w: World, decls: seq<Decl>)
    ensures AllFlags(w, decls) == FlagsFor(w, AllNodes(decls))
    decreases |decls|
  {
    if decls != [] {
      var front, d := decls[..|decls| - 1], decls[|decls| - 1];
      ContractFlags(w, front);
      DeclBookkeeping(w, d, "");
      FlagsForJoin(w, AllNodes(front), DeclNodes(d));
    }
  }

  /** ... and the names recorded are those some declaration refers to. */
  lemma {:induction false} ContractNames(w: World, decls: seq<Decl>, name: string)
    ensures name in AllReferenced(w, decls) <==> exists d :: d in decls && DeclRefersTo(d, name)
    decreases |decls|
  {
    hide DeclRefersTo, ReferencedDecl;
    if decls != [] {
      var front, d := decls[..|decls| - 1], decls[|decls| - 1];
      ContractNames(w, front, name);
      DeclBookkeeping(w, d, name);
      assert decls == front + [d];
    }
  }

  // ---------------------------------------------------------------------------------------------
  // Descriptions

  lemma {:induction false} ConvertsUndescribed(w: World, params: set<string>, t: Ty)
    ensures Convert(w, params, t).description == None
    decreases t
  {
    match t
    case Paren(inner) => ConvertsUndescribed(w, params, inner);
    case Union(parts) => PartsUndescribed(w, params, parts);
    case _ =>
  }

  lemma {:induction false} PartsUndescribed(w: World, params: set<string>, parts: seq<Ty>)
    ensures forall i :: 0 <= i < |ConvertParts(w, params, parts)| ==> ConvertParts(w, params, parts)[i].description == None
    decreases parts
  {
    hide Convert;
    if parts != [] {
      PartsUndescribed(w, params, parts[..|parts| - 1]);
      ConvertsUndescribed(w, params, parts[|parts| - 1]);
    }
  }

  /** A property carries the comment on its last signature, and none if that has no comment. */
  lemma {:induction false} PropertyDescribed(w: World, params: set<string>, members: seq<Member>, i: nat)
    requires i < |members| && members[i].Property?
    requires forall j :: i < j < |members| && members[j].Property? ==> members[j].key != members[i].key
    ensures var m, all := members[i], Properties(w, params, members);
      m.key in all && all[m.key].description == (if m.doc == "" then None else Some(m.doc))
    decreases |members|
  {
    hide Convert;
    var front, last := members[..|members| - 1], members[|members| - 1];
    if i < |front| {
      assert front[i] == members[i];
      PropertyDescribed(w, params, front, i);
    } else {
      ConvertsUndescribed(w, params, last.ty);
    }
  }

  /** A definition carries the comment on its declaration; the default `Row` says what it is. */
  lemma DefinitionDescribed(w: World, d: Decl)
    ensures ConvertDecl(w, d).description == (if d.doc == "" then None else Some(d.doc))
    ensures "Row" !in DeclDefs(w, w.decls) ==>
      Defs(w)["Row"].description == Some("Loosely-typed normalised row.")
  {
    if d.Alias? { ConvertsUndescribed(w, ParamSet(d), d.aliased); }
  }

  // ---------------------------------------------------------------------------------------------
  // The permissive schema and the date format

  /** What cannot be mapped, flagged or not, accepts everything. */
  lemma UnmappedIsPermissive(w: World, params: set<string>, t: Ty)
    requires CannotMap(w, t) || t.OtherLit?
    ensures Convert(w, params, t) == EMPTY
  {
  }

  /** The type is `Date`, in parentheses or next to `undefined` or not. */
  ghost predicate Dated(params: set<string>, t: Ty)
    decreases t
  {
    || (t.Ref? && t.refName == "Date" && "Date" !in params)
    || (t.Paren? && Dated(params, t.inner))
    || (t.Union? && exists i :: 0 <= i < |t.parts| && OnlyDefined(t.parts, i) && Dated(params, t.parts[i]))
  }

  predicate OnlyDefined(parts: seq<Ty>, i: nat) {
    i < |parts| && forall j :: 0 <= j < |parts| ==> (parts[j] == KUndefined <==> j != i)
  }

  lemma {:induction false} NoneDefined(w: World, params: set<string>, parts: seq<Ty>)
    requires forall j :: 0 <= j < |parts| ==> parts[j] == KUndefined
    ensures ConvertParts(w, params, parts) == [] && NonNull(parts) == [] && !Nullable(parts)
    decreases |parts|
  {
    hide Convert;
    if parts != [] { NoneDefined(w, params, parts[..|parts| - 1]); }
  }

  /** Next to `undefined` alone, a type is compiled as if it stood by itself. */
  lemma {:induction false} OnlyConverted(w: World, params: set<string>, parts: seq<Ty>, i: nat)
    requires OnlyDefined(parts, i) && !IsNull(parts[i])
    ensures NonNull(parts) == [parts[i]] && ConvertParts(w, params, parts) == [Convert(w, params, parts[i])] && !Nullable(parts)
    decreases |parts|
  {
    hide Convert;
    var n := |parts| - 1;
    if i == n {
      NoneDefined(w, params, parts[..n]);
    } else {
      OnlyConverted(w, params, parts[..n], i);
    }
  }

  lemma {:induction false} NothingLeft(parts: seq<Ty>)
    requires NonNull(parts) == [] && !Nullable(parts)
    ensures forall j :: 0 <= j < |parts| ==> parts[j] == KUndefined
    decreases |parts|
  {
    if parts != [] {
      FrontNotNullable(parts);
      NothingLeft(parts[..|parts| - 1]);
    }
  }

  lemma FrontNotNullable(parts: seq<Ty>)
    requires parts != [] && !Nullable(parts)
    ensures !Nullable(parts[..|parts| - 1]) && !IsNull(parts[|parts| - 1])
  {
    var front := parts[..|parts| - 1];
    forall j | 0 <= j < |front| ensures !IsNull(front[j]) { assert front[j] == parts[j]; }
  }

  lemma {:induction false} SingleIsOnly(parts: seq<Ty>) returns (i: nat)
    requires |NonNull(parts)| == 1 && !Nullable(parts)
    ensures OnlyDefined(parts, i) && !IsNull(parts[i])
    decreases |parts|
  {
    var n := |parts| - 1;
    FrontNotNullable(parts);
    if parts[n] == KUndefined {
      i := SingleIsOnly(parts[..n]);
    } else {
      NothingLeft(parts[..n]);
      i := n;
    }
  }

  /** A schema is marked `date-time` exactly if its type is `Date`: next to `null`, or to another type, the mark is lost. */
  lemma {:induction false} MarkedIffDate(w: World, params: set<string>, t: Ty)
    ensures Convert(w, params, t).format == if Dated(params, t) then Some("date-time") else None
    decreases t
  {
    hide ConvertParts, NonNull, Nullable, Combine, Properties, Required;
    match t
    case Paren(inner) => MarkedIffDate(w, params, inner);
    case Union(parts) =>
      if |NonNull(parts)| == 1 && !Nullable(parts) {
        var i := SingleIsOnly(parts);
        OnlyConverted(w, params, parts, i);
        MarkedIffDate(w, params, parts[i]);
        OnlyOne(params, parts, i);
      } else {
        NotDated(params, parts);
        UnionUnmarked(NonNull(parts), ConvertParts(w, params, parts), Nullable(parts));
      }
    case _ =>
  }

  lemma OnlyOne(params: set<string>, parts: seq<Ty>, i: nat)
    requires OnlyDefined(parts, i)
    ensures Dated(params, Union(parts)) <==> Dated(params, parts[i])
  {
    forall j: nat | OnlyDefined(parts, j) ensures j == i { assert parts[j] != KUndefined; }
  }

  lemma NotDated(params: set<string>, parts: seq<Ty>)
    requires |NonNull(parts)| != 1 || Nullable(parts)
    ensures !Dated(params, Union(parts))
  {
    forall i: nat | OnlyDefined(parts, i) ensures !Dated(params, parts[i]) {
      if !IsNull(parts[i]) { OnlyConverted(World(map[], map[], []), params, parts, i); }
    }
  }

  lemma UnionUnmarked(nonNull: seq<Ty>, mapped: seq<Schema>, nullable: bool)
    requires |mapped| == |nonNull| && (|nonNull| != 1 || nullable)
    ensures ConvertUnion(nonNull, mapped, nullable).format == None
  {
  }

  lemma {:induction false} LiteralsStay(parts: seq<Ty>)
    requires AllStringLits(parts)
    ensures NonNull(parts) == parts && !Nullable(parts)
    decreases |parts|
  {
    if parts != [] {
      var front, last := parts[..|parts| - 1], parts[|parts| - 1];
      assert AllStringLits(front) by { forall i | 0 <= i < |front| ensures front[i].StringLit? { assert front[i] == parts[i]; } }
      LiteralsStay(front);
      assert parts == front + [last] && last.StringLit?;
      forall i | 0 <= i < |parts| ensures !IsNull(parts[i]) {}
      hide Nullable, AllStringLits;
    }
  }

  /** A union of text literals lists the texts in their order, and `null` after them. */
  lemma LiteralsEnumerated(w: World, params: set<string>, parts: seq<Ty>)
    requires AllStringLits(parts) && |parts| > 1
    ensures var texts := seq(|parts|, i requires 0 <= i < |parts| => JStr(parts[i].text));
      && Convert(w, params, Union(parts)) == EMPTY.(choices := Some(texts))
      && Convert(w, params, Union(parts + [NullLit])) == EMPTY.(choices := Some(texts + [JNull]))
  {
    LiteralsStay(parts);
    var more := parts + [NullLit];
    assert more[..|parts|] == parts && IsNull(more[|parts|]);
    assert NonNull(more) == parts + [] == parts;
    hide NonNull, ConvertParts;
    assert LiteralValues(parts) == seq(|parts|, i requires 0 <= i < |parts| => JStr(parts[i].text));
    assert LiteralValues(parts) + [] == LiteralValues(parts);
  }
}
