/**
 * The generator itself: a converter that writes `referenced` and `flags` as it walks, and a top level
 * that fills `defs` declaration by declaration.
 */
module ContractGenerator {
  import opened Options
  import opened Json
  import opened JsonSchema
  import opened ContractTypes
  import opened ContractSchema

  /** One flag for each of `names`, in some order, and nothing else. */
  ghost predicate OneForEach(flags: seq<Flag>, names: set<string>) {
    && (forall name :: UndefinedType(name) in flags <==> name in names)
    && (forall i :: 0 <= i < |flags| ==> flags[i].UndefinedType?)
    && (forall i, j :: 0 <= i < j < |flags| ==> flags[i] != flags[j])
  }

  class Generator {
    const world: World
    var defs: map<string, Schema>
    var referenced: set<string>
    var flags: seq<Flag>
    var typeParams: set<string>

    constructor (w: World)
      ensures world == w
      ensures defs == map[] && referenced == {} && flags == [] && typeParams == {}
    {
      world := w;
      defs, referenced, flags, typeParams := map[], {}, [], {};
    }

    method Convert(t: Ty, where: string) returns (s: Schema)
      modifies this`referenced, this`flags
      ensures s == ContractSchema.Convert(world, typeParams, t)
      ensures referenced == old(referenced) + Referenced(world, typeParams, t)
      ensures flags == old(flags) + Flags(world, typeParams, where, t)
      decreases t
    {
      match t
      case KString => return TypeSchema("string");
      case KNumber => return TypeSchema("number");
      case KBoolean => return TypeSchema("boolean");
      case KUnknown => return EMPTY;
      case KAny => return EMPTY;
      case KNull => return TypeSchema("null");
      case Paren(inner) => s := Convert(inner, where);
      case Typeof(name) =>
        if name in world.constStrings { return ConstSchema(JStr(world.constStrings[name])); }
        flags := flags + [UnhandledNode(where, t)];
        return EMPTY;
      case Indexed(target) =>
        var query := Unwrapped(target);
        if query.Typeof? && query.name in world.enumArrays {
          return EnumSchema(Strings(world.enumArrays[query.name]));
        }
        flags := flags + [UnhandledNode(where, t)];
        return EMPTY;
      case StringLit(text) => return ConstSchema(JStr(text));
      case NumberLit(value) => return ConstSchema(JNum(value));
      case NullLit => return TypeSchema("null");
      case OtherLit(_) => return EMPTY;
      case ArrayOf(elem) =>
        var items := Convert(elem, where);
        return ArraySchema(items);
      case ObjectLit(members) => s := ObjectFromMembers(members, where, false);
      case Union(parts) => s := ConvertUnionNode(parts, where);
      case Ref(name, args) => s := ConvertReference(name, args, where);
      case KUndefined =>
        flags := flags + [UnhandledNode(where, t)];
        return EMPTY;
      case Unhandled(_) =>
        flags := flags + [UnhandledNode(where, t)];
        return EMPTY;
    }

    method ConvertReference(name: string, args: seq<Ty>, where: string) returns (s: Schema)
      modifies this`referenced, this`flags
      ensures s == ContractSchema.Convert(world, typeParams, Ref(name, args))
      ensures referenced == old(referenced) + Referenced(world, typeParams, Ref(name, args))
      ensures flags == old(flags) + Flags(world, typeParams, where, Ref(name, args))
      decreases args
    {
      if name in typeParams { return EMPTY; }
      if name == "Array" && args != [] {
        var items := Convert(args[0], where);
        return ArraySchema(items);
      }
      if name == "Record" {
        if |args| >= 2 {
          var values := Convert(args[1], where);
          return RecordSchema(AdditionalSchema(values));
        }
        return RecordSchema(AdditionalBool(true));
      }
      if name == "Date" { return TypeSchema("string").(format := Some("date-time")); }
      referenced := referenced + {name};
      return RefSchema(name);
    }

    /** Filter out `null` and `undefined`, then choose between the single branch, `enum`, a bare `type` and `anyOf`. */
    method ConvertUnionNode(parts: seq<Ty>, where: string) returns (s: Schema)
      modifies this`referenced, this`flags
      ensures s == ContractSchema.Convert(world, typeParams, Union(parts))
      ensures referenced == old(referenced) + Referenced(world, typeParams, Union(parts))
      ensures flags == old(flags) + Flags(world, typeParams, where, Union(parts))
      decreases parts
    {
      var nonNull := NonNull(parts);
      var nullable := exists i :: 0 <= i < |parts| && IsNull(parts[i]);
      if !(|nonNull| == 1 && !nullable) && AllStringLits(nonNull) {
        LiteralsAreQuiet(world, typeParams, where, parts);
        return EnumSchema(LiteralValues(nonNull) + (if nullable then [JNull] else []));
      }
      var mapped := ConvertBranches(parts, where);
      if |nonNull| == 1 && !nullable {
        return mapped[0];
      }
      return Combine(mapped, nullable);
    }

    method ConvertBranches(parts: seq<Ty>, where: string) returns (mapped: seq<Schema>)
      modifies this`referenced, this`flags
      ensures mapped == ConvertParts(world, typeParams, parts)
      ensures referenced == old(referenced) + ReferencedParts(world, typeParams, parts)
      ensures flags == old(flags) + FlagsParts(world, typeParams, where, parts)
      decreases parts, 0
    {
      mapped := [];
      for i := 0 to |parts|
        invariant mapped == ConvertParts(world, typeParams, parts[..i])
        invariant referenced == old(referenced) + ReferencedParts(world, typeParams, parts[..i])
        invariant flags == old(flags) + FlagsParts(world, typeParams, where, parts[..i])
      {
        assert parts[..i + 1][..i] == parts[..i];
        if !IsNull(parts[i]) && !IsUndefined(parts[i]) {
          var s := Convert(parts[i], where);
          mapped := mapped + [s];
        }
      }
      assert parts[..|parts|] == parts;
    }

    method ObjectFromMembers(members: seq<Member>, where: string, open: bool) returns (s: Schema)
      modifies this`referenced, this`flags
      ensures s == ObjectSchema(Properties(world, typeParams, members), Required(members), open)
      ensures referenced == old(referenced) + ReferencedMembers(world, typeParams, members)
      ensures flags == old(flags) + FlagsMembers(world, typeParams, where, members)
      decreases members
    {
      var properties: map<string, Schema> := map[];
      var required: seq<string> := [];
      for i := 0 to |members|
        invariant properties == Properties(world, typeParams, members[..i])
        invariant required == Required(members[..i])
        invariant referenced == old(referenced) + ReferencedMembers(world, typeParams, members[..i])
        invariant flags == old(flags) + FlagsMembers(world, typeParams, where, members[..i])
      {
        var m := members[i];
        assert members[..i + 1][..i] == members[..i];
        if m.Property? {
          var value := Convert(m.ty, where + "." + m.key);
          properties := properties[m.key := Describe(value, m.doc)];
          if !m.optional {
            required := required + [m.key];
          }
        }
      }
      assert members[..|members|] == members;
      return ObjectSchema(properties, required, open);
    }

    method Handle(d: Decl)
      modifies this
      ensures defs == old(defs)[d.name := ConvertDecl(world, d)]
      ensures referenced == old(referenced) + ReferencedDecl(world, d)
      ensures flags == old(flags) + FlagsDecl(world, d)
    {
      typeParams := set p | p in d.params;
      var s: Schema;
      match d {
        case Interface(name, _, extendsRow, members, _) => s := ObjectFromMembers(members, name, extendsRow);
        case Alias(name, _, aliased, _) => s := Convert(aliased, name);
      }
      defs := defs[d.name := Describe(s, d.doc)];
    }

    /** The top level: handle every declaration, default `Row`, flag every reference that stayed undefined. */
    method Generate()
      requires defs == map[] && referenced == {} && flags == []
      modifies this
      ensures defs == Defs(world)
      ensures referenced == AllReferenced(world, world.decls)
      ensures AllFlags(world, world.decls) <= flags
      ensures OneForEach(flags[|AllFlags(world, world.decls)|..], set name | name in referenced && name !in defs)
    {
      for i := 0 to |world.decls|
        invariant defs == DeclDefs(world, world.decls[..i])
        invariant referenced == AllReferenced(world, world.decls[..i])
        invariant flags == AllFlags(world, world.decls[..i])
      {
        assert world.decls[..i + 1][..i] == world.decls[..i];
        Handle(world.decls[i]);
      }
      assert world.decls[..|world.decls|] == world.decls;
      if "Row" !in defs {
        defs := defs["Row" := ROW_SCHEMA];
      }
      FlagUndefined();
    }

    method FlagUndefined()
      modifies this`flags
      ensures old(flags) <= flags
      ensures OneForEach(flags[|old(flags)|..], set name | name in referenced && name !in defs)
    {
      ghost var before := flags;
      var left := referenced;
      while left != {}
        invariant left <= referenced
        invariant before <= flags
        invariant OneForEach(flags[|before|..], set name | name in referenced - left && name !in defs)
        decreases left
      {
        var name :| name in left;
        left := left - {name};
        if name !in defs {
          assert (flags + [UndefinedType(name)])[|before|..] == flags[|before|..] + [UndefinedType(name)];
          flags := flags + [UndefinedType(name)];
        }
      }
    }
  }
}
