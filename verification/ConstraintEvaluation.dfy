/** Checking a composed definition against an effective set of constraints. */
module ConstraintEvaluation {
  import opened Options
  import opened Json
  import opened Ids
  import opened OrderedMaps
  import opened DefConstraints

  /** `"a.b".split(".")`: always at least one segment. */
  function Split(path: string): (r: seq<string>)
    ensures |r| >= 1
  {
    if path == "" then [""]
    else
      var front := Split(path[..|path| - 1]);
      if path[|path| - 1] == '.' then front + [""]
      else front[..|front| - 1] + [front[|front| - 1] + [path[|path| - 1]]]
  }

  function Walk(v: Option<J>, segments: seq<string>): Option<J>
    decreases |segments|
  {
    if segments == [] then v
    else if v.None? || !v.value.JObj? then None
    else Walk(FieldOf(v.value.fields, segments[0]), segments[1..])
  }

  function GetPath(def: map<string, J>, path: string): Option<J> {
    Walk(Some(JObj(def)), Split(path))
  }

  /** A path without dots reads a top-level property. */
  lemma ReadPlain(def: map<string, J>, path: string)
    requires forall i :: 0 <= i < |path| ==> path[i] != '.'
    ensures GetPath(def, path) == FieldOf(def, path)
  {
    SplitPlain(path);
    var segments := [path];
    assert segments[1..] == [];
    assert Walk(Some(JObj(def)), segments) == Walk(FieldOf(def, segments[0]), segments[1..]);
  }

  lemma {:induction false} SplitPlain(path: string)
    requires forall i :: 0 <= i < |path| ==> path[i] != '.'
    ensures Split(path) == [path]
    decreases |path|
  {
    if path != "" {
      var front, last := path[..|path| - 1], path[|path| - 1];
      SplitPlain(front);
      assert path == front + [last];
    }
  }

  function ListAt(def: map<string, J>, path: string): seq<J> {
    var v := GetPath(def, path);
    if v.Some? && v.value.JArr? then v.value.items else []
  }

  /** `===`: arrays and objects of a parsed payload are never the same object. */
  predicate StrictEquals(a: Option<J>, b: Option<J>) {
    a == b && (a.Some? ==> !a.value.JArr? && !a.value.JObj?)
  }

  predicate Matches(el: J, filter: Option<Where>) {
    filter.Some? ==> el.JObj? && StrictEquals(FieldOf(el.fields, filter.value.field), filter.value.eq)
  }

  function Count(list: seq<J>, filter: Option<Where>): nat {
    if list == [] then 0
    else Count(list[..|list| - 1], filter) + (if Matches(list[|list| - 1], filter) then 1 else 0)
  }

  /** The value an element contributes to a uniqueness rule. */
  function Tracked(el: J, field: string, except: seq<J>): Option<J> {
    if el.JObj? && field in el.fields && el.fields[field] !in except then Some(el.fields[field]) else None
  }

  // ---------------------------------------------------------------------------------------------
  // What a rule demands

  ghost predicate AllDistinct(list: seq<J>, field: string, except: seq<J>) {
    forall i, j :: 0 <= i < j < |list| && Tracked(list[i], field, except).Some? ==>
      Tracked(list[i], field, except) != Tracked(list[j], field, except)
  }

  predicate Within(n: real, min: Option<real>, max: Option<real>) {
    (min.Some? ==> min.value <= n) && (max.Some? ==> n <= max.value)
  }

  /** The definition meets the rule. */
  ghost predicate Satisfies(def: map<string, J>, c: DefConstraint) {
    var v := GetPath(def, c.path);
    match c.shape
    case Cardinality => Within(Count(ListAt(def, c.path), c.filter) as real, c.min, c.max)
    case Unique => AllDistinct(ListAt(def, c.path), c.field.GetOr(""), c.except.GetOr([]))
    case Enum => v.Some? ==> v.value in c.values.GetOr([])
    case Bound => v.Some? ==> v.value.JNum? && Within(v.value.n, c.min, c.max)
  }

  // ---------------------------------------------------------------------------------------------
  // The evaluator's report

  datatype Reason =
    | TooFew(count: nat) | TooMany(count: nat)
    | Repeated(value: J, times: nat)
    | NotAllowed(found: J)
    | NotANumber | TooSmall(n: real) | TooLarge(n: real)

  /** `message` is the rule's own text, used verbatim when present. */
  datatype Violation = Violation(id: string, message: Option<string>, reason: Reason)

  function Occurrences(list: seq<J>, field: string, except: seq<J>, v: J): nat {
    if list == [] then 0
    else Occurrences(list[..|list| - 1], field, except, v) +
         (if Tracked(list[|list| - 1], field, except) == Some(v) then 1 else 0)
  }

  /** The tracked values in order of first appearance. */
  function FirstSeen(list: seq<J>, field: string, except: seq<J>): seq<J> {
    if list == [] then []
    else
      var front := FirstSeen(list[..|list| - 1], field, except);
      var v := Tracked(list[|list| - 1], field, except);
      if v.Some? then AddOnce(front, v.value) else front
  }

  /** One report for each of `vs` that occurs more than once. */
  function Repeats(c: DefConstraint, list: seq<J>, vs: seq<J>): seq<Violation> {
    if vs == [] then []
    else
      var n := Occurrences(list, c.field.GetOr(""), c.except.GetOr([]), vs[|vs| - 1]);
      Repeats(c, list, vs[..|vs| - 1]) +
        (if n > 1 then [Violation(c.id, c.message, Repeated(vs[|vs| - 1], n))] else [])
  }

  function Violations(def: map<string, J>, c: DefConstraint): seq<Violation> {
    var v := GetPath(def, c.path);
    match c.shape
    case Cardinality =>
      var count := Count(ListAt(def, c.path), c.filter);
      (if c.min.Some? && count as real < c.min.value then [Violation(c.id, c.message, TooFew(count))] else []) +
      (if c.max.Some? && count as real > c.max.value then [Violation(c.id, c.message, TooMany(count))] else [])
    case Unique =>
      var list := ListAt(def, c.path);
      Repeats(c, list, FirstSeen(list, c.field.GetOr(""), c.except.GetOr([])))
    case Enum =>
      if v.Some? && v.value !in c.values.GetOr([]) then [Violation(c.id, c.message, NotAllowed(v.value))] else []
    case Bound =>
      if v.None? then []
      else if !v.value.JNum? then [Violation(c.id, c.message, NotANumber)]
      else
        (if c.min.Some? && v.value.n < c.min.value then [Violation(c.id, c.message, TooSmall(v.value.n))] else []) +
        (if c.max.Some? && v.value.n > c.max.value then [Violation(c.id, c.message, TooLarge(v.value.n))] else [])
  }

  function AllViolations(def: map<string, J>, cs: seq<DefConstraint>): seq<Violation> {
    if cs == [] then [] else AllViolations(def, cs[..|cs| - 1]) + Violations(def, cs[|cs| - 1])
  }

  method EvaluateConstraints(def: map<string, J>, constraints: seq<DefConstraint>) returns (errors: seq<Violation>)
    ensures errors == AllViolations(def, constraints)
  {
    errors := [];
    for i := 0 to |constraints|
      invariant errors == AllViolations(def, constraints[..i])
    {
      assert constraints[..i + 1][..i] == constraints[..i];
      var found := Evaluate(def, constraints[i]);
      errors := errors + found;
    }
    assert constraints[..|constraints|] == constraints;
  }

  method Evaluate(def: map<string, J>, c: DefConstraint) returns (errors: seq<Violation>)
    ensures errors == Violations(def, c)
  {
    errors := [];
    if c.shape == Cardinality {
      var count := CountMatching(ListAt(def, c.path), c.filter);
      if c.min.Some? && count as real < c.min.value { errors := errors + [Violation(c.id, c.message, TooFew(count))]; }
      if c.max.Some? && count as real > c.max.value { errors := errors + [Violation(c.id, c.message, TooMany(count))]; }
    } else if c.shape == Unique {
      errors := CheckUnique(c, ListAt(def, c.path));
    } else if c.shape == Enum {
      var v := GetPath(def, c.path);
      if v.Some? && v.value !in c.values.GetOr([]) { errors := errors + [Violation(c.id, c.message, NotAllowed(v.value))]; }
    } else {
      var v := GetPath(def, c.path);
      if v.None? { return; }
      if !v.value.JNum? { return [Violation(c.id, c.message, NotANumber)]; }
      var n := v.value.n;
      if c.min.Some? && n < c.min.value { errors := errors + [Violation(c.id, c.message, TooSmall(n))]; }
      if c.max.Some? && n > c.max.value { errors := errors + [Violation(c.id, c.message, TooLarge(n))]; }
    }
  }

  method CountMatching(list: seq<J>, filter: Option<Where>) returns (count: nat)
    ensures count == Count(list, filter)
  {
    count := 0;
    for i := 0 to |list|
      invariant count == Count(list[..i], filter)
    {
      assert list[..i + 1][..i] == list[..i];
      if Matches(list[i], filter) { count := count + 1; }
    }
    assert list[..|list|] == list;
  }

  /** Count every tracked value in an ordered map, then report those above one. */
  method CheckUnique(c: DefConstraint, list: seq<J>) returns (errors: seq<Violation>)
    ensures errors == Repeats(c, list, FirstSeen(list, c.field.GetOr(""), c.except.GetOr([])))
  {
    var field, except := c.field.GetOr(""), c.except.GetOr([]);
    var counts: OMap<J, nat> := Empty();
    for i := 0 to |list|
      invariant ValidMap(counts)
      invariant counts.keys == FirstSeen(list[..i], field, except)
      invariant forall v :: (if v in counts.at then counts.at[v] else 0) == Occurrences(list[..i], field, except, v)
    {
      var el := list[i];
      assert list[..i + 1][..i] == list[..i];
      if !el.JObj? || field !in el.fields || el.fields[field] in except { continue; }
      var v := el.fields[field];
      var n := if v in counts.at then counts.at[v] else 0;
      counts := Set(counts, v, n + 1);
    }
    assert list[..|list|] == list;
    errors := [];
    for i := 0 to |counts.keys|
      invariant errors == Repeats(c, list, counts.keys[..i])
    {
      var v := counts.keys[i];
      assert counts.keys[..i + 1][..i] == counts.keys[..i];
      assert counts.at[v] == Occurrences(list, field, except, v);
      if counts.at[v] > 1 {
        errors := errors + [Violation(c.id, c.message, Repeated(v, counts.at[v]))];
      }
    }
    assert counts.keys[..|counts.keys|] == counts.keys;
  }

  // ---------------------------------------------------------------------------------------------
  // An empty report means every rule is met

  lemma {:induction false} OccurrencesCount(list: seq<J>, field: string, except: seq<J>, v: J)
    ensures Occurrences(list, field, except, v) >= 1 <==>
      exists i :: 0 <= i < |list| && Tracked(list[i], field, except) == Some(v)
    ensures Occurrences(list, field, except, v) >= 2 <==>
      exists i, j :: 0 <= i < j < |list| && Tracked(list[i], field, except) == Some(v) == Tracked(list[j], field, except)
    decreases |list|
  {
    if list != [] {
      var front, last := list[..|list| - 1], |list| - 1;
      OccurrencesCount(front, field, except, v);
      assert forall i :: 0 <= i < last ==> front[i] == list[i];
      if Tracked(list[last], field, except) == Some(v) && Occurrences(front, field, except, v) >= 1 {
        var i :| 0 <= i < |front| && Tracked(front[i], field, except) == Some(v);
        assert Tracked(list[i], field, except) == Some(v) == Tracked(list[last], field, except);
      }
    }
  }

  lemma {:induction false} FirstSeenMembers(list: seq<J>, field: string, except: seq<J>)
    ensures forall v :: v in FirstSeen(list, field, except) <==>
      exists i :: 0 <= i < |list| && Tracked(list[i], field, except) == Some(v)
    decreases |list|
  {
    if list != [] {
      var front, last := list[..|list| - 1], |list| - 1;
      FirstSeenMembers(front, field, except);
      assert forall i :: 0 <= i < last ==> front[i] == list[i];
    }
  }

  ghost predicate NoRepeat(c: DefConstraint, list: seq<J>, v: J) {
    Occurrences(list, c.field.GetOr(""), c.except.GetOr([]), v) <= 1
  }

  lemma {:induction false} RepeatsEmpty(c: DefConstraint, list: seq<J>, vs: seq<J>)
    ensures Repeats(c, list, vs) == [] <==> forall v :: v in vs ==> NoRepeat(c, list, v)
    decreases |vs|
  {
    if vs != [] {
      var front, last := vs[..|vs| - 1], vs[|vs| - 1];
      RepeatsEmpty(c, list, front);
      assert vs == front + [last];
      assert |Repeats(c, list, vs)| == |Repeats(c, list, front)| + (if NoRepeat(c, list, last) then 0 else 1);
    }
  }

  lemma UniqueReport(c: DefConstraint, list: seq<J>)
    ensures var field, except := c.field.GetOr(""), c.except.GetOr([]);
      Repeats(c, list, FirstSeen(list, field, except)) == [] <==> AllDistinct(list, field, except)
  {
    var field, except := c.field.GetOr(""), c.except.GetOr([]);
    RepeatsEmpty(c, list, FirstSeen(list, field, except));
    FirstSeenMembers(list, field, except);
    forall v ensures
      Occurrences(list, field, except, v) >= 2 <==>
      exists i, j :: 0 <= i < j < |list| && Tracked(list[i], field, except) == Some(v) == Tracked(list[j], field, except)
    {
      OccurrencesCount(list, field, except, v);
    }
    if !AllDistinct(list, field, except) {
      var i, j :| 0 <= i < j < |list| && Tracked(list[i], field, except).Some?
        && Tracked(list[i], field, except) == Tracked(list[j], field, except);
      assert !NoRepeat(c, list, Tracked(list[i], field, except).value);
    }
    if v :| v in FirstSeen(list, field, except) && !NoRepeat(c, list, v) {
      assert !AllDistinct(list, field, except);
    }
  }

  /** A rule reports nothing exactly when the definition meets it. */
  lemma ViolationsMeaning(def: map<string, J>, c: DefConstraint)
    ensures Violations(def, c) == [] <==> Satisfies(def, c)
  {
    if c.shape == Unique {
      UniqueReport(c, ListAt(def, c.path));
    }
  }

  /** The evaluator is silent exactly when every constraint is met. */
  lemma {:induction false} EvaluationMeaning(def: map<string, J>, cs: seq<DefConstraint>)
    ensures AllViolations(def, cs) == [] <==> forall c :: c in cs ==> Satisfies(def, c)
    decreases |cs|
  {
    hide Satisfies, Violations;
    if cs != [] {
      EvaluationMeaning(def, cs[..|cs| - 1]);
      ViolationsMeaning(def, cs[|cs| - 1]);
      assert cs == cs[..|cs| - 1] + [cs[|cs| - 1]];
    }
  }
}
