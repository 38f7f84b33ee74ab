/**
 * A floor stated again with another element filter, keying field or exception list: shape by shape, when
 * the composed-whole check enforces the restatement as stated, and when it drops it without a report.
 */
module RestatedFloors {
  import opened Options
  import opened Json
  import opened DefConstraints
  import opened WhiteSpace
  import opened ConstraintEvaluation
  import opened ConstraintFloors

  /** Strict equality never holds of an array or an object, so no element matches. */
  predicate MatchesNothing(filter: Option<Where>) {
    filter.Some? && filter.value.eq.Some? && (filter.value.eq.value.JArr? || filter.value.eq.value.JObj?)
  }

  predicate Narrower(g: Option<Where>, h: Option<Where>) {
    h.None? || g == h || MatchesNothing(g)
  }

  /** The filters compare as the sets of elements they let through. */
  lemma NarrowerMeaning(g: Option<Where>, h: Option<Where>)
    ensures Narrower(g, h) <==> forall el :: Matches(el, g) ==> Matches(el, h)
  {
    if !Narrower(g, h) {
      var el := Outside(g, h);
    }
  }

  lemma Outside(g: Option<Where>, h: Option<Where>) returns (el: J)
    requires !Narrower(g, h)
    ensures Matches(el, g) && !Matches(el, h)
  {
    if g.None? {
      el := JNull;
    } else {
      var fields: map<string, J> := map[];
      if h.value.field != g.value.field && h.value.eq.None? {
        fields := fields[h.value.field := JNull];
      }
      if g.value.eq.Some? {
        fields := fields[g.value.field := g.value.eq.value];
      }
      el := JObj(fields);
    }
  }

  /** The least whole number that `min` allows. */
  function LeastCount(min: Option<real>): (n: nat)
    ensures min.Some? ==> min.value <= n as real
    ensures n > 0 ==> min.Some? && n as real - 1.0 < min.value
  {
    if min.None? || min.value <= 0.0 then 0 else -((-min.value).Floor)
  }

  /** Some list has a number of matching elements within the bounds. */
  predicate CountFits(filter: Option<Where>, min: Option<real>, max: Option<real>) {
    Within(if MatchesNothing(filter) then 0.0 else LeastCount(min) as real, min, max)
  }

  /**
   * The restatement `c` of the floor `f` is enforced as `c` states it. A value rule always is. A `unique`
   * rule is when it keeps the field, and lists its exceptions or has none to drop. A count is when its lower
   * bound is vacuous or its filter lets more through, and its upper bound is absent or its filter less.
   */
  predicate EnforcedAsStated(f: DefConstraint, c: DefConstraint) {
    match c.shape
    case Bound => true
    case Enum => true
    case Unique => c.field == f.field && (c.except.None? ==> f.except.GetOr([]) == [])
    case Cardinality =>
      || !CountFits(f.filter, MergeMin(f, c).0, MergeMax(f, c).0)
      || (&& (Narrower(f.filter, c.filter) || c.min.GetOr(0.0) <= 0.0)
          && (Narrower(c.filter, f.filter) || c.max.None?))
  }

  predicate Restates(f: DefConstraint, c: DefConstraint) {
    && f.kind == Floor && c.id == f.id && WellFormed(f) && WellFormed(c)
    && FoldRules([f, c]).errors == []
  }

  lemma RestatesCleanly(f: DefConstraint, c: DefConstraint)
    requires Restates(f, c)
    ensures c.kind == Floor && c.shape == f.shape && c.path == f.path && MergeFloor(f, c).1 == []
    ensures FirstFloor([f], f.id) == Some(f) && FirstFloor([f, c][..1], c.id) == Some(f)
    ensures forall def :: Satisfies(def, f) && MeetsRestated(def, c, f) ==> Passes(def, [f, c])
  {
    hide MergeFloor, Satisfies, MeetsRestated;
    assert [f][..0] == [] && [f, c][..1] == [f];
    assert FoldRules([f]) == Step(START, f);
    CleanStep(FoldRules([f]), c);
    forall def | Satisfies(def, f) && MeetsRestated(def, c, f) ensures Passes(def, [f, c]) {
      forall id ensures Demands(def, [f, c], id) {
        assert Demands(def, [f], id);
      }
    }
  }

  // ---------------------------------------------------------------------------------------------
  // Enforced

  lemma {:induction false} CountsCompare(list: seq<J>, g: Option<Where>, h: Option<Where>)
    requires Narrower(g, h)
    ensures Count(list, g) <= Count(list, h)
    decreases |list|
  {
    if list != [] {
      CountsCompare(list[..|list| - 1], g, h);
    }
  }

  lemma {:induction false} NothingCounts(list: seq<J>, g: Option<Where>)
    requires MatchesNothing(g)
    ensures Count(list, g) == 0
    decreases |list|
  {
    if list != [] {
      NothingCounts(list[..|list| - 1], g);
    }
  }

  lemma LeastIsLeast(n: nat, min: Option<real>)
    requires min.Some? ==> min.value <= n as real
    ensures LeastCount(min) <= n
  {
    hide LeastCount;
    assert (LeastCount(min) - 1) as real == LeastCount(min) as real - 1.0;
  }

  lemma CountsFit(list: seq<J>, filter: Option<Where>, min: Option<real>, max: Option<real>)
    requires Within(Count(list, filter) as real, min, max)
    ensures CountFits(filter, min, max)
  {
    hide Count, LeastCount;
    if MatchesNothing(filter) {
      NothingCounts(list, filter);
    } else {
      LeastIsLeast(Count(list, filter), min);
    }
  }

  /** Meeting the floor and the restatement as the fold reads it is meeting the restatement. */
  lemma PairEnforced(def: map<string, J>, f: DefConstraint, c: DefConstraint)
    requires c.shape == f.shape && c.path == f.path && MergeFloor(f, c).1 == []
    requires EnforcedAsStated(f, c)
    requires Satisfies(def, f) && MeetsRestated(def, c, f)
    ensures Satisfies(def, c)
  {
    hide CountFits;
    var list := ListAt(def, c.path);
    if c.shape == Cardinality {
      WithinBoth(Count(list, f.filter) as real, f, c);
      CountsFit(list, f.filter, MergeMin(f, c).0, MergeMax(f, c).0);
      if Narrower(f.filter, c.filter) { CountsCompare(list, f.filter, c.filter); }
      if Narrower(c.filter, f.filter) { CountsCompare(list, c.filter, f.filter); }
    }
  }

  // ---------------------------------------------------------------------------------------------
  // Not enforced

  function Nest(segments: seq<string>, v: J): J {
    if segments == [] then v else JObj(map[segments[0] := Nest(segments[1..], v)])
  }

  lemma {:induction false} WalkNest(segments: seq<string>, v: J)
    ensures Walk(Some(Nest(segments, v)), segments) == Some(v)
    decreases |segments|
  {
    if segments != [] {
      WalkNest(segments[1..], v);
    }
  }

  /** Any list can be what a path reads. */
  lemma ListPlaced(path: string, list: seq<J>) returns (def: map<string, J>)
    ensures ListAt(def, path) == list
  {
    def := Nest(Split(path), JArr(list)).fields;
    WalkNest(Split(path), JArr(list));
  }

  function Copies(n: nat, el: J): seq<J> {
    if n == 0 then [] else Copies(n - 1, el) + [el]
  }

  lemma {:induction false} CountCopies(list: seq<J>, n: nat, el: J, filter: Option<Where>)
    ensures Count(list + Copies(n, el), filter) == Count(list, filter) + if Matches(el, filter) then n else 0
    decreases n
  {
    if n == 0 {
      assert list + [] == list;
    } else {
      CountCopies(list, n - 1, el, filter);
      assert (list + Copies(n, el))[..|list + Copies(n, el)| - 1] == list + Copies(n - 1, el);
    }
  }

  /** A list with exactly the least count that fits, all of one element where there are any. */
  lemma FittingList(f: DefConstraint, c: DefConstraint, el: J) returns (list: seq<J>)
    requires CountFits(f.filter, MergeMin(f, c).0, MergeMax(f, c).0)
    requires MergeMin(f, c).1 == [] && MergeMax(f, c).1 == []
    requires Matches(el, f.filter) || MatchesNothing(f.filter)
    ensures Within(Count(list, f.filter) as real, f.min, f.max) && Within(Count(list, f.filter) as real, c.min, c.max)
    ensures exists n :: list == Copies(n, el)
  {
    var n := if MatchesNothing(f.filter) then 0 else LeastCount(MergeMin(f, c).0);
    list := Copies(n, el);
    CountCopies([], n, el, f.filter);
    assert [] + list == list;
    WithinBoth(n as real, f, c);
  }

  lemma SomeMatch(filter: Option<Where>) returns (el: J)
    requires !MatchesNothing(filter)
    ensures Matches(el, filter)
  {
    el := if filter.None? || filter.value.eq.None? then JObj(map[])
      else JObj(map[filter.value.field := filter.value.eq.value]);
  }

  lemma TooFewPass(f: DefConstraint, c: DefConstraint) returns (list: seq<J>)
    requires CountFits(f.filter, MergeMin(f, c).0, MergeMax(f, c).0)
    requires MergeMin(f, c).1 == [] && MergeMax(f, c).1 == []
    requires !Narrower(f.filter, c.filter) && c.min.GetOr(0.0) > 0.0
    ensures Within(Count(list, f.filter) as real, f.min, f.max) && Within(Count(list, f.filter) as real, c.min, c.max)
    ensures !Within(Count(list, c.filter) as real, c.min, c.max)
  {
    hide CountFits;
    var el := Outside(f.filter, c.filter);
    list := FittingList(f, c, el);
    var n :| list == Copies(n, el);
    CountCopies([], n, el, c.filter);
    assert [] + list == list;
  }

  lemma TooManyPass(f: DefConstraint, c: DefConstraint) returns (list: seq<J>)
    requires CountFits(f.filter, MergeMin(f, c).0, MergeMax(f, c).0)
    requires MergeMin(f, c).1 == [] && MergeMax(f, c).1 == []
    requires !Narrower(c.filter, f.filter) && c.max.Some?
    ensures Within(Count(list, f.filter) as real, f.min, f.max) && Within(Count(list, f.filter) as real, c.min, c.max)
    ensures !Within(Count(list, c.filter) as real, c.min, c.max)
  {
    hide CountFits;
    var base := JNull;
    if !MatchesNothing(f.filter) { base := SomeMatch(f.filter); }
    var few := FittingList(f, c, base);
    var el := Outside(c.filter, f.filter);
    var n: nat := c.max.value.Floor + 1;
    list := few + Copies(n, el);
    CountCopies(few, n, el, f.filter);
    CountCopies(few, n, el, c.filter);
  }

  lemma RepeatPasses(f: DefConstraint, c: DefConstraint) returns (list: seq<J>)
    requires c.shape == Unique && WellFormed(f) && WellFormed(c) && f.shape == Unique && !EnforcedAsStated(f, c)
    ensures AllDistinct(list, f.field.value, f.except.GetOr([]))
    ensures c.except.Some? ==> AllDistinct(list, f.field.value, c.except.value)
    ensures !AllDistinct(list, c.field.value, c.except.GetOr([]))
  {
    var v;
    if c.field == f.field {
      v := f.except.value[0];
    } else {
      v := Unlisted(c.except.GetOr([]));
    }
    var el := JObj(map[c.field.value := v]);
    list := [el, el];
    assert Tracked(list[0], c.field.value, c.except.GetOr([])) == Some(v) == Tracked(list[1], c.field.value, c.except.GetOr([]));
  }

  function Longest(list: seq<J>): nat {
    if list == [] then 0
    else
      var rest, last := Longest(list[..|list| - 1]), list[|list| - 1];
      if last.JArr? && |last.items| > rest then |last.items| else rest
  }

  lemma {:induction false} LongestBounds(list: seq<J>)
    ensures forall v :: v in list && v.JArr? ==> |v.items| <= Longest(list)
    decreases |list|
  {
    if list != [] {
      LongestBounds(list[..|list| - 1]);
      assert list == list[..|list| - 1] + [list[|list| - 1]];
    }
  }

  lemma Unlisted(list: seq<J>) returns (v: J)
    ensures v !in list
  {
    LongestBounds(list);
    v := JArr(seq(Longest(list) + 1, _ => JNull));
  }

  /** A definition that passes and breaks the restatement as it was written. */
  lemma DroppedSilently(f: DefConstraint, c: DefConstraint) returns (def: map<string, J>)
    requires Restates(f, c) && !EnforcedAsStated(f, c)
    ensures Passes(def, [f, c]) && !Satisfies(def, c)
  {
    hide CountFits, Narrower, AllDistinct, Within, Passes;
    RestatesCleanly(f, c);
    var list;
    if c.shape == Unique {
      list := RepeatPasses(f, c);
    } else if !Narrower(f.filter, c.filter) && c.min.GetOr(0.0) > 0.0 {
      list := TooFewPass(f, c);
    } else {
      list := TooManyPass(f, c);
    }
    def := ListPlaced(c.path, list);
  }

  ghost predicate RestatedIn(rules: seq<DefConstraint>, k: nat, f: DefConstraint, c: DefConstraint) {
    k < |rules| && rules[k] == c && FirstFloor(rules[..k], c.id) == Some(f)
  }

  /**
   * A restatement the fold accepts is enforced as stated, in every lineage and for every definition that
   * passes, if and only if `EnforcedAsStated`. Otherwise a definition passes that breaks it.
   */
  lemma RestatementEnforced(f: DefConstraint, c: DefConstraint)
    requires Restates(f, c)
    ensures EnforcedAsStated(f, c) <==>
      forall def, rules, k: nat :: RestatedIn(rules, k, f, c) && Passes(def, rules) ==> Satisfies(def, c)
  {
    hide Satisfies, EnforcedAsStated, MergeFloor, MeetsRestated;
    RestatesCleanly(f, c);
    if EnforcedAsStated(f, c) {
      forall def, rules, k: nat | RestatedIn(rules, k, f, c) && Passes(def, rules) ensures Satisfies(def, c) {
        DemandsRestated(def, rules, k);
        PairEnforced(def, f, c);
      }
    } else {
      var def := DroppedSilently(f, c);
      assert RestatedIn([f, c], 1, f, c);
    }
  }

  /** One input: a count of all fields restated as a count of title fields lets a form without a title pass. */
  lemma RestatedFilterIsIgnored() returns (def: map<string, J>)
    ensures
      var f := DefConstraint("x", Floor, Cardinality, "fields", None, None, None, None, None, None, None);
      var c := f.(filter := Some(Where("role", Some(JStr("title")))), min := Some(1.0));
      Restates(f, c) && Passes(def, [f, c]) && !Satisfies(def, c)
  {
    hide Satisfies, Passes;
    var f := DefConstraint("x", Floor, Cardinality, "fields", None, None, None, None, None, None, None);
    var c := f.(filter := Some(Where("role", Some(JStr("title")))), min := Some(1.0));
    assert !Blank("x") by { assert !IsSpace("x"[0]); }
    assert !Blank("fields") by { assert !IsSpace("fields"[0]); }
    assert [f][..0] == [] && [f, c][..1] == [f];
    assert FoldRules([f]) == Step(START, f);
    assert FoldRules([f, c]) == Step(FoldRules([f]), c);
    assert LeastCount(Some(1.0)) == 1;
    def := DroppedSilently(f, c);
  }
}
