/** When folding a lineage reports a relaxed floor, and what it then says, told by the rules alone. */
module FloorRelaxations {
  import opened Options
  import opened Json
  import opened OrderedMaps
  import opened DefConstraints

  /** The rules of one id from the one that introduces it as a floor on. */
  function Governing(rules: seq<DefConstraint>, id: string): seq<DefConstraint> {
    if rules == [] then []
    else
      var front, c := Governing(rules[..|rules| - 1], id), rules[|rules| - 1];
      if c.id == id && (front != [] || c.kind == Floor) then front + [c] else front
  }

  /** What `e` lists is a limit: it lists something, or it introduces the floor and so allows nothing else. */
  predicate Limits(list: Option<seq<J>>, introduces: bool) {
    list.Some? || introduces
  }

  predicate Within(list: Option<seq<J>>, limit: Option<seq<J>>) {
    list.Some? ==> forall x :: x in list.value ==> x in limit.GetOr([])
  }

  /** Rule `j` of one id's rules is no looser than rule `k`. */
  predicate Tightens(g: seq<DefConstraint>, k: nat, j: nat)
    requires k < |g| && j < |g|
  {
    var c, e := g[j], g[k];
    && c.kind == Floor && c.shape == e.shape && c.path == e.path
    && (c.max.Some? && e.max.Some? ==> c.max.value <= e.max.value)
    && (c.min.Some? && e.min.Some? ==> c.min.value >= e.min.value)
    && (c.shape == Unique && Limits(e.except, k == 0) ==> Within(c.except, e.except))
    && (c.shape == Enum && Limits(e.values, k == 0) ==> Within(c.values, e.values))
  }

  /** Every rule is no looser than any before it. */
  ghost predicate OnlyTightens(g: seq<DefConstraint>) {
    forall k, j :: 0 <= k < j < |g| ==> Tightens(g, k, j)
  }

  // ---------------------------------------------------------------------------------------------
  // What the fold holds after tightening only

  /** `m` is the least of the upper bounds given. */
  ghost predicate LeastMax(g: seq<DefConstraint>, m: Option<real>) {
    && (forall k :: 0 <= k < |g| && g[k].max.Some? ==> m.Some? && m.value <= g[k].max.value)
    && (m.Some? ==> exists k :: 0 <= k < |g| && g[k].max == m)
  }

  ghost predicate GreatestMin(g: seq<DefConstraint>, m: Option<real>) {
    && (forall k :: 0 <= k < |g| && g[k].min.Some? ==> m.Some? && m.value >= g[k].min.value)
    && (m.Some? ==> exists k :: 0 <= k < |g| && g[k].min == m)
  }

  /** `l` is the last exception list given, or the introducing rule's, and within every one that limits it. */
  ghost predicate LastExcept(g: seq<DefConstraint>, l: Option<seq<J>>) {
    && (exists k :: 0 <= k < |g| && Limits(g[k].except, k == 0) && g[k].except == l)
    && (forall k, x :: 0 <= k < |g| && Limits(g[k].except, k == 0) && x in l.GetOr([]) ==> x in g[k].except.GetOr([]))
  }

  ghost predicate LastValues(g: seq<DefConstraint>, l: Option<seq<J>>) {
    && (exists k :: 0 <= k < |g| && Limits(g[k].values, k == 0) && g[k].values == l)
    && (forall k, x :: 0 <= k < |g| && Limits(g[k].values, k == 0) && x in l.GetOr([]) ==> x in g[k].values.GetOr([]))
  }

  ghost predicate Holds(g: seq<DefConstraint>, p: DefConstraint) {
    && g != []
    && p.kind == Floor && p.shape == g[0].shape && p.path == g[0].path
    && (forall k :: 0 <= k < |g| ==> g[k].shape == p.shape && g[k].path == p.path)
    && LeastMax(g, p.max) && GreatestMin(g, p.min)
    && (p.shape == Unique ==> LastExcept(g, p.except))
    && (p.shape == Enum ==> LastValues(g, p.values))
  }

  /** The fold takes the rule without complaint. */
  predicate Accepts(p: DefConstraint, c: DefConstraint) {
    c.kind == Floor && c.shape == p.shape && c.path == p.path && MergeFloor(p, c).1 == []
  }

  lemma AcceptsParts(p: DefConstraint, c: DefConstraint)
    ensures Accepts(p, c) <==>
      && c.kind == Floor && c.shape == p.shape && c.path == p.path
      && MergeMax(p, c).1 == [] && MergeMin(p, c).1 == [] && MergeExcept(p, c).1 == [] && MergeValues(p, c).1 == []
    ensures var m := MergeFloor(p, c).0;
      && m == p.(max := m.max, min := m.min, except := m.except, values := m.values)
      && m.max == MergeMax(p, c).0 && m.min == MergeMin(p, c).0
      && m.except == MergeExcept(p, c).0 && m.values == MergeValues(p, c).0
  {
    hide MergeMax, MergeMin, MergeExcept, MergeValues;
    var a, b, d, e := MergeMax(p, c).1, MergeMin(p, c).1, MergeExcept(p, c).1, MergeValues(p, c).1;
    assert a + b + d + e == [] <==> a == [] && b == [] && d == [] && e == [];
  }

  ghost predicate MaxFits(g: seq<DefConstraint>, c: DefConstraint) {
    forall k :: 0 <= k < |g| && c.max.Some? && g[k].max.Some? ==> c.max.value <= g[k].max.value
  }

  ghost predicate MinFits(g: seq<DefConstraint>, c: DefConstraint) {
    forall k :: 0 <= k < |g| && c.min.Some? && g[k].min.Some? ==> c.min.value >= g[k].min.value
  }

  ghost predicate ExceptFits(g: seq<DefConstraint>, c: DefConstraint) {
    c.shape == Unique ==> forall k :: 0 <= k < |g| && Limits(g[k].except, k == 0) ==> Within(c.except, g[k].except)
  }

  ghost predicate ValuesFit(g: seq<DefConstraint>, c: DefConstraint) {
    c.shape == Enum ==> forall k :: 0 <= k < |g| && Limits(g[k].values, k == 0) ==> Within(c.values, g[k].values)
  }

  lemma MaxStep(g: seq<DefConstraint>, p: DefConstraint, c: DefConstraint)
    requires LeastMax(g, p.max)
    ensures MergeMax(p, c).1 == [] <==> MaxFits(g, c)
    ensures MergeMax(p, c).1 == [] || MergeMax(p, c).1 == [RaisedMax(c.id)]
    ensures MaxFits(g, c) ==> LeastMax(g + [c], MergeMax(p, c).0)
  {
    var more := g + [c];
    assert more[|g|] == c && forall k :: 0 <= k < |g| ==> more[k] == g[k];
    if p.max.Some? {
      var k :| 0 <= k < |g| && g[k].max == p.max;
      assert more[k].max == p.max;
    }
  }

  lemma MinStep(g: seq<DefConstraint>, p: DefConstraint, c: DefConstraint)
    requires GreatestMin(g, p.min)
    ensures MergeMin(p, c).1 == [] <==> MinFits(g, c)
    ensures MergeMin(p, c).1 == [] || MergeMin(p, c).1 == [LoweredMin(c.id)]
    ensures MinFits(g, c) ==> GreatestMin(g + [c], MergeMin(p, c).0)
  {
    var more := g + [c];
    assert more[|g|] == c && forall k :: 0 <= k < |g| ==> more[k] == g[k];
    if p.min.Some? {
      var k :| 0 <= k < |g| && g[k].min == p.min;
      assert more[k].min == p.min;
    }
  }

  lemma {:induction false} MissingMembers(list: seq<J>, allowed: seq<J>)
    ensures forall x :: x in Missing(list, allowed) <==> x in list && x !in allowed
    decreases |list|
  {
    if list != [] {
      MissingMembers(list[..|list| - 1], allowed);
      assert list == list[..|list| - 1] + [list[|list| - 1]];
    }
  }

  lemma ExceptStep(g: seq<DefConstraint>, p: DefConstraint, c: DefConstraint)
    requires g != [] && p.shape == c.shape && (p.shape == Unique ==> LastExcept(g, p.except))
    ensures MergeExcept(p, c).1 == [] <==> ExceptFits(g, c)
    ensures MergeExcept(p, c).1 != [] ==>
      && c.shape == Unique && c.except.Some?
      && MergeExcept(p, c).1 == [AddedException(c.id, Missing(c.except.value, p.except.GetOr([])))]
    ensures p.shape == Unique && ExceptFits(g, c) ==> LastExcept(g + [c], MergeExcept(p, c).0)
  {
    if c.shape == Unique {
      var more := g + [c];
      assert more[|g|] == c && forall k :: 0 <= k < |g| ==> more[k] == g[k];
      var k :| 0 <= k < |g| && Limits(g[k].except, k == 0) && g[k].except == p.except;
      assert Limits(more[k].except, k == 0) && more[k].except == p.except;
      if c.except.Some? {
        MissingMembers(c.except.value, p.except.GetOr([]));
        NothingMissing(c.except.value, p.except.GetOr([]));
        assert Limits(more[|g|].except, |g| == 0);
      }
    }
  }

  lemma ValuesStep(g: seq<DefConstraint>, p: DefConstraint, c: DefConstraint)
    requires g != [] && p.shape == c.shape && (p.shape == Enum ==> LastValues(g, p.values))
    ensures MergeValues(p, c).1 == [] <==> ValuesFit(g, c)
    ensures MergeValues(p, c).1 != [] ==>
      && c.shape == Enum && c.values.Some?
      && MergeValues(p, c).1 == [AddedValue(c.id, Missing(c.values.value, p.values.GetOr([])))]
    ensures p.shape == Enum && ValuesFit(g, c) ==> LastValues(g + [c], MergeValues(p, c).0)
  {
    if c.shape == Enum {
      var more := g + [c];
      assert more[|g|] == c && forall k :: 0 <= k < |g| ==> more[k] == g[k];
      var k :| 0 <= k < |g| && Limits(g[k].values, k == 0) && g[k].values == p.values;
      assert Limits(more[k].values, k == 0) && more[k].values == p.values;
      if c.values.Some? {
        MissingMembers(c.values.value, p.values.GetOr([]));
        NothingMissing(c.values.value, p.values.GetOr([]));
        assert Limits(more[|g|].values, |g| == 0);
      }
    }
  }

  ghost predicate Fits(g: seq<DefConstraint>, c: DefConstraint)
    requires g != []
  {
    && c.kind == Floor && c.shape == g[0].shape && c.path == g[0].path
    && MaxFits(g, c) && MinFits(g, c) && ExceptFits(g, c) && ValuesFit(g, c)
  }

  lemma AcceptsIffFits(g: seq<DefConstraint>, p: DefConstraint, c: DefConstraint)
    requires Holds(g, p)
    ensures Accepts(p, c) <==> Fits(g, c)
    ensures Fits(g, c) ==> Holds(g + [c], MergeFloor(p, c).0)
  {
    hide Accepts, MergeFloor, MergeMax, MergeMin, MergeExcept, MergeValues, LeastMax, GreatestMin, LastExcept, LastValues;
    hide MaxFits, MinFits, ExceptFits, ValuesFit;
    AcceptsParts(p, c);
    MaxStep(g, p, c);
    MinStep(g, p, c);
    if c.shape == p.shape {
      ExceptStep(g, p, c);
      ValuesStep(g, p, c);
    }
    assert forall k :: 0 <= k < |g| + 1 ==> (g + [c])[k] == if k < |g| then g[k] else c;
  }

  lemma FitsIsTightens(g: seq<DefConstraint>, c: DefConstraint)
    requires g != [] && forall k :: 0 <= k < |g| ==> g[k].shape == g[0].shape && g[k].path == g[0].path
    ensures Fits(g, c) <==> forall k :: 0 <= k < |g| ==> Tightens(g + [c], k, |g|)
  {
    var more := g + [c];
    assert more[|g|] == c && forall k :: 0 <= k < |g| ==> more[k] == g[k];
    hide Within, Limits;
    if forall k :: 0 <= k < |g| ==> Tightens(more, k, |g|) {
      assert Tightens(more, 0, |g|);
      forall k | 0 <= k < |g| ensures
        && (c.max.Some? && g[k].max.Some? ==> c.max.value <= g[k].max.value)
        && (c.min.Some? && g[k].min.Some? ==> c.min.value >= g[k].min.value)
        && (c.shape == Unique && Limits(g[k].except, k == 0) ==> Within(c.except, g[k].except))
        && (c.shape == Enum && Limits(g[k].values, k == 0) ==> Within(c.values, g[k].values))
      {
        assert Tightens(more, k, |g|);
      }
    }
  }

  lemma PrefixTightens(g: seq<DefConstraint>, c: DefConstraint)
    ensures OnlyTightens(g + [c]) <==> OnlyTightens(g) && forall k :: 0 <= k < |g| ==> Tightens(g + [c], k, |g|)
  {
    var more := g + [c];
    forall k, j | 0 <= k < j < |g| ensures Tightens(g, k, j) <==> Tightens(more, k, j) {
      assert more[k] == g[k] && more[j] == g[j];
    }
    if OnlyTightens(more) {
      forall k, j | 0 <= k < j < |g| ensures Tightens(g, k, j) { assert Tightens(more, k, j); }
    }
    if OnlyTightens(g) && forall k :: 0 <= k < |g| ==> Tightens(more, k, |g|) {
      forall k, j | 0 <= k < j < |more| ensures Tightens(more, k, j) {
        if j < |g| { assert Tightens(g, k, j); }
      }
    }
  }

  /** An introducing rule alone holds. */
  lemma AloneHolds(c: DefConstraint)
    requires c.kind == Floor
    ensures Holds([c], c) && OnlyTightens([c])
  {
    assert [c][0] == c;
  }

  // ---------------------------------------------------------------------------------------------
  // The whole fold

  /** Nothing of any id is relaxed. */
  ghost predicate NothingRelaxed(rules: seq<DefConstraint>) {
    forall id :: OnlyTightens(Governing(rules, id))
  }

  /** What the fold holds under an id. */
  ghost predicate Held(rules: seq<DefConstraint>, id: string) {
    var g, at := Governing(rules, id), FoldRules(rules).byId.at;
    if g == [] then id !in at || at[id].kind != Floor else id in at && Holds(g, at[id])
  }

  lemma GoverningNext(front: seq<DefConstraint>, c: DefConstraint, id: string)
    ensures Governing(front + [c], id) ==
      if c.id == id && (Governing(front, id) != [] || c.kind == Floor) then Governing(front, id) + [c] else Governing(front, id)
  {
    assert (front + [c])[..|front|] == front;
  }

  lemma FoldNext(front: seq<DefConstraint>, c: DefConstraint)
    ensures FoldRules(front + [c]) == Step(FoldRules(front), c)
  {
    assert (front + [c])[..|front|] == front;
  }

  /** One step: it complains exactly if the rule does not fit those governing its id. */
  lemma StepHolds(front: seq<DefConstraint>, c: DefConstraint)
    requires FoldRules(front).errors == [] && forall id :: Held(front, id)
    ensures Step(FoldRules(front), c).errors == [] <==> Governing(front, c.id) == [] || Fits(Governing(front, c.id), c)
    ensures Step(FoldRules(front), c).errors == [] ==> forall id :: Held(front + [c], id)
  {
    var g, st := Governing(front, c.id), FoldRules(front);
    hide Holds, Fits, Accepts, MergeFloor, Governing, FoldRules;
    FoldNext(front, c);
    assert Held(front, c.id);
    if g == [] {
      if c.kind == Floor { AloneHolds(c); }
    } else {
      AcceptsIffFits(g, st.byId.at[c.id], c);
      HoldsFloor(g, st.byId.at[c.id]);
      StepAccepts(st, c);
    }
    if Step(st, c).errors == [] {
      forall id ensures Held(front + [c], id) {
        GoverningNext(front, c, id);
        assert Held(front, id);
        assert [] + [c] == [c];
      }
    }
  }

  lemma HoldsFloor(g: seq<DefConstraint>, p: DefConstraint)
    requires Holds(g, p)
    ensures p.kind == Floor
  {
  }

  lemma StepAccepts(st: Folding, c: DefConstraint)
    requires st.errors == [] && c.id in st.byId.at && st.byId.at[c.id].kind == Floor
    ensures Step(st, c).errors == [] <==> Accepts(st.byId.at[c.id], c)
    ensures Accepts(st.byId.at[c.id], c) ==>
      Step(st, c).byId == Set(st.byId, c.id, MergeFloor(st.byId.at[c.id], c).0)
  {
    hide MergeFloor;
  }

  lemma HoldsSameShape(g: seq<DefConstraint>, p: DefConstraint)
    requires Holds(g, p)
    ensures forall k :: 0 <= k < |g| ==> g[k].shape == g[0].shape && g[k].path == g[0].path
  {
  }

  lemma {:induction false} FoldCleanIff(rules: seq<DefConstraint>)
    ensures FoldRules(rules).errors == [] <==> NothingRelaxed(rules)
    ensures FoldRules(rules).errors == [] ==> forall id :: Held(rules, id)
    decreases |rules|
  {
    hide Holds, Fits, Step, OnlyTightens;
    if rules == [] {
      forall id ensures OnlyTightens(Governing(rules, id)) { NoneTighten(); }
    } else {
      var front, c := rules[..|rules| - 1], rules[|rules| - 1];
      assert rules == front + [c];
      FoldCleanIff(front);
      FoldNext(front, c);
      ErrorsStay(FoldRules(front), c);
      forall id ensures OnlyTightens(Governing(rules, id)) ==> OnlyTightens(Governing(front, id)) {
        GoverningNext(front, c, id);
        PrefixTightens(Governing(front, id), c);
      }
      if FoldRules(front).errors == [] {
        StepHolds(front, c);
        NextRelaxes(front, c);
      } else {
        StillRelaxed(front, c);
      }
    }
  }

  lemma NoneTighten()
    ensures OnlyTightens([])
  {
  }

  lemma ErrorsStay(st: Folding, c: DefConstraint)
    ensures st.errors <= Step(st, c).errors
  {
    hide MergeFloor;
  }

  lemma StillRelaxed(front: seq<DefConstraint>, c: DefConstraint)
    requires !NothingRelaxed(front)
    ensures !NothingRelaxed(front + [c])
  {
    hide OnlyTightens;
    var id :| !OnlyTightens(Governing(front, id));
    GoverningNext(front, c, id);
    PrefixTightens(Governing(front, id), c);
    assert !OnlyTightens(Governing(front + [c], id));
  }

  lemma NextRelaxes(front: seq<DefConstraint>, c: DefConstraint)
    requires NothingRelaxed(front) && forall id :: Held(front, id)
    ensures NothingRelaxed(front + [c]) <==> Governing(front, c.id) == [] || Fits(Governing(front, c.id), c)
  {
    var g := Governing(front, c.id);
    hide OnlyTightens, Fits, Holds, Governing;
    GoverningNext(front, c, c.id);
    assert OnlyTightens(g) && Held(front, c.id);
    PrefixTightens(g, c);
    if g == [] {
      assert [] + [c] == [c];
    } else {
      HoldsSameShape(g, FoldRules(front).byId.at[c.id]);
      FitsIsTightens(g, c);
    }
    forall id | id != c.id ensures OnlyTightens(Governing(front + [c], id)) {
      GoverningNext(front, c, id);
      assert OnlyTightens(Governing(front, id));
    }
    if g == [] || Fits(g, c) {
      forall id ensures OnlyTightens(Governing(front + [c], id)) {
        if id == c.id && g == [] { NoneTighten(); }
      }
    }
    if NothingRelaxed(front + [c]) { assert OnlyTightens(Governing(front + [c], c.id)); }
  }

  /**
   * Folding a lineage reports no relaxed floor if and only if, of every id, each rule from the one that
   * introduces the floor on is a floor of the same shape and path and no looser than any before it.
   */
  lemma CleanIffNothingRelaxed(perNode: seq<seq<J>>)
    ensures FoldRules(LineageRules(perNode)).errors == [] <==> NothingRelaxed(LineageRules(perNode))
  {
    FoldCleanIff(LineageRules(perNode));
  }

  /** What the fold must say of the first rule that does not fit. */
  ghost predicate Complains(g: seq<DefConstraint>, c: DefConstraint, errors: seq<FoldError>)
    requires g != []
  {
    if c.kind != Floor then errors == [DroppedToPolicy(c.id)]
    else if c.shape != g[0].shape || c.path != g[0].path then errors == [Redefined(c.id)]
    else
      && (RaisedMax(c.id) in errors <==> !MaxFits(g, c))
      && (LoweredMin(c.id) in errors <==> !MinFits(g, c))
      && ((exists added :: AddedException(c.id, added) in errors) <==> !ExceptFits(g, c))
      && ((exists added :: AddedValue(c.id, added) in errors) <==> !ValuesFit(g, c))
      && (forall e :: e in errors ==> Names(g, c, e))
  }

  /** The error is one of the four, names the rule and, for a list, exactly what some earlier limit does not allow. */
  ghost predicate Names(g: seq<DefConstraint>, c: DefConstraint, e: FoldError) {
    match e
    case RaisedMax(id) => id == c.id
    case LoweredMin(id) => id == c.id
    case AddedException(id, added) =>
      id == c.id && c.except.Some? && forall x :: x in added <==>
        x in c.except.value && exists k :: 0 <= k < |g| && Limits(g[k].except, k == 0) && x !in g[k].except.GetOr([])
    case AddedValue(id, added) =>
      id == c.id && c.values.Some? && forall x :: x in added <==>
        x in c.values.value && exists k :: 0 <= k < |g| && Limits(g[k].values, k == 0) && x !in g[k].values.GetOr([])
    case _ => false
  }

  /** The first rule that relaxes its floor is reported under its id with every cause, and the report stays. */
  lemma FirstOffenderIsNamed(rules: seq<DefConstraint>, j: nat)
    requires j < |rules| && NothingRelaxed(rules[..j]) && !NothingRelaxed(rules[..j + 1])
    ensures Governing(rules[..j], rules[j].id) != []
    ensures Complains(Governing(rules[..j], rules[j].id), rules[j], FoldRules(rules[..j + 1]).errors)
    ensures FoldRules(rules[..j + 1]).errors != [] && FoldRules(rules[..j + 1]).errors <= FoldRules(rules).errors
  {
    hide *;
    assert rules[..j + 1] == rules[..j] + [rules[j]];
    OffenderIsNamed(rules[..j], rules[j]);
    ErrorsKept(rules, j + 1);
  }

  lemma OffenderIsNamed(front: seq<DefConstraint>, c: DefConstraint)
    requires NothingRelaxed(front) && !NothingRelaxed(front + [c])
    ensures Governing(front, c.id) != []
    ensures Complains(Governing(front, c.id), c, FoldRules(front + [c]).errors)
    ensures FoldRules(front + [c]).errors != []
  {
    hide *;
    var st, g := FoldRules(front), Governing(front, c.id);
    FoldCleanIff(front + [c]);
    FoldNext(front, c);
    CleanFold(front, c.id);
    if g == [] {
      CleanStepHolds(front, c);
    } else {
      HeldFloor(front, c.id);
      StepComplains(st, g, c);
    }
  }

  lemma CleanFold(rules: seq<DefConstraint>, id: string)
    requires NothingRelaxed(rules)
    ensures FoldRules(rules).errors == [] && Held(rules, id)
  {
    hide *;
    FoldCleanIff(rules);
  }

  lemma CleanStepHolds(front: seq<DefConstraint>, c: DefConstraint)
    requires NothingRelaxed(front) && Governing(front, c.id) == []
    ensures Step(FoldRules(front), c).errors == []
  {
    hide *;
    FoldCleanIff(front);
    StepHolds(front, c);
  }

  lemma HeldFloor(rules: seq<DefConstraint>, id: string)
    requires Held(rules, id) && Governing(rules, id) != []
    ensures id in FoldRules(rules).byId.at && Holds(Governing(rules, id), FoldRules(rules).byId.at[id])
  {
    hide Holds;
  }

  lemma {:induction false} ErrorsKept(rules: seq<DefConstraint>, n: nat)
    requires n <= |rules|
    ensures FoldRules(rules[..n]).errors <= FoldRules(rules).errors
    decreases |rules|
  {
    hide Step;
    if n < |rules| {
      var front := rules[..|rules| - 1];
      ErrorsKept(front, n);
      assert front[..n] == rules[..n];
      ErrorsStay(FoldRules(front), rules[|rules| - 1]);
    } else {
      assert rules[..n] == rules;
    }
  }

  lemma StepComplains(st: Folding, g: seq<DefConstraint>, c: DefConstraint)
    requires st.errors == [] && g != [] && c.id in st.byId.at && Holds(g, st.byId.at[c.id])
    ensures Complains(g, c, Step(st, c).errors)
  {
    var p := st.byId.at[c.id];
    hide Complains, MergeMax, MergeMin, MergeExcept, MergeValues, Names, LastExcept, LastValues, LeastMax, GreatestMin;
    if c.kind == Floor && c.shape == p.shape && c.path == p.path {
      var a, b, d, e := MergeMax(p, c).1, MergeMin(p, c).1, MergeExcept(p, c).1, MergeValues(p, c).1;
      assert [] + (a + b + d + e) == a + b + d + e;
      assert Step(st, c).errors == a + b + d + e;
      MergeComplains(g, p, c, a, b, d, e);
    } else {
      Refuses(g, c, Step(st, c).errors);
    }
  }

  lemma Refuses(g: seq<DefConstraint>, c: DefConstraint, errors: seq<FoldError>)
    requires g != []
    requires c.kind != Floor ==> errors == [DroppedToPolicy(c.id)]
    requires c.kind == Floor ==> (c.shape != g[0].shape || c.path != g[0].path) && errors == [Redefined(c.id)]
    ensures Complains(g, c, errors)
  {
  }

  lemma MergeComplains(g: seq<DefConstraint>, p: DefConstraint, c: DefConstraint,
                       a: seq<FoldError>, b: seq<FoldError>, d: seq<FoldError>, e: seq<FoldError>)
    requires Holds(g, p) && c.kind == Floor && c.shape == p.shape && c.path == p.path
    requires a == MergeMax(p, c).1 && b == MergeMin(p, c).1 && d == MergeExcept(p, c).1 && e == MergeValues(p, c).1
    ensures Complains(g, c, a + b + d + e)
  {
    hide MergeMax, MergeMin, MergeExcept, MergeValues, MaxFits, MinFits, ExceptFits, ValuesFit;
    MaxStep(g, p, c);
    MinStep(g, p, c);
    ExceptStep(g, p, c);
    ValuesStep(g, p, c);
    if d != [] { ExceptNamed(g, p, c); }
    if e != [] { ValuesNamed(g, p, c); }
    BoundsNamed(g, c);
    hide LastExcept, LastValues, LeastMax, GreatestMin, Names;
    var all := a + b + d + e;
    assert forall x :: x in all <==> x in a || x in b || x in d || x in e;
  }

  lemma BoundsNamed(g: seq<DefConstraint>, c: DefConstraint)
    ensures Names(g, c, RaisedMax(c.id)) && Names(g, c, LoweredMin(c.id))
  {
  }

  lemma ExceptNamed(g: seq<DefConstraint>, p: DefConstraint, c: DefConstraint)
    requires c.except.Some? && LastExcept(g, p.except)
    ensures Names(g, c, AddedException(c.id, Missing(c.except.value, p.except.GetOr([]))))
  {
    MissingMembers(c.except.value, p.except.GetOr([]));
    var k :| 0 <= k < |g| && Limits(g[k].except, k == 0) && g[k].except == p.except;
  }

  lemma ValuesNamed(g: seq<DefConstraint>, p: DefConstraint, c: DefConstraint)
    requires c.values.Some? && LastValues(g, p.values)
    ensures Names(g, c, AddedValue(c.id, Missing(c.values.value, p.values.GetOr([]))))
  {
    MissingMembers(c.values.value, p.values.GetOr([]));
    var k :| 0 <= k < |g| && Limits(g[k].values, k == 0) && g[k].values == p.values;
  }
}
