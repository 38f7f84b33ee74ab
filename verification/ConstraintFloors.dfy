/** What a clean fold guarantees: floors hold as introduced, tightenings add up, policies are child-wins. */
module ConstraintFloors {
  import opened Options
  import opened Json
  import opened OrderedMaps
  import opened DefConstraints
  import opened ConstraintEvaluation

  /** The node that introduces a floor: the first rule of that id declared as one. */
  function FirstFloor(rules: seq<DefConstraint>, id: string): Option<DefConstraint> {
    if rules == [] then None
    else
      var front, last := FirstFloor(rules[..|rules| - 1], id), rules[|rules| - 1];
      if front.Some? then front
      else if last.id == id && last.kind == Floor then Some(last)
      else None
  }

  /**
   * What a floor demands when a descendant states it again: its own bounds, read with the introducing
   * node's element filter and keying field. A `unique` floor that lists no exceptions adds nothing.
   */
  ghost predicate MeetsRestated(def: map<string, J>, c: DefConstraint, f: DefConstraint) {
    (c.shape == Unique && c.except.None?) || Satisfies(def, c.(filter := f.filter, field := f.field))
  }

  /**
   * The rules of one id, read without folding: before a floor appears the latest policy counts; from
   * then on the floor and every restatement of it.
   */
  ghost predicate Demands(def: map<string, J>, rules: seq<DefConstraint>, id: string) {
    rules != [] ==>
      var front, c := rules[..|rules| - 1], rules[|rules| - 1];
      var f := FirstFloor(front, id);
      if c.id != id then Demands(def, front, id)
      else if f.None? then Satisfies(def, c)
      else Demands(def, front, id) && MeetsRestated(def, c, f.value)
  }

  lemma {:induction false} ErrorsAccumulate(rules: seq<DefConstraint>)
    requires rules != [] && FoldRules(rules).errors == []
    ensures FoldRules(rules[..|rules| - 1]).errors == []
  {
    var st, c := FoldRules(rules[..|rules| - 1]), rules[|rules| - 1];
    assert st.errors <= Step(st, c).errors;
  }

  /** What the fold has recorded under an id. */
  lemma {:induction false} FoldRecords(rules: seq<DefConstraint>, id: string)
    ensures var at := FoldRules(rules).byId.at; var f := FirstFloor(rules, id);
      && (id in at <==> exists k :: 0 <= k < |rules| && rules[k].id == id)
      && (f.None? && id in at ==> at[id].kind == Policy)
      && (f.Some? ==>
            && id in at && at[id].kind == Floor
            && at[id].shape == f.value.shape && at[id].path == f.value.path
            && at[id].filter == f.value.filter && at[id].field == f.value.field)
    decreases |rules|
  {
    hide Step;
    if rules != [] {
      var front, c := rules[..|rules| - 1], rules[|rules| - 1];
      FoldRecords(front, id);
      StepRecords(FoldRules(front), c, id);
      assert forall k :: 0 <= k < |front| ==> front[k] == rules[k];
    }
  }

  /** A step files a rule under its own id; one filed as a floor keeps what it speaks of. */
  lemma StepRecords(st: Folding, c: DefConstraint, id: string)
    ensures var at, now := st.byId.at, Step(st, c).byId.at;
      && (id in now <==> id in at || c.id == id)
      && (c.id != id && id in at ==> now[id] == at[id])
      && (c.id == id && (id !in at || at[id].kind != Floor) ==> now[id] == c)
      && (c.id == id && id in at && at[id].kind == Floor ==>
            && now[id].kind == Floor && now[id].shape == at[id].shape && now[id].path == at[id].path
            && now[id].filter == at[id].filter && now[id].field == at[id].field)
  {
  }

  lemma FewerExceptionsAreStricter(list: seq<J>, field: string, few: seq<J>, many: seq<J>)
    requires AllDistinct(list, field, few) && forall x :: x in few ==> x in many
    ensures AllDistinct(list, field, many)
  {
    forall i, j | 0 <= i < j < |list| && Tracked(list[i], field, many).Some?
      ensures Tracked(list[i], field, many) != Tracked(list[j], field, many)
    {
      assert Tracked(list[i], field, few) == Tracked(list[i], field, many);
    }
  }

  /** A merge without complaint means exactly both rules together. */
  lemma MergeConjoins(def: map<string, J>, prior: DefConstraint, c: DefConstraint)
    requires c.kind == Floor && c.shape == prior.shape && c.path == prior.path
    requires MergeFloor(prior, c).1 == []
    requires WellFormed(c)
    ensures Satisfies(def, MergeFloor(prior, c).0) <==> Satisfies(def, prior) && MeetsRestated(def, c, prior)
  {
    var merged := MergeFloor(prior, c).0;
    assert MergeMax(prior, c).1 == [] && MergeMin(prior, c).1 == []
      && MergeExcept(prior, c).1 == [] && MergeValues(prior, c).1 == [];
    match c.shape
    case Cardinality => WithinBoth(Count(ListAt(def, c.path), prior.filter) as real, prior, c);
    case Bound =>
      var v := GetPath(def, c.path);
      if v.Some? && v.value.JNum? { WithinBoth(v.value.n, prior, c); }
    case Unique =>
      if c.except.Some? {
        NothingMissing(c.except.value, prior.except.GetOr([]));
        var list, field := ListAt(def, c.path), prior.field.GetOr("");
        if AllDistinct(list, field, c.except.value) {
          FewerExceptionsAreStricter(list, field, c.except.value, prior.except.GetOr([]));
        }
      }
    case Enum => NothingMissing(c.values.value, prior.values.GetOr([]));
  }

  lemma WithinBoth(n: real, prior: DefConstraint, c: DefConstraint)
    requires MergeMax(prior, c).1 == [] && MergeMin(prior, c).1 == []
    ensures Within(n, MergeMin(prior, c).0, MergeMax(prior, c).0) <==>
      Within(n, prior.min, prior.max) && Within(n, c.min, c.max)
  {
  }

  /** After a clean fold, an id's effective rule says exactly what its rules demand down the lineage. */
  lemma {:induction false} EffectiveMeaning(def: map<string, J>, rules: seq<DefConstraint>, id: string)
    requires forall k :: 0 <= k < |rules| ==> WellFormed(rules[k])
    requires FoldRules(rules).errors == []
    ensures var at := FoldRules(rules).byId.at;
      (id in at ==> Satisfies(def, at[id])) <==> Demands(def, rules, id)
    decreases |rules|
  {
    hide Satisfies, WellFormed, MergeFloor;
    if rules != [] {
      var front, c := rules[..|rules| - 1], rules[|rules| - 1];
      ErrorsAccumulate(rules);
      EffectiveMeaning(def, front, id);
      FoldRecords(front, id);
      if c.id == id {
        StepMeaning(def, rules);
      }
    }
  }

  lemma StepMeaning(def: map<string, J>, rules: seq<DefConstraint>)
    requires rules != [] && FoldRules(rules).errors == [] && WellFormed(rules[|rules| - 1])
    ensures var front, c := rules[..|rules| - 1], rules[|rules| - 1];
      var before, after, f := FoldRules(front).byId.at, FoldRules(rules).byId.at, FirstFloor(front, c.id);
      && c.id in after
      && (f.None? ==> after[c.id] == c)
      && (f.Some? ==> c.id in before)
      && (f.Some? ==> (Satisfies(def, after[c.id]) <==> Satisfies(def, before[c.id]) && MeetsRestated(def, c, f.value)))
  {
    hide Satisfies;
    var front, c := rules[..|rules| - 1], rules[|rules| - 1];
    ErrorsAccumulate(rules);
    FoldRecords(front, c.id);
    var f := FirstFloor(front, c.id);
    if f.Some? {
      var prior := FoldRules(front).byId.at[c.id];
      CleanStep(FoldRules(front), c);
      MergeConjoins(def, prior, c);
    }
  }

  lemma CleanStep(st: Folding, c: DefConstraint)
    requires Step(st, c).errors == [] && c.id in st.byId.at && st.byId.at[c.id].kind == Floor
    ensures c.kind == Floor && c.shape == st.byId.at[c.id].shape && c.path == st.byId.at[c.id].path
    ensures MergeFloor(st.byId.at[c.id], c).1 == []
    ensures Step(st, c).byId.at[c.id] == MergeFloor(st.byId.at[c.id], c).0
  {
    hide MergeFloor;
  }

  /** The rule at `k` introduces a floor: no earlier rule of its id is one. */
  predicate Introduces(rules: seq<DefConstraint>, k: nat)
    requires k < |rules|
  {
    rules[k].kind == Floor && forall j :: 0 <= j < k && rules[j].id == rules[k].id ==> rules[j].kind != Floor
  }

  lemma {:induction false} IntroducedIsFirst(rules: seq<DefConstraint>, k: nat)
    requires k < |rules| && Introduces(rules, k)
    ensures FirstFloor(rules[..k], rules[k].id).None?
    ensures FirstFloor(rules, rules[k].id) == Some(rules[k])
    decreases |rules|
  {
    NoFloorYet(rules[..k], rules[k].id);
    if k < |rules| - 1 {
      var front := rules[..|rules| - 1];
      IntroducedIsFirst(front, k);
      assert front[..k] == rules[..k];
    } else {
      assert rules[..k] == rules[..|rules| - 1];
    }
  }

  lemma {:induction false} NoFloorYet(rules: seq<DefConstraint>, id: string)
    requires forall j :: 0 <= j < |rules| && rules[j].id == id ==> rules[j].kind != Floor
    ensures FirstFloor(rules, id).None?
    decreases |rules|
  {
    if rules != [] { NoFloorYet(rules[..|rules| - 1], id); }
  }

  /** What is demanded of an id includes the floor exactly as its introducing node stated it. */
  lemma {:induction false} DemandsFloor(def: map<string, J>, rules: seq<DefConstraint>, k: nat)
    requires k < |rules| && Introduces(rules, k) && Demands(def, rules, rules[k].id)
    ensures Satisfies(def, rules[k])
    decreases |rules|
  {
    hide Satisfies;
    IntroducedIsFirst(rules, k);
    if k < |rules| - 1 {
      var front := rules[..|rules| - 1];
      IntroducedIsFirst(front, k);
      DemandsFloor(def, front, k);
    }
  }

  /** What is demanded of an id includes each restatement, read as `MeetsRestated` says. */
  lemma {:induction false} DemandsRestated(def: map<string, J>, rules: seq<DefConstraint>, k: nat)
    requires k < |rules| && Demands(def, rules, rules[k].id)
    requires FirstFloor(rules[..k], rules[k].id).Some?
    ensures MeetsRestated(def, rules[k], FirstFloor(rules[..k], rules[k].id).value)
    ensures Satisfies(def, FirstFloor(rules[..k], rules[k].id).value)
    decreases |rules|
  {
    hide Satisfies, MeetsRestated;
    var front := rules[..|rules| - 1];
    if k < |rules| - 1 {
      assert front[..k] == rules[..k];
      FirstFloorStays(front, rules[k].id, k);
      DemandsRestated(def, front, k);
    } else {
      assert rules[..k] == front;
      FirstFloorDemanded(def, front, rules[k].id);
    }
  }

  lemma {:induction false} FirstFloorDemanded(def: map<string, J>, rules: seq<DefConstraint>, id: string)
    requires Demands(def, rules, id) && FirstFloor(rules, id).Some?
    ensures Satisfies(def, FirstFloor(rules, id).value)
    decreases |rules|
  {
    hide Satisfies, MeetsRestated;
    if FirstFloor(rules[..|rules| - 1], id).Some? {
      FirstFloorDemanded(def, rules[..|rules| - 1], id);
    }
  }

  lemma {:induction false} FirstFloorStays(rules: seq<DefConstraint>, id: string, k: nat)
    requires k <= |rules| && FirstFloor(rules[..k], id).Some?
    ensures FirstFloor(rules, id) == FirstFloor(rules[..k], id)
    decreases |rules|
  {
    if k < |rules| {
      assert rules[..|rules| - 1][..k] == rules[..k];
      FirstFloorStays(rules[..|rules| - 1], id, k);
    } else {
      assert rules[..k] == rules;
    }
  }

  // ---------------------------------------------------------------------------------------------
  // The composed-whole check

  datatype CompositionError = Relaxed(relaxed: FoldError) | Violated(violated: Violation)

  method ComposedConstraintErrors(def: map<string, J>, perNode: seq<seq<J>>) returns (errors: seq<CompositionError>)
    ensures errors == [] <==> Passes(def, LineageRules(perNode))
    ensures |errors| == |FoldRules(LineageRules(perNode)).errors| + |AllViolations(def, Effective(LineageRules(perNode)))|
  {
    var effective, relaxed := FoldConstraints(perNode);
    var violated := EvaluateConstraints(def, effective);
    errors := seq(|relaxed|, i requires 0 <= i < |relaxed| => Relaxed(relaxed[i]))
      + seq(|violated|, i requires 0 <= i < |violated| => Violated(violated[i]));
    PassesMeaning(def, perNode);
  }

  function Effective(rules: seq<DefConstraint>): seq<DefConstraint> {
    FoldValid(rules);
    Values(FoldRules(rules).byId)
  }

  /** No floor is relaxed anywhere and every id's demands are met. */
  ghost predicate Passes(def: map<string, J>, rules: seq<DefConstraint>) {
    FoldRules(rules).errors == [] && forall id :: Demands(def, rules, id)
  }

  lemma {:induction false} RulesWellFormed(raws: seq<J>)
    ensures forall k :: 0 <= k < |Rules(raws)| ==> WellFormed(Rules(raws)[k])
    decreases |raws|
  {
    if raws != [] { RulesWellFormed(raws[..|raws| - 1]); }
  }

  lemma {:induction false} LineageWellFormed(perNode: seq<seq<J>>)
    ensures forall k :: 0 <= k < |LineageRules(perNode)| ==> WellFormed(LineageRules(perNode)[k])
    decreases |perNode|
  {
    if perNode != [] {
      LineageWellFormed(perNode[..|perNode| - 1]);
      RulesWellFormed(perNode[|perNode| - 1]);
    }
  }

  lemma PassesMeaning(def: map<string, J>, perNode: seq<seq<J>>)
    ensures var rules := LineageRules(perNode);
      Passes(def, rules) <==> FoldRules(rules).errors == [] && AllViolations(def, Effective(rules)) == []
  {
    hide Satisfies, Demands, AllViolations;
    var rules := LineageRules(perNode);
    var m := FoldRules(rules).byId;
    FoldValid(rules);
    LineageWellFormed(perNode);
    EvaluationMeaning(def, Effective(rules));
    if FoldRules(rules).errors == [] {
      forall id ensures (id in m.at ==> Satisfies(def, m.at[id])) <==> Demands(def, rules, id) {
        EffectiveMeaning(def, rules, id);
      }
      ValuesCover(m);
    }
  }

  lemma ValuesCover(m: OMap<string, DefConstraint>)
    requires ValidMap(m)
    ensures forall c :: c in Values(m) <==> exists id :: id in m.at && m.at[id] == c
  {
    forall c | exists id :: id in m.at && m.at[id] == c ensures c in Values(m) {
      var id :| id in m.at && m.at[id] == c;
      var i :| 0 <= i < |m.keys| && m.keys[i] == id;
      assert Values(m)[i] == c;
    }
  }

  /** Floors survive every lineage: a definition that passes meets each floor as its introducing node stated it. */
  lemma FloorsSurvive(def: map<string, J>, perNode: seq<seq<J>>, k: nat)
    requires Passes(def, LineageRules(perNode))
    requires k < |LineageRules(perNode)| && Introduces(LineageRules(perNode), k)
    ensures Satisfies(def, LineageRules(perNode)[k])
  {
    DemandsFloor(def, LineageRules(perNode), k);
  }
}
