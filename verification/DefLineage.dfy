/** Walking an `extends` chain leaf to root, and composing a definition along it. */
module DefLineage {
  import opened Options
  import opened Json
  import opened DefCompose

  /** A definition: a record with an `id` and, when it is not a root, an `extends`. */
  type Def = map<string, J>

  /** The definitions by the id they are looked up under. */
  type Catalogue = map<string, Def>

  function IdOf(d: Def): string {
    if "id" in d && d["id"].JStr? then d["id"].s else ""
  }

  /** The parent a definition names; an empty `extends` names none. */
  function ExtendsOf(d: Def): Option<string> {
    if "extends" in d && d["extends"].JStr? && d["extends"].s != "" then Some(d["extends"].s) else None
  }

  /** A record is read by its own text: the parent it names is a string that is not empty. */
  lemma NamesAreRead(d: Def, name: string)
    ensures ExtendsOf(d) == Some(name) <==> name != "" && FieldOf(d, "extends") == Some(JStr(name))
    ensures FieldOf(d, "id") == Some(JStr(name)) ==> IdOf(d) == name
  {
  }

  datatype LineageError = ExtendsCycle(at: string) | MissingParent(child: string, parent: string)

  datatype Outcome<T> = Ok(value: T) | Failed(error: LineageError)

  /** `chain` starts at `id` and each entry is the parent its predecessor names. */
  ghost predicate Climbs(byId: Catalogue, id: string, chain: seq<Def>) {
    && |chain| >= 1 && id in byId && chain[0] == byId[id]
    && forall i :: 0 <= i < |chain| - 1 ==> Rung(byId, chain, i)
  }

  ghost predicate Rung(byId: Catalogue, chain: seq<Def>, i: int)
    requires 0 <= i < |chain| - 1
  {
    ExtendsOf(chain[i]).Some? && ExtendsOf(chain[i]).value in byId && chain[i + 1] == byId[ExtendsOf(chain[i]).value]
  }

  ghost predicate DistinctIds(chain: seq<Def>) {
    forall i, j :: 0 <= i < j < |chain| ==> IdOf(chain[i]) != IdOf(chain[j])
  }

  /** The chain reaches a root without meeting an id twice. */
  ghost predicate ReachesRoot(byId: Catalogue, id: string, chain: seq<Def>) {
    Climbs(byId, id, chain) && DistinctIds(chain) && ExtendsOf(chain[|chain| - 1]).None?
  }

  /** The chain ends on a definition whose parent is not in the catalogue. */
  ghost predicate ReachesGap(byId: Catalogue, id: string, chain: seq<Def>) {
    && Climbs(byId, id, chain) && DistinctIds(chain)
    && ExtendsOf(chain[|chain| - 1]).Some? && ExtendsOf(chain[|chain| - 1]).value !in byId
  }

  /** The chain ends on a definition whose parent carries an id already met. */
  ghost predicate ReachesRepeat(byId: Catalogue, id: string, chain: seq<Def>) {
    && Climbs(byId, id, chain) && DistinctIds(chain)
    && ExtendsOf(chain[|chain| - 1]).Some? && ExtendsOf(chain[|chain| - 1]).value in byId
    && exists i :: 0 <= i < |chain| && IdOf(chain[i]) == IdOf(byId[ExtendsOf(chain[|chain| - 1]).value])
  }

  /** The failure names the last definition of the chain and the parent it lacks. */
  ghost predicate GapAnswer(chain: seq<Def>, r: Outcome<seq<Def>>) {
    && chain != [] && ExtendsOf(chain[|chain| - 1]).Some?
    && r == Failed(MissingParent(IdOf(chain[|chain| - 1]), ExtendsOf(chain[|chain| - 1]).value))
  }

  /** The failure names the id that would come again. */
  ghost predicate RepeatAnswer(byId: Catalogue, chain: seq<Def>, r: Outcome<seq<Def>>) {
    && chain != [] && ExtendsOf(chain[|chain| - 1]).Some? && ExtendsOf(chain[|chain| - 1]).value in byId
    && r == Failed(ExtendsCycle(IdOf(byId[ExtendsOf(chain[|chain| - 1]).value])))
  }

  /** What a call may answer. */
  ghost predicate LineageAnswer(byId: Catalogue, id: string, r: Outcome<seq<Def>>) {
    if id !in byId then r == Ok([])
    else
      match r
      case Ok(chain) => ReachesRoot(byId, id, chain)
      case Failed(MissingParent(_, _)) => exists chain :: ReachesGap(byId, id, chain) && GapAnswer(chain, r)
      case Failed(ExtendsCycle(_)) => exists chain :: ReachesRepeat(byId, id, chain) && RepeatAnswer(byId, chain, r)
  }

  method ExtendsLineage(id: string, byId: Catalogue) returns (r: Outcome<seq<Def>>)
    ensures LineageAnswer(byId, id, r)
  {
    if id !in byId { return Ok([]); }
    var chain: seq<Def> := [];
    var seen: set<string> := {};
    var cur := byId[id];
    ghost var known := set k | k in byId :: IdOf(byId[k]);
    while true
      invariant Climbs(byId, id, chain + [cur])
      invariant DistinctIds(chain)
      invariant seen == (set d | d in chain :: IdOf(d))
      invariant seen <= known && IdOf(cur) in known
      decreases known - seen
    {
      if IdOf(cur) in seen {
        RepeatFound(byId, id, chain, cur);
        return Failed(ExtendsCycle(IdOf(cur)));
      }
      DistinctExtends(chain, cur);
      seen := seen + {IdOf(cur)};
      chain := chain + [cur];
      if ExtendsOf(cur).None? { break; }
      if ExtendsOf(cur).value !in byId {
        assert ReachesGap(byId, id, chain) && GapAnswer(chain, Failed(MissingParent(IdOf(cur), ExtendsOf(cur).value)));
        return Failed(MissingParent(IdOf(cur), ExtendsOf(cur).value));
      }
      ClimbsFurther(byId, id, chain);
      cur := byId[ExtendsOf(cur).value];
    }
    r := Ok(chain);
  }

  lemma DistinctExtends(chain: seq<Def>, cur: Def)
    requires DistinctIds(chain) && IdOf(cur) !in (set d | d in chain :: IdOf(d))
    ensures DistinctIds(chain + [cur])
    ensures (set d | d in chain + [cur] :: IdOf(d)) == (set d | d in chain :: IdOf(d)) + {IdOf(cur)}
  {
    forall i | 0 <= i < |chain| ensures IdOf(chain[i]) != IdOf(cur) {
      assert chain[i] in chain;
    }
  }

  lemma ClimbsFurther(byId: Catalogue, id: string, chain: seq<Def>)
    requires Climbs(byId, id, chain)
    requires ExtendsOf(chain[|chain| - 1]).Some? && ExtendsOf(chain[|chain| - 1]).value in byId
    ensures Climbs(byId, id, chain + [byId[ExtendsOf(chain[|chain| - 1]).value]])
  {
    var more := chain + [byId[ExtendsOf(chain[|chain| - 1]).value]];
    forall i | 0 <= i < |more| - 1 ensures Rung(byId, more, i) {
      if i < |chain| - 1 { assert Rung(byId, chain, i); }
    }
  }

  lemma RepeatFound(byId: Catalogue, id: string, chain: seq<Def>, cur: Def)
    requires Climbs(byId, id, chain + [cur]) && DistinctIds(chain) && IdOf(cur) in (set d | d in chain :: IdOf(d))
    ensures ReachesRepeat(byId, id, chain) && RepeatAnswer(byId, chain, Failed(ExtendsCycle(IdOf(cur))))
  {
    var more := chain + [cur];
    assert Rung(byId, more, |chain| - 1);
    ClimbsPrefix(byId, id, more, |chain|);
    assert more[..|chain|] == chain;
    var d :| d in chain && IdOf(d) == IdOf(cur);
    var i :| 0 <= i < |chain| && chain[i] == d;
  }

  lemma ClimbsPrefix(byId: Catalogue, id: string, chain: seq<Def>, n: nat)
    requires Climbs(byId, id, chain) && 1 <= n <= |chain|
    ensures Climbs(byId, id, chain[..n])
  {
    forall i | 0 <= i < n - 1 ensures Rung(byId, chain[..n], i) {
      assert Rung(byId, chain, i);
    }
  }

  /** There is only one way up: of two climbs, the shorter is the beginning of the longer. */
  lemma {:induction false} ClimbIsUnique(byId: Catalogue, id: string, a: seq<Def>, b: seq<Def>)
    requires Climbs(byId, id, a) && Climbs(byId, id, b) && |a| <= |b|
    ensures a == b[..|a|]
    decreases |a|
  {
    if |a| > 1 {
      var front := a[..|a| - 1];
      ClimbsPrefix(byId, id, a, |a| - 1);
      ClimbIsUnique(byId, id, front, b);
      assert Rung(byId, a, |a| - 2) && Rung(byId, b, |a| - 2);
      assert a[|a| - 2] == front[|a| - 2] == b[|a| - 2];
    }
  }

  lemma LongerContinues(byId: Catalogue, id: string, a: seq<Def>, b: seq<Def>)
    requires Climbs(byId, id, a) && Climbs(byId, id, b) && |b| > |a|
    ensures a == b[..|a|]
    ensures ExtendsOf(a[|a| - 1]).Some? && ExtendsOf(a[|a| - 1]).value in byId
    ensures b[|a|] == byId[ExtendsOf(a[|a| - 1]).value]
  {
    ClimbIsUnique(byId, id, a, b);
    assert Rung(byId, b, |a| - 1);
  }

  /** A chain that cannot be continued without a repeat or at all is the longest climb there is. */
  lemma EndsAreMaximal(byId: Catalogue, id: string, a: seq<Def>, b: seq<Def>)
    requires Climbs(byId, id, a) && Climbs(byId, id, b) && DistinctIds(b)
    requires ReachesRoot(byId, id, a) || ReachesGap(byId, id, a) || ReachesRepeat(byId, id, a)
    ensures |b| <= |a|
  {
    if |b| > |a| { LongerContinues(byId, id, a, b); }
  }

  ghost predicate Ends(byId: Catalogue, id: string, chain: seq<Def>) {
    ReachesRoot(byId, id, chain) || ReachesGap(byId, id, chain) || ReachesRepeat(byId, id, chain)
  }

  /** Two climbs that both end are the same climb. */
  lemma EndIsUnique(byId: Catalogue, id: string, a: seq<Def>, b: seq<Def>)
    requires Ends(byId, id, a) && Ends(byId, id, b)
    ensures a == b
  {
    EndsAreMaximal(byId, id, a, b);
    EndsAreMaximal(byId, id, b, a);
    ClimbIsUnique(byId, id, a, b);
    assert b[..|a|] == b;
  }

  /**
   * The catalogue determines the answer: the walk succeeds exactly when the chain reaches a root, and then
   * answers that chain; a root, a missing parent and a repeat exclude each other.
   */
  lemma LineageIsDetermined(byId: Catalogue, id: string, r: Outcome<seq<Def>>)
    requires LineageAnswer(byId, id, r) && id in byId
    ensures r.Ok? <==> exists chain :: ReachesRoot(byId, id, chain)
    ensures forall chain :: ReachesRoot(byId, id, chain) ==> r == Ok(chain)
    ensures forall chain :: ReachesGap(byId, id, chain) ==> GapAnswer(chain, r)
    ensures forall chain :: ReachesRepeat(byId, id, chain) ==> RepeatAnswer(byId, chain, r)
  {
    hide ReachesRoot, ReachesGap, ReachesRepeat;
    var found := Walked(byId, id, r);
    OneEnd(byId, id, found);
    forall chain | ReachesRoot(byId, id, chain) ensures r == Ok(chain) {
      EndIsUnique(byId, id, chain, found);
    }
    forall chain | ReachesGap(byId, id, chain) ensures GapAnswer(chain, r) {
      EndIsUnique(byId, id, chain, found);
    }
    forall chain | ReachesRepeat(byId, id, chain) ensures RepeatAnswer(byId, chain, r) {
      EndIsUnique(byId, id, chain, found);
    }
  }

  lemma OneEnd(byId: Catalogue, id: string, chain: seq<Def>)
    requires Ends(byId, id, chain)
    ensures !ReachesRoot(byId, id, chain) || !ReachesGap(byId, id, chain)
    ensures !ReachesRoot(byId, id, chain) || !ReachesRepeat(byId, id, chain)
    ensures !ReachesGap(byId, id, chain) || !ReachesRepeat(byId, id, chain)
  {
  }

  /** The climb an answer speaks of. */
  lemma Walked(byId: Catalogue, id: string, r: Outcome<seq<Def>>) returns (chain: seq<Def>)
    requires LineageAnswer(byId, id, r) && id in byId
    ensures Ends(byId, id, chain)
    ensures r.Ok? ==> r.value == chain && ReachesRoot(byId, id, chain)
    ensures r.Failed? && r.error.MissingParent? ==> ReachesGap(byId, id, chain) && GapAnswer(chain, r)
    ensures r.Failed? && r.error.ExtendsCycle? ==> ReachesRepeat(byId, id, chain) && RepeatAnswer(byId, chain, r)
  {
    match r
    case Ok(c) => chain := c;
    case Failed(MissingParent(_, _)) => chain :| ReachesGap(byId, id, chain) && GapAnswer(chain, r);
    case Failed(ExtendsCycle(_)) => chain :| ReachesRepeat(byId, id, chain) && RepeatAnswer(byId, chain, r);
  }

  // ---------------------------------------------------------------------------------------------
  // Composition

  /** Fold root to leaf; `chain` is leaf first. */
  function Fold(chain: seq<Def>): J {
    if chain == [] then JObj(map[]) else Merge(Some(Fold(chain[1..])), JObj(chain[0]))
  }

  function LineageIds(chain: seq<Def>): seq<string> {
    seq(|chain|, i requires 0 <= i < |chain| => IdOf(chain[i]))
  }

  /** The composed body and the ids it was built from, leaf first. */
  datatype Composed = Composed(body: map<string, J>, lineage: seq<string>)

  lemma {:induction false} FoldIsObject(chain: seq<Def>)
    ensures Fold(chain).JObj?
    decreases |chain|
  {
    if chain != [] { FoldIsObject(chain[1..]); }
  }

  /** What composing may answer: the fold of the chain to a root, or a failure when there is no such chain. */
  ghost predicate ComposeAnswer(byId: Catalogue, id: string, r: Outcome<Option<Composed>>) {
    if id !in byId then r == Ok(None)
    else if r.Failed? then LineageAnswer(byId, id, Failed(r.error)) && !exists chain :: ReachesRoot(byId, id, chain)
    else
      exists chain :: ReachesRoot(byId, id, chain) && r.value.Some?
        && Fold(chain) == JObj(r.value.value.body) && r.value.value.lineage == LineageIds(chain)
  }

  lemma AnswerShape(byId: Catalogue, id: string, r: Outcome<seq<Def>>)
    requires LineageAnswer(byId, id, r)
    ensures id !in byId ==> r == Ok([])
    ensures id in byId && r.Ok? ==> r.value != [] && ReachesRoot(byId, id, r.value)
    ensures id in byId && r.Failed? ==> !exists chain :: ReachesRoot(byId, id, chain)
  {
    if id in byId {
      LineageIsDetermined(byId, id, r);
    }
  }

  method ComposeExtends(id: string, byId: Catalogue) returns (r: Outcome<Option<Composed>>)
    ensures ComposeAnswer(byId, id, r)
  {
    hide LineageAnswer, ReachesRoot, Merge;
    var outcome := ExtendsLineage(id, byId);
    AnswerShape(byId, id, outcome);
    if outcome.Failed? { return Failed(outcome.error); }
    var chain := outcome.value;
    if chain == [] { return Ok(None); }
    var acc := JObj(map[]);
    var i := |chain| - 1;
    assert chain[|chain|..] == [];
    while i >= 0
      invariant -1 <= i < |chain|
      invariant acc == Fold(chain[i + 1..])
    {
      assert chain[i..][1..] == chain[i + 1..];
      acc := Merge(Some(acc), JObj(chain[i]));
      i := i - 1;
    }
    assert chain[0..] == chain;
    FoldIsObject(chain);
    r := Ok(Some(Composed(acc.fields, LineageIds(chain))));
  }

  lemma UpperChain(byId: Catalogue, id: string, chain: seq<Def>)
    requires ReachesRoot(byId, id, chain) && ExtendsOf(byId[id]).Some?
    ensures |chain| > 1 && ReachesRoot(byId, ExtendsOf(byId[id]).value, chain[1..])
  {
    var up := chain[1..];
    assert |chain| > 1;
    assert Rung(byId, chain, 0);
    forall i | 0 <= i < |up| - 1 ensures Rung(byId, up, i) {
      assert Rung(byId, chain, i + 1);
    }
    assert up[|up| - 1] == chain[|chain| - 1];
  }

  /** What composing a leaf answers is the leaf merged onto what composing its parent answers. */
  lemma ComposeOntoParent(byId: Catalogue, id: string, r: Composed, q: Composed)
    requires id in byId && ExtendsOf(byId[id]).Some?
    requires ComposeAnswer(byId, id, Ok(Some(r))) && ComposeAnswer(byId, ExtendsOf(byId[id]).value, Ok(Some(q)))
    ensures JObj(r.body) == Merge(Some(JObj(q.body)), JObj(byId[id]))
    ensures r.lineage == [IdOf(byId[id])] + q.lineage
  {
    hide Merge, ReachesRoot;
    var parent := ExtendsOf(byId[id]).value;
    var chain :| ReachesRoot(byId, id, chain) && Fold(chain) == JObj(r.body) && r.lineage == LineageIds(chain);
    var up :| ReachesRoot(byId, parent, up) && Fold(up) == JObj(q.body) && q.lineage == LineageIds(up);
    UpperChain(byId, id, chain);
    EndIsUnique(byId, parent, chain[1..], up);
    LeafFirst(byId, id, chain);
  }

  lemma LeafFirst(byId: Catalogue, id: string, chain: seq<Def>)
    requires ReachesRoot(byId, id, chain)
    ensures id in byId && |chain| >= 1 && chain[0] == byId[id]
  {
  }

  /** A leaf that composes has a parent that does. */
  lemma ParentComposes(byId: Catalogue, id: string, r: Outcome<Option<Composed>>, q: Outcome<Option<Composed>>)
    requires id in byId && ExtendsOf(byId[id]).Some?
    requires ComposeAnswer(byId, id, r) && ComposeAnswer(byId, ExtendsOf(byId[id]).value, q)
    ensures r.Ok? ==> q.Ok? && q.value.Some?
  {
    hide Merge, ReachesRoot;
    if r.Ok? {
      var chain :| ReachesRoot(byId, id, chain);
      UpperChain(byId, id, chain);
      LeafFirst(byId, ExtendsOf(byId[id]).value, chain[1..]);
    }
  }

  /** A definition that extends nothing composes to itself. */
  lemma RootComposesToItself(byId: Catalogue, id: string, r: Outcome<Option<Composed>>)
    requires id in byId && ExtendsOf(byId[id]).None? && ComposeAnswer(byId, id, r)
    ensures r == Ok(Some(Composed(byId[id], [IdOf(byId[id])])))
  {
    hide Merge;
    var alone := [byId[id]];
    assert ReachesRoot(byId, id, alone);
    var chain :| ReachesRoot(byId, id, chain) && Fold(chain) == JObj(r.value.value.body) && r.value.value.lineage == LineageIds(chain);
    EndIsUnique(byId, id, alone, chain);
    MergeOntoNothing(byId[id]);
    assert Fold(alone[1..]) == JObj(map[]);
    assert Fold(alone) == JObj(byId[id]);
    assert LineageIds(alone) == [IdOf(byId[id])];
  }

  lemma MergeOntoNothing(d: Def)
    ensures Merge(Some(JObj(map[])), JObj(d)) == JObj(d)
  {
    assert Merge(Some(JObj(map[])), JObj(d)).fields == d;
  }
}
