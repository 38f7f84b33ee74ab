/** What each violation reported about a definition says, and that nothing else is reported. */
module ViolationReports {
  import opened Options
  import opened Json
  import opened Ids
  import opened DefConstraints
  import opened ConstraintEvaluation

  // ---------------------------------------------------------------------------------------------
  // Dotted paths

  predicate Dotless(s: string) {
    '.' !in s
  }

  /** The segments with dots between them. */
  function Joined(segments: seq<string>): string {
    if segments == [] then ""
    else if |segments| == 1 then segments[0]
    else Joined(segments[..|segments| - 1]) + "." + segments[|segments| - 1]
  }

  /** Going down property by property from `v` leads to `r`: nowhere once a segment is missing or not in an object. */
  ghost predicate LeadsTo(v: J, segments: seq<string>, r: Option<J>)
    decreases |segments|
  {
    if segments == [] then r == Some(v)
    else if v.JObj? && segments[0] in v.fields then LeadsTo(v.fields[segments[0]], segments[1..], r)
    else r == None
  }

  lemma JoinedNext(ss: seq<string>, s: string)
    requires ss != []
    ensures Joined(ss + [s]) == Joined(ss) + "." + s
  {
    assert (ss + [s])[..|ss|] == ss;
  }

  lemma JoinedLonger(ss: seq<string>, s: string, c: char)
    ensures Joined(ss + [s + [c]]) == Joined(ss + [s]) + [c]
  {
    if ss != [] {
      JoinedNext(ss, s + [c]);
      JoinedNext(ss, s);
      hide Joined;
      assert Joined(ss) + "." + (s + [c]) == Joined(ss) + "." + s + [c];
    } else {
      assert [] + [s] == [s] && [] + [s + [c]] == [s + [c]];
    }
  }

  ghost predicate AllDotless(ss: seq<string>) {
    forall i :: 0 <= i < |ss| ==> Dotless(ss[i])
  }

  /** One character more either opens a segment or lengthens the last one. */
  lemma SplitNext(front: string, c: char)
    ensures var ss, n := Split(front), |Split(front)| - 1;
      Split(front + [c]) == if c == '.' then ss + [""] else ss[..n] + [ss[n] + [c]]
  {
    assert (front + [c])[..|front|] == front;
  }

  lemma DotlessLonger(ss: seq<string>, s: string, c: char)
    requires AllDotless(ss + [s]) && c != '.'
    ensures AllDotless(ss + [s + [c]])
  {
    forall i | 0 <= i < |ss| + 1 ensures Dotless((ss + [s + [c]])[i]) { assert Dotless((ss + [s])[i]); }
  }

  lemma {:induction false} SplitJoins(path: string)
    ensures Joined(Split(path)) == path && AllDotless(Split(path))
    decreases |path|
  {
    if path != "" {
      var front, last := path[..|path| - 1], path[|path| - 1];
      assert path == front + [last];
      hide *;
      SplitJoins(front);
      SplitNext(front, last);
      var ss := Split(front);
      var n := |ss| - 1;
      assert ss == ss[..n] + [ss[n]];
      if last == '.' {
        JoinedNext(ss, "");
        DotlessMore(ss);
      } else {
        JoinedLonger(ss[..n], ss[n], last);
        DotlessLonger(ss[..n], ss[n], last);
      }
    }
  }

  lemma DotlessMore(ss: seq<string>)
    requires AllDotless(ss)
    ensures AllDotless(ss + [""])
  {
  }

  lemma {:induction false} WalkLeads(v: J, segments: seq<string>)
    ensures LeadsTo(v, segments, Walk(Some(v), segments))
    decreases |segments|
  {
    if segments != [] && v.JObj? {
      if segments[0] in v.fields {
        WalkLeads(v.fields[segments[0]], segments[1..]);
      } else {
        WalkNowhere(segments[1..]);
      }
    }
  }

  lemma WalkNowhere(segments: seq<string>)
    ensures Walk(None, segments) == None
  {
  }

  /** The path is those segments with dots between, and following them leads to `r`. */
  ghost predicate ReadAs(def: map<string, J>, path: string, segments: seq<string>, r: Option<J>) {
    segments != [] && AllDotless(segments) && Joined(segments) == path && LeadsTo(JObj(def), segments, r)
  }

  /** A path is read segment by segment, between the dots. */
  lemma PathIsRead(def: map<string, J>, path: string)
    ensures exists segments :: ReadAs(def, path, segments, GetPath(def, path))
  {
    SplitJoins(path);
    WalkLeads(JObj(def), Split(path));
    assert ReadAs(def, path, Split(path), GetPath(def, path));
  }

  // ---------------------------------------------------------------------------------------------
  // What a report says

  /** The elements of the list at the path; anything else there counts as an empty list. */
  predicate HasItems(def: map<string, J>, path: string, items: seq<J>) {
    GetPath(def, path) == Some(JArr(items)) || (items == [] && (GetPath(def, path) == None || !GetPath(def, path).value.JArr?))
  }

  /** Without a filter every element meets it; with one, only an object whose field is that very scalar, or lacks it. */
  predicate Meets(el: J, filter: Option<Where>) {
    filter == None ||
    (el.JObj? && match filter.value.eq
     case None => filter.value.field !in el.fields
     case Some(v) => !v.JArr? && !v.JObj? && filter.value.field in el.fields && el.fields[filter.value.field] == v)
  }

  function MeetingAt(items: seq<J>, filter: Option<Where>): set<int> {
    set i | 0 <= i < |items| && Meets(items[i], filter)
  }

  /** The places whose element is an object with that value in the field. */
  function HoldersAt(items: seq<J>, field: string, v: J): set<int> {
    set i | 0 <= i < |items| && items[i].JObj? && field in items[i].fields && items[i].fields[field] == v
  }

  /** `reason` is a way in which the definition breaks the rule, with the counts or values that show it. */
  ghost predicate Breaks(def: map<string, J>, c: DefConstraint, reason: Reason) {
    match reason
    case TooFew(n) => c.shape == Cardinality && c.min != None && n as real < c.min.value && Counts(def, c, n)
    case TooMany(n) => c.shape == Cardinality && c.max != None && n as real > c.max.value && Counts(def, c, n)
    case Repeated(v, n) =>
      && c.shape == Unique && n >= 2 && (c.except != None ==> v !in c.except.value)
      && exists items :: HasItems(def, c.path, items) && n == |HoldersAt(items, if c.field == None then "" else c.field.value, v)|
    case NotAllowed(v) =>
      c.shape == Enum && GetPath(def, c.path) == Some(v) && (c.values != None ==> v !in c.values.value)
    case NotANumber => c.shape == Bound && GetPath(def, c.path) != None && !GetPath(def, c.path).value.JNum?
    case TooSmall(n) => c.shape == Bound && GetPath(def, c.path) == Some(JNum(n)) && c.min != None && n < c.min.value
    case TooLarge(n) => c.shape == Bound && GetPath(def, c.path) == Some(JNum(n)) && c.max != None && n > c.max.value
  }

  /** `n` elements at the path meet the rule's filter. */
  ghost predicate Counts(def: map<string, J>, c: DefConstraint, n: nat) {
    exists items :: HasItems(def, c.path, items) && n == |MeetingAt(items, c.filter)|
  }

  lemma {:induction false} CountIs(items: seq<J>, filter: Option<Where>)
    ensures Count(items, filter) == |MeetingAt(items, filter)|
    decreases |items|
  {
    if items == [] {
      assert MeetingAt(items, filter) == {};
    } else {
      CountIs(items[..|items| - 1], filter);
      MeetingStep(items, filter);
      MeetsIsMatches(items[|items| - 1], filter);
    }
  }

  lemma MeetsIsMatches(el: J, filter: Option<Where>)
    ensures Meets(el, filter) <==> Matches(el, filter)
  {
  }

  lemma MeetingStep(items: seq<J>, filter: Option<Where>)
    requires items != []
    ensures var n := |items| - 1;
      && n !in MeetingAt(items[..n], filter)
      && MeetingAt(items, filter) == MeetingAt(items[..n], filter) + if Meets(items[n], filter) then {n} else {}
  {
    hide Meets;
  }

  lemma {:induction false} OccurrencesAre(items: seq<J>, field: string, except: seq<J>, v: J)
    requires v !in except
    ensures Occurrences(items, field, except, v) == |HoldersAt(items, field, v)|
    decreases |items|
  {
    if items == [] {
      assert HoldersAt(items, field, v) == {};
    } else {
      OccurrencesAre(items[..|items| - 1], field, except, v);
      HoldersStep(items, field, v);
    }
  }

  lemma HoldersStep(items: seq<J>, field: string, v: J)
    requires items != []
    ensures var n := |items| - 1;
      var el := items[n];
      && n !in HoldersAt(items[..n], field, v)
      && HoldersAt(items, field, v)
         == HoldersAt(items[..n], field, v) + if el.JObj? && field in el.fields && el.fields[field] == v then {n} else {}
  {
  }

  /** A value that is excepted does not occur at all, as far as the rule is concerned. */
  lemma {:induction false} ExceptedNever(items: seq<J>, field: string, except: seq<J>, v: J)
    requires v in except
    ensures Occurrences(items, field, except, v) == 0
    decreases |items|
  {
    if items != [] { ExceptedNever(items[..|items| - 1], field, except, v); }
  }

  lemma ItemsAre(def: map<string, J>, path: string, items: seq<J>)
    ensures HasItems(def, path, items) <==> items == ListAt(def, path)
  {
    hide GetPath;
  }

  lemma {:induction false} RepeatsAre(c: DefConstraint, list: seq<J>, vs: seq<J>, x: Violation)
    ensures x in Repeats(c, list, vs) <==>
      && x.id == c.id && x.message == c.message && x.reason.Repeated? && x.reason.value in vs
      && x.reason.times == Occurrences(list, c.field.GetOr(""), c.except.GetOr([]), x.reason.value) && x.reason.times >= 2
    decreases |vs|
  {
    if vs != [] {
      var front, last := vs[..|vs| - 1], vs[|vs| - 1];
      RepeatsAre(c, list, front, x);
      assert vs == front + [last];
    }
  }

  lemma UniqueReports(def: map<string, J>, c: DefConstraint, x: Violation)
    requires c.shape == Unique
    ensures x in Violations(def, c) <==> x.id == c.id && x.message == c.message && Breaks(def, c, x.reason)
  {
    hide GetPath, Tracked, Repeats, FirstSeen, Occurrences, HoldersAt, HasItems;
    var list, field, except := ListAt(def, c.path), c.field.GetOr(""), c.except.GetOr([]);
    RepeatsAre(c, list, FirstSeen(list, field, except), x);
    if x.reason.Repeated? {
      var v := x.reason.value;
      ItemsAre(def, c.path, list);
      forall items ensures HasItems(def, c.path, items) <==> items == list { ItemsAre(def, c.path, items); }
      if v in except { ExceptedNever(list, field, except, v); } else { OccurrencesAre(list, field, except, v); }
      SeenIffOccurs(list, field, except, v);
    }
  }

  lemma SeenIffOccurs(list: seq<J>, field: string, except: seq<J>, v: J)
    ensures v in FirstSeen(list, field, except) <==> Occurrences(list, field, except, v) >= 1
  {
    hide Tracked;
    FirstSeenMembers(list, field, except);
    OccurrencesCount(list, field, except, v);
  }

  lemma CardinalityReports(def: map<string, J>, c: DefConstraint, x: Violation)
    requires c.shape == Cardinality
    ensures x in Violations(def, c) <==> x.id == c.id && x.message == c.message && Breaks(def, c, x.reason)
  {
    hide GetPath, MeetingAt, HasItems, Count;
    var list := ListAt(def, c.path);
    CountIs(list, c.filter);
    ItemsAre(def, c.path, list);
    forall items ensures HasItems(def, c.path, items) <==> items == list { ItemsAre(def, c.path, items); }
    assert forall n: nat :: Counts(def, c, n) <==> n == Count(list, c.filter);
  }

  /** A violation is reported exactly if it breaks the rule as it says, under the rule's id and with its message. */
  lemma ReportTells(def: map<string, J>, c: DefConstraint, x: Violation)
    ensures x in Violations(def, c) <==> x.id == c.id && x.message == c.message && Breaks(def, c, x.reason)
  {
    match c.shape
    case Cardinality => CardinalityReports(def, c, x);
    case Unique => UniqueReports(def, c, x);
    case Enum => hide GetPath;
    case Bound => hide GetPath;
  }

  // ---------------------------------------------------------------------------------------------
  // How often and in which order

  /** `v` comes up in the list before `w` does. */
  ghost predicate Before(list: seq<J>, field: string, v: J, w: J) {
    exists i :: i in HoldersAt(list, field, v) && forall j :: 0 <= j <= i ==> j !in HoldersAt(list, field, w)
  }

  lemma {:induction false} SeenInOrder(list: seq<J>, field: string, except: seq<J>, i: nat, j: nat)
    requires i < j < |FirstSeen(list, field, except)|
    ensures var seen := FirstSeen(list, field, except); Before(list, field, seen[i], seen[j])
    decreases |list|
  {
    hide HoldersAt;
    var n := |list| - 1;
    var front, seen := list[..n], FirstSeen(list, field, except);
    var before := FirstSeen(front, field, except);
    if j < |before| {
      SeenInOrder(front, field, except, i, j);
      BeforeLonger(list, field, seen[i], seen[j]);
    } else {
      FirstSeenMembers(front, field, except);
      var k :| 0 <= k < |front| && Tracked(front[k], field, except) == Some(seen[i]);
      TrackedHolds(list, field, except, k);
      forall h | 0 <= h <= k ensures h !in HoldersAt(list, field, seen[j]) {
        if h in HoldersAt(list, field, seen[j]) { HoldsTracked(list, field, except, h, seen[j]); }
      }
    }
  }

  lemma TrackedHolds(list: seq<J>, field: string, except: seq<J>, k: nat)
    requires k < |list| && Tracked(list[k], field, except).Some?
    ensures k in HoldersAt(list, field, Tracked(list[k], field, except).value)
  {
  }

  lemma HoldsTracked(list: seq<J>, field: string, except: seq<J>, k: nat, v: J)
    requires k in HoldersAt(list, field, v) && v !in except
    ensures k < |list| && Tracked(list[k], field, except) == Some(v)
  {
  }

  lemma BeforeLonger(list: seq<J>, field: string, v: J, w: J)
    requires list != [] && Before(list[..|list| - 1], field, v, w)
    ensures Before(list, field, v, w)
  {
    var front := list[..|list| - 1];
    var i :| i in HoldersAt(front, field, v) && forall j :: 0 <= j <= i ==> j !in HoldersAt(front, field, w);
    assert i in HoldersAt(list, field, v) && i < |front|;
    forall j | 0 <= j <= i ensures j !in HoldersAt(list, field, w) {
      assert j !in HoldersAt(front, field, w) && front[j] == list[j];
    }
  }

  lemma BeforeDiffers(list: seq<J>, field: string, v: J, w: J)
    requires Before(list, field, v, w)
    ensures v != w
  {
    var i :| i in HoldersAt(list, field, v) && forall j :: 0 <= j <= i ==> j !in HoldersAt(list, field, w);
    assert 0 <= i;
  }

  lemma {:induction false} RepeatsInOrder(c: DefConstraint, list: seq<J>, vs: seq<J>, i: nat, j: nat)
    requires i < j < |Repeats(c, list, vs)|
    ensures exists a, b :: 0 <= a < b < |vs| && var rs := Repeats(c, list, vs);
      rs[i].reason.Repeated? && rs[i].reason.value == vs[a] && rs[j].reason.Repeated? && rs[j].reason.value == vs[b]
    decreases |vs|
  {
    hide Occurrences;
    var rs, front := Repeats(c, list, vs), vs[..|vs| - 1];
    var before := Repeats(c, list, front);
    if j < |before| {
      RepeatsInOrder(c, list, front, i, j);
      var a, b :| 0 <= a < b < |front| && before[i].reason.Repeated? && before[i].reason.value == front[a]
        && before[j].reason.Repeated? && before[j].reason.value == front[b];
      assert vs[a] == front[a] && vs[b] == front[b];
    } else {
      RepeatsAre(c, list, front, before[i]);
      var a :| 0 <= a < |front| && front[a] == before[i].reason.value;
      assert vs[a] == front[a];
    }
  }

  /** Repeated values are reported once each, in the order in which they first come up. */
  lemma ReportedInOrder(def: map<string, J>, c: DefConstraint, items: seq<J>, i: nat, j: nat)
    requires c.shape == Unique && HasItems(def, c.path, items) && i < j < |Violations(def, c)|
    ensures var x, y := Violations(def, c)[i].reason, Violations(def, c)[j].reason;
      && x.Repeated? && y.Repeated? && x.value != y.value
      && Before(items, if c.field == None then "" else c.field.value, x.value, y.value)
  {
    ItemsAre(def, c.path, items);
    hide GetPath, Repeats, FirstSeen, HoldersAt, HasItems;
    var field, except := c.field.GetOr(""), c.except.GetOr([]);
    var seen := FirstSeen(items, field, except);
    RepeatsInOrder(c, items, seen, i, j);
    var rs := Repeats(c, items, seen);
    var a, b :| 0 <= a < b < |seen| && rs[i].reason.Repeated? && rs[i].reason.value == seen[a]
      && rs[j].reason.Repeated? && rs[j].reason.value == seen[b];
    SeenInOrder(items, field, except, a, b);
    BeforeDiffers(items, field, seen[a], seen[b]);
  }

  /** The other shapes give at most two reports, one for each bound. */
  lemma AtMostOneEach(def: map<string, J>, c: DefConstraint)
    requires c.shape != Unique
    ensures |Violations(def, c)| <= 2 && Distinct(Violations(def, c))
    ensures forall x :: x in Violations(def, c) && (x.reason.TooFew? || x.reason.TooSmall?) ==> x == Violations(def, c)[0]
  {
    hide GetPath, Count, ListAt;
  }

  /** Rules are reported on one after the other, in the order given. */
  lemma {:induction false} ReportsJoin(def: map<string, J>, a: seq<DefConstraint>, b: seq<DefConstraint>)
    ensures AllViolations(def, a + b) == AllViolations(def, a) + AllViolations(def, b)
    ensures forall c :: AllViolations(def, [c]) == Violations(def, c)
    decreases |b|
  {
    hide Violations;
    forall c ensures AllViolations(def, [c]) == Violations(def, c) { assert [c][..0] == []; }
    if b == [] {
      assert a + b == a;
    } else {
      assert (a + b)[..|a + b| - 1] == a + b[..|b| - 1];
      ReportsJoin(def, a, b[..|b| - 1]);
    }
  }
}
