/** The in-flight/queued refresh protocol as a state machine over everything that can happen between awaits. */
module RefreshProtocol {
  import opened Options

  type Path = string

  /** The generated module's text is determined by the files discovered; `Blank` is the initial empty string. */
  datatype Source = Blank | Listing(files: seq<Path>)

  function Generate(files: seq<Path>): Source {
    Listing(files)
  }

  /** Different files make different text, and none of it is the initial one. */
  lemma SourceTells(a: seq<Path>, b: seq<Path>)
    ensures (Generate(a) == Generate(b) <==> a == b) && Generate(a) != Blank
  {
  }

  /**
   * A discovery under way: when it started, what it saw of the disk and when, the `changed` flags of the
   * refresh calls suspended on it, and whether any of those wrote the file.
   */
  datatype Discovery = Discovery(started: nat, seen: Option<seq<Path>>, seenAt: nat, callers: seq<bool>, wrote: bool)

  datatype State = State(
    inFlight: bool,
    queued: bool,
    currentSource: Source,
    file: Option<Source>,
    disk: seq<Path>,
    running: seq<Discovery>,
    clock: nat)

  datatype Event =
    | Request
    | Change(files: seq<Path>)
    | Glob(k: nat)
    | Lands(k: nat)
    | Throws(k: nat)
    | WriteThrows(k: nat)

  function Without<T>(s: seq<T>, k: nat): seq<T>
    requires k < |s|
  {
    s[..k] + s[k + 1..]
  }

  /** The synchronous run from `refreshInFlight = true` to the first await. */
  function Launch(s: State, callers: seq<bool>, wrote: bool): State {
    s.(inFlight := true, running := s.running + [Discovery(s.clock, None, 0, callers, wrote)])
  }

  predicate HasSeen(s: State, k: nat) {
    k < |s.running| && s.running[k].seen.Some?
  }

  function NewSource(s: State, k: nat): Source
    requires HasSeen(s, k)
  {
    Generate(s.running[k].seen.value)
  }

  /** The synchronous run after the await, to the next await or to the answer. */
  function Land(s: State, k: nat): State
    requires HasSeen(s, k)
  {
    var d := s.running[k];
    var changed := NewSource(s, k) != s.currentSource;
    var landed := s.(
      inFlight := false,
      running := Without(s.running, k),
      currentSource := NewSource(s, k),
      file := if changed then Some(NewSource(s, k)) else s.file);
    if landed.queued then Launch(landed.(queued := false), d.callers + [changed], d.wrote || changed) else landed
  }

  /** What the chain of calls on discovery `k` answers if it ends here. */
  function Answer(s: State, k: nat): bool
    requires HasSeen(s, k)
  {
    true in s.running[k].callers + [NewSource(s, k) != s.currentSource]
  }

  /** One step; what cannot happen changes nothing. */
  function Step(s: State, e: Event): State {
    var next :=
      match e
      case Request => if s.inFlight then s.(queued := true) else Launch(s, [], false)
      case Change(files) => s.(disk := files)
      case Glob(k) =>
        if k < |s.running| && s.running[k].seen.None? then
          s.(running := s.running[k := s.running[k].(seen := Some(s.disk), seenAt := s.clock)])
        else s
      case Lands(k) => if HasSeen(s, k) then Land(s, k) else s
      case Throws(k) =>
        if k < |s.running| then s.(inFlight := false, running := Without(s.running, k)) else s
      case WriteThrows(k) =>
        if HasSeen(s, k) && NewSource(s, k) != s.currentSource then
          s.(inFlight := false, running := Without(s.running, k), currentSource := NewSource(s, k))
        else s;
    next.(clock := s.clock + 1)
  }

  /** How the last discovery to end did so. */
  datatype Ended = NotYet | Landed | Threw

  /**
   * What happened so far, as the theorems speak of it. Of the discovery in flight, or else of the last one,
   * `asked` says whether a request started it, at once or by waiting for it, and `during` whether a request
   * came while it was in flight. `lastWriteOk` says that there was a write and the last one went through.
   */
  datatype Log = Log(
    lastRequest: Option<nat>,
    lastChange: Option<nat>,
    landed: Option<Discovery>,
    lastEnded: Ended,
    lastWriteOk: bool,
    asked: bool,
    during: bool)

  function Note(h: Log, s: State, e: Event): Log {
    match e
    case Request =>
      h.(lastRequest := Some(s.clock), asked := if s.inFlight then h.asked else true, during := s.inFlight)
    case Change(_) => h.(lastChange := Some(s.clock))
    case Glob(_) => h
    case Lands(k) =>
      if HasSeen(s, k) then
        h.(landed := Some(s.running[k]), lastEnded := Landed, lastWriteOk := h.lastWriteOk || NewSource(s, k) != s.currentSource,
           asked := if s.queued then h.during else h.asked, during := !s.queued && h.during)
      else h
    case Throws(k) => if k < |s.running| then h.(lastEnded := Threw) else h
    case WriteThrows(k) =>
      if HasSeen(s, k) && NewSource(s, k) != s.currentSource then h.(lastEnded := Threw, lastWriteOk := false) else h
  }

  datatype Moment = Moment(state: State, log: Log)

  /** Any files on disk, any file left by an earlier session, and then any events in any order. */
  function Run(disk: seq<Path>, file: Option<Source>, events: seq<Event>): Moment {
    if events == [] then
      Moment(State(false, false, Blank, file, disk, [], 0), Log(None, None, None, NotYet, false, false, false))
    else
      var before := Run(disk, file, events[..|events| - 1]);
      var e := events[|events| - 1];
      Moment(Step(before.state, e), Note(before.log, before.state, e))
  }

  // ---------------------------------------------------------------------------------------------
  // The closure variables changed in place

  class Plugin {
    var refreshInFlight: bool
    var refreshQueued: bool
    var currentSource: Source
    var file: Option<Source>
    var disk: seq<Path>
    var running: seq<Discovery>
    var clock: nat

    function Now(): State
      reads this
    {
      State(refreshInFlight, refreshQueued, currentSource, file, disk, running, clock)
    }

    constructor (onDisk: seq<Path>, left: Option<Source>)
      ensures Now() == Run(onDisk, left, []).state
    {
      refreshInFlight, refreshQueued, currentSource := false, false, Blank;
      file, disk, running, clock := left, onDisk, [], 0;
    }

    /** `refresh()` up to its first await; `Some(false)` is the answer of a call that only queues. */
    method Refresh() returns (answer: Option<bool>)
      modifies this
      ensures Now() == Step(old(Now()), Request)
      ensures answer == if old(refreshInFlight) then Some(false) else None
    {
      if refreshInFlight {
        refreshQueued := true;
        answer := Some(false);
      } else {
        Discover([], false);
        answer := None;
      }
      clock := clock + 1;
    }

    method Discover(callers: seq<bool>, wrote: bool)
      modifies this
      ensures Now() == Launch(old(Now()), callers, wrote)
    {
      refreshInFlight := true;
      running := running + [Discovery(clock, None, 0, callers, wrote)];
    }

    /** `refresh()` after its await, with the recursive call a queued request makes; `canWrite` says whether the write throws. */
    method Resume(k: nat, canWrite: bool) returns (answer: Option<bool>)
      requires HasSeen(Now(), k)
      modifies this
      ensures Now() == Step(old(Now()), if canWrite || old(NewSource(Now(), k)) == old(currentSource) then Lands(k) else WriteThrows(k))
      ensures answer.Some? ==> answer == Some(old(Answer(Now(), k)))
      ensures (canWrite || old(NewSource(Now(), k)) == old(currentSource)) && !old(refreshQueued) ==> answer.Some?
    {
      var d := running[k];
      running := Without(running, k);
      var changed := false;
      var newSource := Generate(d.seen.value);
      if newSource != currentSource {
        currentSource := newSource;
        if !canWrite {
          refreshInFlight := false;
          clock := clock + 1;
          return None;
        }
        file := Some(currentSource);
        changed := true;
      }
      refreshInFlight := false;
      if refreshQueued {
        refreshQueued := false;
        Discover(d.callers + [changed], d.wrote || changed);
        answer := None;
      } else {
        answer := Some(AnyChanged(d.callers) || changed);
      }
      clock := clock + 1;
    }

    /** The awaited discovery throws: only the `finally` block runs. */
    method Rejected(k: nat)
      requires k < |running|
      modifies this
      ensures Now() == Step(old(Now()), Throws(k))
    {
      running := Without(running, k);
      refreshInFlight := false;
      clock := clock + 1;
    }
  }

  /** `changed || followUp`, from the innermost call outwards. */
  function AnyChanged(callers: seq<bool>): (r: bool)
    ensures r <==> true in callers
  {
    callers != [] && (callers[0] || AnyChanged(callers[1..]))
  }

  // ---------------------------------------------------------------------------------------------
  // What every run keeps

  ghost predicate NotAfter(a: Option<nat>, b: nat) {
    a.Some? ==> a.value <= b
  }

  /** The discovery's times fit the clock, and it saw the disk as it still is unless that changed since. */
  ghost predicate DiscoveryOk(d: Discovery, disk: seq<Path>, lastChange: Option<nat>, clock: nat) {
    && d.started < clock
    && (d.seen.Some? ==> d.started < d.seenAt < clock)
    && (d.seen.Some? && NotAfter(lastChange, d.seenAt) ==> d.seen.value == disk)
    && (true in d.callers <==> d.wrote)
  }

  ghost predicate TimesOk(s: State, h: Log) {
    && (h.lastRequest.Some? ==> h.lastRequest.value < s.clock)
    && (h.lastChange.Some? ==> h.lastChange.value < s.clock)
    && (s.running != [] ==> DiscoveryOk(s.running[0], s.disk, h.lastChange, s.clock))
    && (h.landed.Some? ==> h.landed.value.seen.Some? && DiscoveryOk(h.landed.value, s.disk, h.lastChange, s.clock))
  }

  /** At most one discovery, exactly while in flight. */
  ghost predicate OneFlight(s: State) {
    |s.running| == if s.inFlight then 1 else 0
  }

  /** No request came after the discovery in flight started. */
  ghost predicate FlightIsLatest(s: State, h: Log) {
    s.running != [] ==> NotAfter(h.lastRequest, s.running[0].started)
  }

  ghost predicate RequestsOk(s: State, h: Log) {
    && (s.inFlight ==> h.lastRequest.Some?)
    && (s.inFlight && !FlightIsLatest(s, h) ==> s.queued)
    && (!s.inFlight && h.lastRequest.Some? ==> h.lastEnded != NotYet)
    && (!s.inFlight && h.lastEnded == Landed ==> h.landed.Some? && NotAfter(h.lastRequest, h.landed.value.started))
    && (h.lastEnded == Landed ==> h.landed.Some? && s.currentSource == Generate(h.landed.value.seen.GetOr([])))
    && (h.lastWriteOk ==> s.file == Some(s.currentSource))
  }

  /** The last completed discovery started no earlier than the last request. */
  ghost predicate Fresh(h: Log) {
    h.landed.Some? && NotAfter(h.lastRequest, h.landed.value.started)
  }

  /** A discovery that has not landed leaves a request open, unless nobody asked for it. */
  ghost predicate AskedOk(s: State, h: Log) {
    && (s.inFlight ==> (h.during <==> !FlightIsLatest(s, h)))
    && (s.inFlight || h.lastEnded == Threw ==> (Fresh(h) <==> !h.asked && !h.during))
  }

  ghost predicate Inv(m: Moment) {
    OneFlight(m.state) && TimesOk(m.state, m.log) && RequestsOk(m.state, m.log) && AskedOk(m.state, m.log)
  }

  lemma Ages(d: Discovery, s: State, h: Log, e: Event)
    requires DiscoveryOk(d, s.disk, h.lastChange, s.clock)
    ensures DiscoveryOk(d, Step(s, e).disk, Note(h, s, e).lastChange, s.clock + 1)
  {
  }

  lemma Globbed(d: Discovery, s: State, h: Log)
    requires DiscoveryOk(d, s.disk, h.lastChange, s.clock)
    ensures DiscoveryOk(d.(seen := Some(s.disk), seenAt := s.clock), s.disk, h.lastChange, s.clock + 1)
  {
  }

  lemma Launched(started: nat, callers: seq<bool>, changed: bool, wrote: bool, disk: seq<Path>, lastChange: Option<nat>)
    requires true in callers <==> wrote
    ensures DiscoveryOk(Discovery(started, None, 0, callers + [changed], wrote || changed), disk, lastChange, started + 1)
    ensures DiscoveryOk(Discovery(started, None, 0, [], false), disk, lastChange, started + 1)
  {
    assert true in callers + [changed] <==> true in callers || changed;
  }

  lemma StepKeepsOneFlight(s: State, e: Event)
    requires OneFlight(s)
    ensures OneFlight(Step(s, e))
  {
  }

  lemma StepKeepsTimes(s: State, h: Log, e: Event)
    requires OneFlight(s) && TimesOk(s, h)
    ensures TimesOk(Step(s, e), Note(h, s, e))
  {
    hide DiscoveryOk, Land;
    if e.Lands? {
      LandKeepsTimes(s, h, e.k);
    } else {
      if h.landed.Some? { Ages(h.landed.value, s, h, e); }
      if s.running != [] {
        Ages(s.running[0], s, h, e);
        Globbed(s.running[0], s, h);
      }
      Launched(s.clock, [], false, false, s.disk, h.lastChange);
    }
  }

  lemma LandKeepsTimes(s: State, h: Log, k: nat)
    requires OneFlight(s) && TimesOk(s, h)
    ensures TimesOk(Step(s, Lands(k)), Note(h, s, Lands(k)))
  {
    hide DiscoveryOk;
    if h.landed.Some? { Ages(h.landed.value, s, h, Lands(k)); }
    if s.running != [] { Ages(s.running[0], s, h, Lands(k)); }
    if HasSeen(s, k) {
      var d, changed := s.running[0], NewSource(s, 0) != s.currentSource;
      CallersTell(d, s.disk, h.lastChange, s.clock);
      Launched(s.clock, d.callers, changed, d.wrote, s.disk, h.lastChange);
    }
  }

  lemma CallersTell(d: Discovery, disk: seq<Path>, lastChange: Option<nat>, clock: nat)
    requires DiscoveryOk(d, disk, lastChange, clock)
    ensures true in d.callers <==> d.wrote
  {
  }

  lemma StepKeepsRequests(s: State, h: Log, e: Event)
    requires OneFlight(s) && TimesOk(s, h) && RequestsOk(s, h)
    ensures RequestsOk(Step(s, e), Note(h, s, e))
  {
    assert s.running != [] ==> s.running[0].started < s.clock;
    hide TimesOk, DiscoveryOk, Land;
    if e.Lands? {
      LandKeepsRequests(s, h, e.k);
    }
  }

  lemma LandKeepsRequests(s: State, h: Log, k: nat)
    requires OneFlight(s) && TimesOk(s, h) && RequestsOk(s, h)
    ensures RequestsOk(Step(s, Lands(k)), Note(h, s, Lands(k)))
  {
    assert h.lastRequest.Some? ==> h.lastRequest.value < s.clock;
    hide TimesOk, DiscoveryOk;
  }

  lemma StepKeepsAsked(s: State, h: Log, e: Event)
    requires OneFlight(s) && TimesOk(s, h) && RequestsOk(s, h) && AskedOk(s, h)
    ensures AskedOk(Step(s, e), Note(h, s, e))
  {
    assert s.running != [] ==> s.running[0].started < s.clock;
    assert h.landed.Some? ==> h.landed.value.started < s.clock;
    hide TimesOk, DiscoveryOk;
    match e
    case Request =>
    case Change(_) =>
    case Glob(_) =>
    case Lands(_) =>
    case Throws(_) =>
    case WriteThrows(_) =>
  }

  lemma StepKeeps(s: State, h: Log, e: Event)
    requires Inv(Moment(s, h))
    ensures Inv(Moment(Step(s, e), Note(h, s, e)))
  {
    hide Step, Note, OneFlight, TimesOk, RequestsOk, AskedOk;
    StepKeepsOneFlight(s, e);
    StepKeepsTimes(s, h, e);
    StepKeepsRequests(s, h, e);
    StepKeepsAsked(s, h, e);
  }

  lemma {:induction false} EveryRun(disk: seq<Path>, file: Option<Source>, events: seq<Event>)
    ensures Inv(Run(disk, file, events))
    decreases |events|
  {
    if events != [] {
      var before := events[..|events| - 1];
      EveryRun(disk, file, before);
      StepKeeps(Run(disk, file, before).state, Run(disk, file, before).log, events[|events| - 1]);
    }
  }
}
