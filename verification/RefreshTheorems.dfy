/** No refresh is lost, and exactly how a throw can lose one. */
module RefreshTheorems {
  import opened Options
  import opened RefreshProtocol

  ghost predicate Quiet(events: seq<Event>) {
    forall e :: e in events ==> !e.Throws? && !e.WriteThrows?
  }

  ghost predicate Requested(m: Moment) {
    m.log.lastRequest.Some?
  }

  /** The written file is `currentSource`, generated from what the last completed discovery saw. */
  ghost predicate InSync(m: Moment) {
    && m.log.landed.Some? && m.log.landed.value.seen.Some?
    && m.state.currentSource == Generate(m.log.landed.value.seen.value)
    && m.state.file == Some(m.state.currentSource)
  }

  /** As long as nothing threw, the flag is only set behind a discovery in flight, and each was asked for. */
  ghost predicate QuietOk(m: Moment) {
    && m.log.lastEnded != Threw
    && (m.state.inFlight ==> m.log.asked)
    && (m.state.queued ==> m.state.inFlight && m.log.during)
    && (if m.log.landed.Some? then m.log.lastWriteOk else m.state.currentSource == Blank)
  }

  lemma QuietStep(m: Moment, e: Event)
    requires QuietOk(m) && !e.Throws? && !e.WriteThrows?
    ensures QuietOk(Then(m, e))
  {
  }

  lemma {:induction false} QuietRun(disk: seq<Path>, file: Option<Source>, events: seq<Event>)
    requires Quiet(events)
    ensures QuietOk(Run(disk, file, events))
    decreases |events|
  {
    hide Step, Note;
    if events != [] {
      var front, last := events[..|events| - 1], events[|events| - 1];
      QuietRun(disk, file, front);
      assert last in events;
      QuietStep(Run(disk, file, front), last);
    }
  }

  /** Without throws, however requests, changes and discoveries interleave, no request is lost, nor one made up. */
  lemma NoRefreshIsLost(disk: seq<Path>, file: Option<Source>, events: seq<Event>)
    requires Quiet(events)
    ensures var m := Run(disk, file, events);
            && |m.state.running| <= 1
            && (m.state.queued ==> m.state.inFlight)
            && (m.state.inFlight ==> m.log.asked)
            && (!m.state.inFlight && Requested(m) ==> Fresh(m.log) && InSync(m))
  {
    hide Run, Quiet;
    EveryRun(disk, file, events);
    QuietRun(disk, file, events);
  }

  /** So once the disk has been still since the last request, an idle plugin has written what is on it. */
  lemma QuietDiskIsShown(disk: seq<Path>, file: Option<Source>, events: seq<Event>)
    requires Quiet(events)
    ensures var m := Run(disk, file, events);
            !m.state.inFlight && Requested(m) && NotAfter(m.log.lastChange, m.log.lastRequest.value)
            ==> m.state.file == Some(Generate(m.state.disk))
  {
    hide Run, Quiet;
    NoRefreshIsLost(disk, file, events);
    EveryRun(disk, file, events);
  }

  /** Two discoveries are enough to come to rest, whatever happened before. */
  lemma TwoFlightsSettle(disk: seq<Path>, file: Option<Source>, events: seq<Event>)
    ensures var m := Run(disk, file, events + [Glob(0), Lands(0), Glob(0), Lands(0)]);
            !m.state.inFlight && (Run(disk, file, events).state.inFlight ==> Fresh(m.log))
  {
    hide *;
    var all := events + [Glob(0), Lands(0), Glob(0), Lands(0)];
    FourOn(disk, file, events, Glob(0), Lands(0), Glob(0), Lands(0));
    EveryRun(disk, file, events);
    EveryRun(disk, file, all);
    Settles(Run(disk, file, events));
    if Run(disk, file, events).state.inFlight { LandedIsFresh(Run(disk, file, all)); }
  }

  function Then(m: Moment, e: Event): Moment {
    Moment(Step(m.state, e), Note(m.log, m.state, e))
  }

  lemma RunOn(disk: seq<Path>, file: Option<Source>, events: seq<Event>, e: Event)
    ensures Run(disk, file, events + [e]) == Then(Run(disk, file, events), e)
  {
    assert (events + [e])[..|events|] == events;
  }

  lemma ThreeOn(disk: seq<Path>, file: Option<Source>, events: seq<Event>, e: Event, f: Event, g: Event)
    ensures Run(disk, file, events + [e, f, g]) == Then(Then(Then(Run(disk, file, events), e), f), g)
  {
    hide *;
    RunOn(disk, file, events, e);
    RunOn(disk, file, events + [e], f);
    RunOn(disk, file, events + [e] + [f], g);
    assert events + [e] + [f] + [g] == events + [e, f, g];
  }

  lemma FourOn(disk: seq<Path>, file: Option<Source>, events: seq<Event>, e: Event, f: Event, g: Event, h: Event)
    ensures Run(disk, file, events + [e, f, g, h]) == Then(Then(Then(Then(Run(disk, file, events), e), f), g), h)
  {
    hide *;
    ThreeOn(disk, file, events, e, f, g);
    RunOn(disk, file, events + [e, f, g], h);
    assert events + [e, f, g] + [h] == events + [e, f, g, h];
  }

  lemma Settles(m: Moment)
    requires Inv(m)
    ensures var last := Then(Then(Then(Then(m, Glob(0)), Lands(0)), Glob(0)), Lands(0));
            !last.state.inFlight && (m.state.inFlight ==> last.log.lastEnded == Landed)
  {
    var a := Then(m, Glob(0));
    var b := Then(a, Lands(0));
    var c := Then(b, Glob(0));
    if m.state.inFlight {
      assert HasSeen(a.state, 0) && b.log.lastEnded == Landed && !b.state.queued;
      assert b.state.inFlight ==> HasSeen(c.state, 0);
    }
  }

  lemma LandedIsFresh(m: Moment)
    requires Inv(m) && !m.state.inFlight && m.log.lastEnded == Landed
    ensures Fresh(m.log)
  {
  }

  /** The call that ends a chain of refreshes answers whether any of them wrote the file. */
  lemma AnswerTellsWrites(disk: seq<Path>, file: Option<Source>, events: seq<Event>, k: nat)
    ensures var s := Run(disk, file, events).state;
            HasSeen(s, k) ==> (Answer(s, k) <==> s.running[k].wrote || NewSource(s, k) != s.currentSource)
  {
    hide Run;
    EveryRun(disk, file, events);
    var s := Run(disk, file, events).state;
    if HasSeen(s, k) {
      var changed := NewSource(s, k) != s.currentSource;
      assert true in s.running[k].callers + [changed] <==> true in s.running[k].callers || changed;
    }
  }

  // ---------------------------------------------------------------------------------------------
  // With throws

  /**
   * Whatever throws: an idle plugin is fresh exactly if its last discovery landed, or nobody had asked for
   * it and nobody asked while it ran.
   */
  lemma FreshIffLanded(disk: seq<Path>, file: Option<Source>, events: seq<Event>)
    ensures var m := Run(disk, file, events);
            !m.state.inFlight && Requested(m) ==>
              (Fresh(m.log) <==> m.log.lastEnded == Landed || (!m.log.asked && !m.log.during))
  {
    hide Run;
    EveryRun(disk, file, events);
  }

  /** Whatever threw before: an idle plugin whose last discovery landed and whose last write went through is in sync. */
  lemma LandedAndWrittenIsInSync(disk: seq<Path>, file: Option<Source>, events: seq<Event>)
    ensures var m := Run(disk, file, events);
            !m.state.inFlight && m.log.lastEnded == Landed && m.log.lastWriteOk ==> Fresh(m.log) && InSync(m)
  {
    hide Run;
    EveryRun(disk, file, events);
  }

  lemma StartsIdle(disk: seq<Path>, file: Option<Source>)
    ensures var s := Run(disk, file, []).state;
            s.running == [] && !s.inFlight && !s.queued && s.file == file && s.currentSource == Blank && s.disk == disk
  {
  }

  /** The request queued behind a discovery that throws is not answered. */
  lemma ThrowLosesRequest(disk: seq<Path>, file: Option<Source>)
    ensures var m := Run(disk, file, [Request, Request, Throws(0)]);
            !m.state.inFlight && m.state.queued && Requested(m) && !Fresh(m.log)
  {
    ThreeOn(disk, file, [], Request, Request, Throws(0));
    assert [] + [Request, Request, Throws(0)] == [Request, Request, Throws(0)];
  }

  /** The flag a throw leaves behind later starts a discovery nobody asked for, whose own throw loses nothing. */
  lemma LeftoverStartsExtraFlight(disk: seq<Path>, file: Option<Source>)
    ensures var m := Run(disk, file, [Request, Request, Throws(0), Request, Glob(0), Lands(0), Throws(0)]);
            && !m.log.asked && !m.log.during
            && !m.state.inFlight && Fresh(m.log) && m.log.lastEnded == Threw
  {
    hide *;
    var first := [Request, Request, Throws(0)];
    ThreeOn(disk, file, [], Request, Request, Throws(0));
    assert [] + first == first;
    FourOn(disk, file, first, Request, Glob(0), Lands(0), Throws(0));
    assert first + [Request, Glob(0), Lands(0), Throws(0)] == [Request, Request, Throws(0), Request, Glob(0), Lands(0), Throws(0)];
    StartsIdle(disk, file);
    ExtraFlight(Run(disk, file, []), Run(disk, file, first));
  }

  lemma ExtraFlight(start: Moment, thrown: Moment)
    requires start.state.running == [] && !start.state.inFlight && !start.state.queued
    requires thrown == Then(Then(Then(start, Request), Request), Throws(0))
    ensures var last := Then(Then(Then(Then(thrown, Request), Glob(0)), Lands(0)), Throws(0));
            && !last.log.asked && !last.log.during
            && !last.state.inFlight && Fresh(last.log) && last.log.lastEnded == Threw
  {
    assert !thrown.state.inFlight && thrown.state.queued && thrown.state.running == [];
    var asked := Then(thrown, Request);
    assert asked.state.running == [Discovery(thrown.state.clock, None, 0, [], false)];
    var landed := Then(Then(asked, Glob(0)), Lands(0));
    assert landed.state.inFlight && |landed.state.running| == 1 && Fresh(landed.log);
  }

  // ---------------------------------------------------------------------------------------------
  // After a failed write

  /** Discovery `k` has something to write. */
  predicate Writes(s: State, k: nat) {
    HasSeen(s, k) && NewSource(s, k) != s.currentSource
  }

  /** `currentSource` and every discovery describe the disk as it is, so nothing is left to write. */
  ghost predicate Settled(s: State) {
    && s.currentSource == Generate(s.disk)
    && forall d :: d in s.running && d.seen.Some? ==> d.seen.value == s.disk
  }

  lemma StepKeepsSettled(s: State, e: Event)
    requires Settled(s) && OneFlight(s) && !e.Change?
    ensures Settled(Step(s, e)) && Step(s, e).file == s.file && Step(s, e).disk == s.disk
  {
    assert s.running != [] ==> s.running[0] in s.running;
  }

  lemma {:induction false} SettledRun(disk: seq<Path>, file: Option<Source>, events: seq<Event>, suffix: seq<Event>)
    requires Settled(Run(disk, file, events).state)
    requires forall e :: e in suffix ==> !e.Change?
    ensures var s, t := Run(disk, file, events).state, Run(disk, file, events + suffix).state;
            Settled(t) && t.file == s.file && t.disk == s.disk
    decreases |suffix|
  {
    hide *;
    if suffix == [] {
      assert events + suffix == events;
    } else {
      var front, e := suffix[..|suffix| - 1], suffix[|suffix| - 1];
      SettledRun(disk, file, events, front);
      assert events + suffix == (events + front) + [e];
      RunOn(disk, file, events + front, e);
      EveryRun(disk, file, events + front);
      SettledStep(Run(disk, file, events + front), e);
    }
  }

  lemma SettledStep(m: Moment, e: Event)
    requires Inv(m) && Settled(m.state) && !e.Change?
    ensures Settled(Then(m, e).state) && Then(m, e).state.file == m.state.file && Then(m, e).state.disk == m.state.disk
  {
    hide Step, Settled;
    StepKeepsSettled(m.state, e);
  }

  /**
   * A failed write is not tried again: if the disk is still what the discovery saw, no events without a
   * change of the disk ever change the file.
   */
  lemma FailedWriteStays(disk: seq<Path>, file: Option<Source>, events: seq<Event>, k: nat, suffix: seq<Event>)
    requires var s := Run(disk, file, events).state; Writes(s, k) && s.running[k].seen.value == s.disk
    requires forall e :: e in suffix ==> !e.Change?
    ensures var s, t := Run(disk, file, events).state, Run(disk, file, events + [WriteThrows(k)] + suffix).state;
            t.file == s.file && t.currentSource == Generate(s.disk)
  {
    hide *;
    RunOn(disk, file, events, WriteThrows(k));
    EveryRun(disk, file, events);
    WriteFails(Run(disk, file, events), k);
    SettledRun(disk, file, events + [WriteThrows(k)], suffix);
    SettledMeaning(Run(disk, file, events + [WriteThrows(k)] + suffix).state);
  }

  lemma SettledMeaning(s: State)
    requires Settled(s)
    ensures s.currentSource == Generate(s.disk)
  {
  }

  lemma WriteFails(m: Moment, k: nat)
    requires Inv(m) && Writes(m.state, k)
    ensures var t := Then(m, WriteThrows(k)).state;
      && !t.inFlight && t.running == [] && t.file == m.state.file && t.disk == m.state.disk
      && t.currentSource == NewSource(m.state, k)
      && (m.state.running[k].seen.value == m.state.disk ==> Settled(t))
  {
  }

  /** The next refresh writes if and only if the disk no longer is what the failed one saw. */
  lemma FailedWriteRetried(disk: seq<Path>, file: Option<Source>, events: seq<Event>, k: nat)
    requires Writes(Run(disk, file, events).state, k)
    ensures var s, m := Run(disk, file, events).state, Run(disk, file, events + [WriteThrows(k)] + [Request, Glob(0), Lands(0)]);
            && (m.log.lastWriteOk <==> s.running[k].seen.value != s.disk)
            && m.state.currentSource == Generate(s.disk)
            && m.state.file == (if m.log.lastWriteOk then Some(m.state.currentSource) else s.file)
  {
    hide *;
    RunOn(disk, file, events, WriteThrows(k));
    EveryRun(disk, file, events);
    WriteFails(Run(disk, file, events), k);
    ThreeOn(disk, file, events + [WriteThrows(k)], Request, Glob(0), Lands(0));
    Retried(Run(disk, file, events), k);
  }

  lemma Retried(m: Moment, k: nat)
    requires Inv(m) && Writes(m.state, k)
    ensures var last := Then(Then(Then(Then(m, WriteThrows(k)), Request), Glob(0)), Lands(0));
      && (last.log.lastWriteOk <==> m.state.running[k].seen.value != m.state.disk)
      && last.state.currentSource == Generate(m.state.disk)
      && last.state.file == (if last.log.lastWriteOk then Some(last.state.currentSource) else m.state.file)
  {
    WriteFails(m, k);
    var failed := Then(m, WriteThrows(k));
    var asked := Then(failed, Request);
    assert asked.state.running == [Discovery(failed.state.clock, None, 0, [], false)];
    assert !failed.log.lastWriteOk;
  }
}
