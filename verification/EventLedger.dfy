/** How many events a run emits, under any pattern of faults, spec edits and outside writes. */
module EventLedger {
  import opened Api
  import opened Scaling
  import opened ReconcileStep
  import opened Runs

  /** The outcomes announced by a Warning. */
  predicate Failure(r: Reason) { r.MetricsUnavailable? || r.TargetDeploymentNotFound? || r.ScaleFailed? }

  function One(b: bool): nat { if b then 1 else 0 }

  function Abs(x: int): nat { if x < 0 then -x else x }

  function Warnings(log: seq<Event>, r: Reason): nat {
    if log == [] then 0 else One(log[0].kind == Warning && log[0].reason == r) + Warnings(log[1..], r)
  }

  function Recoveries(log: seq<Event>, r: Reason): nat {
    if log == [] then 0
    else One(log[0].reason == Recovered && log[0].detail == RecoveredFrom(r)) + Recoveries(log[1..], r)
  }

  /** Maximal blocks of consecutive visits with outcome `r`, when the visit before had outcome `last`. */
  function Episodes(last: Reason, trace: seq<Visit>, r: Reason): nat
    decreases |trace|
  {
    if trace == [] then 0
    else One(trace[0].exit.update.reason == r && last != r) + Episodes(trace[0].exit.update.reason, trace[1..], r)
  }

  /** Blocks of `r` that end with a visit whose outcome is `cause`. */
  function CutShort(last: Reason, trace: seq<Visit>, r: Reason, cause: Reason): nat
    decreases |trace|
  {
    if trace == [] then 0
    else
      var now := trace[0].exit.update.reason;
      One(last == r && now == cause) + CutShort(now, trace[1..], r, cause)
  }

  // ---------- One visit ----------

  lemma {:induction false} CountsOfConcat(a: seq<Event>, b: seq<Event>, r: Reason)
    ensures Warnings(a + b, r) == Warnings(a, r) + Warnings(b, r)
    ensures Recoveries(a + b, r) == Recoveries(a, r) + Recoveries(b, r)
  {
    if a == [] {
      assert a + b == b;
    } else {
      CountsOfConcat(a[1..], b, r);
      assert (a + b)[1..] == a[1..] + b;
    }
  }

  /** The announcement of an outcome itself: a Warning on entering a failure, or the scale event. */
  function Announced(prior: Reason, u: StatusUpdate, scaled: seq<Event>): seq<Event> {
    if Failure(u.reason) then WarningUnless(prior == u.reason, u.reason, u.message) else scaled
  }

  /** The events of a visit follow from the stored reason and the outcome: a Recovered on leaving an
      observation failure, except that a missing Deployment is left silently into a metrics failure,
      and then the announcement. */
  lemma EventsOfVisit(wl: Resource, deployments: map<string, Deployment>, f: Faults) returns (scaled: seq<Event>)
    ensures var exit := ExitOf(wl, deployments, f);
            var prior := wl.status.lastTransitionReason;
            var now := exit.update.reason;
            && exit.events
               == RecoveredIf(prior == MetricsUnavailable && now != MetricsUnavailable, MetricsUnavailable)
                  + RecoveredIf(prior == TargetDeploymentNotFound && now != TargetDeploymentNotFound
                                && now != MetricsUnavailable, TargetDeploymentNotFound)
                  + Announced(prior, exit.update, scaled)
    ensures var now := ExitOf(wl, deployments, f).update.reason;
            if now == ScaledUp || now == ScaledDown
            then |scaled| == 1 && scaled[0].kind == Normal && scaled[0].reason == now && scaled[0].detail.Scaled?
            else scaled == []
  {
    var exit := ExitOf(wl, deployments, f);
    var prior := wl.status.lastTransitionReason;
    scaled := if exit.commit.Some? then [exit.events[|exit.events| - 1]] else [];
    if f.metrics.Err? {
      assert exit.update.reason == MetricsUnavailable;
    } else if GetDeployment(deployments, wl.spec.targetDeployment, f.getFault).Err? {
      assert exit.update.reason == TargetDeploymentNotFound;
    } else {
      assert !exit.update.reason.MetricsUnavailable? && !exit.update.reason.TargetDeploymentNotFound?;
      assert exit.events == RecoveredIf(prior == MetricsUnavailable, prior)
                            + RecoveredIf(prior == TargetDeploymentNotFound, prior)
                            + Announced(prior, exit.update, scaled);
    }
  }

  /** The events of one visit, counted. */
  lemma VisitCounts(wl: Resource, deployments: map<string, Deployment>, f: Faults, r: Reason)
    ensures var exit := ExitOf(wl, deployments, f);
            var prior := wl.status.lastTransitionReason;
            var now := exit.update.reason;
            && Warnings(exit.events, r) == One(Failure(r) && now == r && prior != r)
            && Recoveries(exit.events, r)
               == One(prior == r && now != r
                      && (r.MetricsUnavailable? || (r.TargetDeploymentNotFound? && now != MetricsUnavailable)))
  {
    var prior := wl.status.lastTransitionReason;
    var u := ExitOf(wl, deployments, f).update;
    var scaled := EventsOfVisit(wl, deployments, f);
    var e1 := RecoveredIf(prior == MetricsUnavailable && u.reason != MetricsUnavailable, MetricsUnavailable);
    var e2 := RecoveredIf(prior == TargetDeploymentNotFound && u.reason != TargetDeploymentNotFound
                          && u.reason != MetricsUnavailable, TargetDeploymentNotFound);
    CountsOfConcat(e1 + e2, Announced(prior, u, scaled), r);
    CountsOfConcat(e1, e2, r);
    RecoveryCounts(prior == MetricsUnavailable && u.reason != MetricsUnavailable, MetricsUnavailable, r);
    RecoveryCounts(prior == TargetDeploymentNotFound && u.reason != TargetDeploymentNotFound
                   && u.reason != MetricsUnavailable, TargetDeploymentNotFound, r);
    AnnouncementCounts(prior, u, scaled, r);
  }

  lemma RecoveryCounts(recovered: bool, prior: Reason, r: Reason)
    ensures var e := RecoveredIf(recovered, prior);
            Warnings(e, r) == 0 && Recoveries(e, r) == One(recovered && prior == r)
  {}

  lemma AnnouncementCounts(prior: Reason, u: StatusUpdate, scaled: seq<Event>, r: Reason)
    requires |scaled| <= 1 && (scaled == [] || (scaled[0].kind == Normal && scaled[0].detail.Scaled?))
    ensures var e := Announced(prior, u, scaled);
            && Warnings(e, r) == One(Failure(r) && u.reason == r && prior != r)
            && Recoveries(e, r) == 0
  {}

  // ---------- Traces ----------

  /** A visit's events, counted for reason `r`, are what its stored reason and its outcome call for. */
  ghost predicate Announces(v: Visit, r: Reason) {
    var now := v.exit.update.reason;
    && Warnings(v.exit.events, r) == One(Failure(r) && now == r && v.Prior() != r)
    && Recoveries(v.exit.events, r)
       == One(v.Prior() == r && now != r
              && (r.MetricsUnavailable? || (r.TargetDeploymentNotFound? && now != MetricsUnavailable)))
  }

  function StoredAfter(stored: Reason, v: Visit): Reason { if v.Persisted() then v.exit.update.reason else stored }

  function StoredReason(stored: Reason, trace: seq<Visit>): Reason
    decreases |trace|
  {
    if trace == [] then stored else StoredReason(StoredAfter(stored, trace[0]), trace[1..])
  }

  /** Each visit announces what its own stored reason and outcome call for. One whose status write persisted
      read the reason that the last persisted write stored; one whose write was lost may have read any older. */
  ghost predicate Coherent(stored: Reason, trace: seq<Visit>, r: Reason)
    decreases |trace|
  {
    trace == [] || (&& (trace[0].Persisted() ==> trace[0].Prior() == stored)
                    && Announces(trace[0], r)
                    && Coherent(StoredAfter(stored, trace[0]), trace[1..], r))
  }

  /** Visits that read a resource so old that it was wrong about `r`. */
  function StaleReads(stored: Reason, trace: seq<Visit>, r: Reason): nat
    decreases |trace|
  {
    if trace == [] then 0
    else One((trace[0].Prior() == r) != (stored == r)) + StaleReads(StoredAfter(stored, trace[0]), trace[1..], r)
  }

  /** Every run leaves a coherent trace, whatever faults, stale reads, edits and outside writes it contains. */
  lemma {:induction false} TracesAreCoherent(s: State, steps: seq<Step>, r: Reason)
    ensures Coherent(s.wl.status.lastTransitionReason, Trace(s, steps), r)
    ensures Run(s, steps).wl.status.lastTransitionReason
         == StoredReason(s.wl.status.lastTransitionReason, Trace(s, steps))
    decreases |steps|
  {
    if steps != [] {
      var s' := Next(s, steps[0]);
      var v := Visits(s, steps[0]);
      TracesAreCoherent(s', steps[1..], r);
      if v == [] {
        assert Trace(s, steps) == Trace(s', steps[1..]);
      } else {
        VisitOf(s, steps[0], r);
        assert Trace(s, steps)[0] == v[0];
        assert Trace(s, steps)[1..] == Trace(s', steps[1..]);
      }
    }
  }

  lemma {:induction false} FreshReads(s: State, steps: seq<Step>, r: Reason)
    requires forall step :: step in steps ==> !step.StaleReconcile?
    ensures StaleReads(s.wl.status.lastTransitionReason, Trace(s, steps), r) == 0
    decreases |steps|
  {
    if steps != [] {
      var s' := Next(s, steps[0]);
      var v := Visits(s, steps[0]);
      assert steps[0] in steps;
      FreshReads(s', steps[1..], r);
      if v == [] {
        assert Trace(s, steps) == Trace(s', steps[1..]);
      } else {
        VisitOf(s, steps[0], r);
        assert Trace(s, steps)[0] == v[0];
        assert Trace(s, steps)[1..] == Trace(s', steps[1..]);
      }
    }
  }

  lemma VisitOf(s: State, step: Step, r: Reason)
    requires Visits(s, step) != []
    ensures var (stored, v) := (s.wl.status.lastTransitionReason, Visits(s, step)[0]);
            && Next(s, step).wl.status.lastTransitionReason == StoredAfter(stored, v)
            && (v.Persisted() || !step.StaleReconcile? ==> v.Prior() == stored)
            && Announces(v, r)
  {
    VisitCounts(if step.StaleReconcile? then step.cached else s.wl, s.deployments, step.f, r);
  }

  lemma LogCounts(trace: seq<Visit>, r: Reason)
    requires trace != []
    ensures Warnings(Events(trace), r) == Warnings(trace[0].exit.events, r) + Warnings(Events(trace[1..]), r)
    ensures Recoveries(Events(trace), r) == Recoveries(trace[0].exit.events, r) + Recoveries(Events(trace[1..]), r)
  {
    CountsOfConcat(trace[0].exit.events, Events(trace[1..]), r);
  }

  // ---------- Deduplication ----------

  /** Warnings count episodes up to one error per failed status write: a lost write, by a fault or by a conflict
      after a stale read, can repeat a Warning or merge two episodes into one, but nothing else can. */
  lemma DedupDegradesGracefully(s: State, steps: seq<Step>, r: Reason)
    requires Failure(r)
    ensures var stored := s.wl.status.lastTransitionReason;
            Abs(Warnings(Log(s, steps), r) - Episodes(stored, Trace(s, steps), r)) <= FailedWrites(Trace(s, steps))
  {
    var stored := s.wl.status.lastTransitionReason;
    TracesAreCoherent(s, steps, r);
    DedupFrom(stored, stored, Trace(s, steps), r);
  }

  /** The same from any real last outcome, which the stored reason may have missed. */
  lemma {:induction false} DedupFrom(stored: Reason, last: Reason, trace: seq<Visit>, r: Reason)
    requires Failure(r) && Coherent(stored, trace, r)
    ensures Warnings(Events(trace), r) - Episodes(last, trace, r)
            <= FailedWrites(trace) + One(stored != r && last == r)
    ensures Episodes(last, trace, r) - Warnings(Events(trace), r)
            <= FailedWrites(trace) + One(stored == r && last != r)
    decreases |trace|
  {
    if trace != [] {
      var now := trace[0].exit.update.reason;
      LogCounts(trace, r);
      assert Episodes(last, trace, r) == One(now == r && last != r) + Episodes(now, trace[1..], r);
      assert FailedWrites(trace) == One(!trace[0].Persisted()) + FailedWrites(trace[1..]);
      DedupFrom(StoredAfter(stored, trace[0]), now, trace[1..], r);
    }
  }

  /** A visit is announced wrongly exactly when its outcome is `r` and the stored reason and the last real
      outcome disagree on `r`. */
  lemma AnnouncedWronglyIff(wl: Resource, deployments: map<string, Deployment>, f: Faults, last: Reason, r: Reason)
    requires Failure(r)
    ensures var exit := ExitOf(wl, deployments, f);
            Warnings(exit.events, r) != One(exit.update.reason == r && last != r)
            <==> exit.update.reason == r && (wl.status.lastTransitionReason == r) != (last == r)
  {
    VisitCounts(wl, deployments, f, r);
  }

  /** The visits of a trace announced wrongly: those that repeat the Warning of an episode that goes on, or,
      if not `repeated`, those that start an episode without one. */
  function Misread(last: Reason, trace: seq<Visit>, r: Reason, repeated: bool): nat
    decreases |trace|
  {
    if trace == [] then 0
    else
      var v := trace[0];
      One(v.exit.update.reason == r && (last == r) == repeated && (v.Prior() == r) != repeated)
      + Misread(v.exit.update.reason, trace[1..], r, repeated)
  }

  /** Warnings differ from episodes exactly by the repeated less the hidden ones. */
  lemma WarningsExactly(s: State, steps: seq<Step>, r: Reason)
    requires Failure(r)
    ensures var (stored, trace) := (s.wl.status.lastTransitionReason, Trace(s, steps));
            Warnings(Log(s, steps), r)
            == Episodes(stored, trace, r) + Misread(stored, trace, r, true) - Misread(stored, trace, r, false)
  {
    TracesAreCoherent(s, steps, r);
    WarningsOfTrace(s.wl.status.lastTransitionReason, s.wl.status.lastTransitionReason, Trace(s, steps), r);
  }

  lemma {:induction false} WarningsOfTrace(stored: Reason, last: Reason, trace: seq<Visit>, r: Reason)
    requires Failure(r) && Coherent(stored, trace, r)
    ensures Warnings(Events(trace), r)
         == Episodes(last, trace, r) + Misread(last, trace, r, true) - Misread(last, trace, r, false)
    decreases |trace|
  {
    if trace != [] {
      LogCounts(trace, r);
      WarningsOfTrace(StoredAfter(stored, trace[0]), trace[0].exit.update.reason, trace[1..], r);
    }
  }

  /** With no failed status write, a sustained failure is announced exactly once. */
  lemma OneWarningPerEpisode(s: State, steps: seq<Step>, r: Reason)
    requires Failure(r) && AllPersisted(Trace(s, steps))
    ensures Warnings(Log(s, steps), r) == Episodes(s.wl.status.lastTransitionReason, Trace(s, steps), r)
  {
    DedupDegradesGracefully(s, steps, r);
    PersistedHasNoFailures(Trace(s, steps));
  }

  /** A reconcile whose metrics fetch fails, with or without its status write. */
  function Outage(persisted: bool): Step {
    Reconcile(Faults(Found, Err("connection refused"), None, None, !persisted, Clock(0, 0, 0)))
  }

  /** `n` lost writes in one sustained outage, then one that persists. */
  function LongOutage(n: nat): seq<Step> {
    if n == 0 then [Outage(true)] else [Outage(false)] + LongOutage(n - 1)
  }

  /** The deduplication bound is attained at every `n`: one episode, `n` lost writes, `n` extra Warnings. */
  lemma {:induction false} DedupBoundIsTight(s: State, n: nat)
    requires s.wl.status.lastTransitionReason != MetricsUnavailable
    ensures FailedWrites(Trace(s, LongOutage(n))) == n
    ensures Warnings(Log(s, LongOutage(n)), MetricsUnavailable) == n + 1
    ensures forall last ::
              Episodes(last, Trace(s, LongOutage(n)), MetricsUnavailable) == One(last != MetricsUnavailable)
    decreases n
  {
    var trace := Trace(s, LongOutage(n));
    var f := LongOutage(n)[0].f;
    assert trace[0] == Visits(s, LongOutage(n)[0])[0];
    LogCounts(trace, MetricsUnavailable);
    VisitCounts(s.wl, s.deployments, f, MetricsUnavailable);
    if n == 0 {
      assert trace[1..] == [];
    } else {
      assert LongOutage(n)[1..] == LongOutage(n - 1);
      assert Next(s, LongOutage(n)[0]).wl == s.wl;
      assert trace[1..] == Trace(Next(s, LongOutage(n)[0]), LongOutage(n - 1));
      DedupBoundIsTight(Next(s, LongOutage(n)[0]), n - 1);
    }
  }

  /** A reconcile that gets past the metrics but not to the Deployment, and whose status write is lost. */
  function Lapse(): Step {
    Reconcile(Faults(Found, Ok(Metrics(0, 0)), Some("timeout"), None, true, Clock(0, 0, 0)))
  }

  function Flicker(n: nat): seq<Step> {
    if n == 0 then [] else [Lapse(), Outage(true)] + Flicker(n - 1)
  }

  /** And attained on the other side: `n` lost writes hide `n` new episodes, none of which is announced. */
  lemma {:induction false} LostWritesHideEpisodes(s: State, n: nat)
    requires s.wl.status.lastTransitionReason == MetricsUnavailable
    ensures FailedWrites(Trace(s, Flicker(n))) == n
    ensures Episodes(MetricsUnavailable, Trace(s, Flicker(n)), MetricsUnavailable) == n
    ensures Warnings(Log(s, Flicker(n)), MetricsUnavailable) == 0
    decreases n
  {
    if n > 0 {
      var s' := Next(Next(s, Lapse()), Outage(true));
      var rest := Trace(s', Flicker(n - 1));
      FlickerUnfolds(s, n);
      LostWritesHideEpisodes(s', n - 1);
      var trace := Trace(s, Flicker(n));
      assert trace[1..][1..] == rest;
      LogCounts(trace, MetricsUnavailable);
      LogCounts(trace[1..], MetricsUnavailable);
    }
  }

  lemma FlickerUnfolds(s: State, n: nat)
    requires s.wl.status.lastTransitionReason == MetricsUnavailable && n > 0
    ensures var s1 := Next(s, Lapse());
            var (v1, v2) := (Visits(s, Lapse())[0], Visits(s1, Outage(true))[0]);
            && Trace(s, Flicker(n)) == [v1] + ([v2] + Trace(Next(s1, Outage(true)), Flicker(n - 1)))
            && Next(s1, Outage(true)).wl.status.lastTransitionReason == MetricsUnavailable
            && !v1.Persisted() && v1.exit.update.reason == TargetDeploymentNotFound
            && v2.Persisted() && v2.exit.update.reason == MetricsUnavailable
            && Warnings(v1.exit.events, MetricsUnavailable) == Warnings(v2.exit.events, MetricsUnavailable) == 0
  {
    var s1 := Next(s, Lapse());
    assert s1.wl == s.wl;
    assert Flicker(n)[1..] == [Outage(true)] + Flicker(n - 1) && Flicker(n)[1..][1..] == Flicker(n - 1);
    assert Trace(s, Flicker(n)) == Visits(s, Lapse()) + Trace(s1, Flicker(n)[1..]);
    VisitCounts(s.wl, s.deployments, Lapse().f, MetricsUnavailable);
    VisitCounts(s1.wl, s1.deployments, Outage(true).f, MetricsUnavailable);
  }

  // ---------- Recovery ----------

  /** A metrics failure is announced and recovered from in balance, up to one per failed status write. */
  lemma MetricsLedger(s: State, steps: seq<Step>)
    ensures var before := One(s.wl.status.lastTransitionReason == MetricsUnavailable);
            var now := One(Run(s, steps).wl.status.lastTransitionReason == MetricsUnavailable);
            Abs(Warnings(Log(s, steps), MetricsUnavailable) - Recoveries(Log(s, steps), MetricsUnavailable)
                - (now - before))
            <= FailedWrites(Trace(s, steps))
  {
    TracesAreCoherent(s, steps, MetricsUnavailable);
    MetricsBalance(s.wl.status.lastTransitionReason, Trace(s, steps));
  }

  lemma {:induction false} MetricsBalance(stored: Reason, trace: seq<Visit>)
    requires Coherent(stored, trace, MetricsUnavailable)
    ensures Abs(Warnings(Events(trace), MetricsUnavailable) - Recoveries(Events(trace), MetricsUnavailable)
                - (One(StoredReason(stored, trace) == MetricsUnavailable) - One(stored == MetricsUnavailable)))
            <= FailedWrites(trace)
    decreases |trace|
  {
    if trace != [] {
      LogCounts(trace, MetricsUnavailable);
      MetricsBalance(StoredAfter(stored, trace[0]), trace[1..]);
    }
  }

  /** With every status write persisting, the imbalance is exactly the current failure, if any. */
  lemma MetricsLedgerExact(s: State, steps: seq<Step>)
    requires s.wl.status.lastTransitionReason == Unset && AllPersisted(Trace(s, steps))
    ensures Warnings(Log(s, steps), MetricsUnavailable) - Recoveries(Log(s, steps), MetricsUnavailable)
            == One(Run(s, steps).wl.status.lastTransitionReason == MetricsUnavailable)
  {
    TracesAreCoherent(s, steps, MetricsUnavailable);
    PersistedHasNoFailures(Trace(s, steps));
    MetricsBalance(Unset, Trace(s, steps));
  }

  /** The Warnings and Recovered events of `r`, read in order, strictly alternate, starting with a
      Recovered if one is `pending`. */
  ghost predicate Alternates(log: seq<Event>, r: Reason, pending: bool) {
    if log == [] then true
    else if Warnings(log[..1], r) == 1 then !pending && Alternates(log[1..], r, true)
    else if Recoveries(log[..1], r) == 1 then pending && Alternates(log[1..], r, false)
    else Alternates(log[1..], r, pending)
  }

  /** With every status write persisting, no outage is announced twice and none is closed twice. */
  lemma MetricsEventsAlternate(s: State, steps: seq<Step>)
    requires AllPersisted(Trace(s, steps))
    ensures Alternates(Log(s, steps), MetricsUnavailable, s.wl.status.lastTransitionReason == MetricsUnavailable)
  {
    TracesAreCoherent(s, steps, MetricsUnavailable);
    CoherentAlternates(s.wl.status.lastTransitionReason, Trace(s, steps));
  }

  lemma {:induction false} CoherentAlternates(stored: Reason, trace: seq<Visit>)
    requires Coherent(stored, trace, MetricsUnavailable) && AllPersisted(trace)
    ensures Alternates(Events(trace), MetricsUnavailable, stored == MetricsUnavailable)
    decreases |trace|
  {
    if trace != [] {
      assert trace[0].Persisted();
      CoherentAlternates(StoredAfter(stored, trace[0]), trace[1..]);
      AlternatesAfterOne(trace[0].exit.events, Events(trace[1..]), MetricsUnavailable, stored == MetricsUnavailable);
    }
  }

  /** A stretch of log with at most one event of `r` flips the alternation at most once. */
  lemma {:induction false} AlternatesAfterOne(a: seq<Event>, b: seq<Event>, r: Reason, pending: bool)
    requires Warnings(a, r) + Recoveries(a, r) <= 1
    requires Warnings(a, r) == 1 ==> !pending
    requires Recoveries(a, r) == 1 ==> pending
    requires Alternates(b, r, if Warnings(a, r) + Recoveries(a, r) == 1 then !pending else pending)
    ensures Alternates(a + b, r, pending)
    decreases |a|
  {
    if a == [] {
      assert a + b == b;
    } else {
      assert (a + b)[1..] == a[1..] + b;
      assert (a + b)[..1] == a[..1] && a == a[..1] + a[1..];
      CountsOfConcat(a[..1], a[1..], r);
      AlternatesAfterOne(a[1..], b, r, if Warnings(a[..1], r) + Recoveries(a[..1], r) == 1 then !pending else pending);
    }
  }

  /** A missing Deployment is announced once more than it is recovered from while it is missing, and once
      more for good each time a metrics failure cuts its episode short, up to one per failed status write and
      one more per read too old to know whether it was missing. */
  lemma DeploymentLedger(s: State, steps: seq<Step>)
    ensures var before := s.wl.status.lastTransitionReason;
            var now := Run(s, steps).wl.status.lastTransitionReason;
            Abs(Warnings(Log(s, steps), TargetDeploymentNotFound) - Recoveries(Log(s, steps), TargetDeploymentNotFound)
                - (One(now == TargetDeploymentNotFound) - One(before == TargetDeploymentNotFound)
                   + CutShort(before, Trace(s, steps), TargetDeploymentNotFound, MetricsUnavailable)))
            <= FailedWrites(Trace(s, steps)) + StaleReads(before, Trace(s, steps), TargetDeploymentNotFound)
    ensures (forall step :: step in steps ==> !step.StaleReconcile?) ==>
              StaleReads(s.wl.status.lastTransitionReason, Trace(s, steps), TargetDeploymentNotFound) == 0
  {
    var before := s.wl.status.lastTransitionReason;
    TracesAreCoherent(s, steps, TargetDeploymentNotFound);
    if forall step :: step in steps ==> !step.StaleReconcile? {
      FreshReads(s, steps, TargetDeploymentNotFound);
    }
    DeploymentBalance(before, before, Trace(s, steps));
  }

  /** What the stored reason misses of the last real outcome. */
  function Missed(stored: Reason, last: Reason): int {
    One(stored == TargetDeploymentNotFound) - One(last == TargetDeploymentNotFound)
  }

  /** How far a trace's log is from what the ledger says is due. */
  function Imbalance(stored: Reason, last: Reason, trace: seq<Visit>): int {
    Warnings(Events(trace), TargetDeploymentNotFound) - Recoveries(Events(trace), TargetDeploymentNotFound)
    - (One(StoredReason(stored, trace) == TargetDeploymentNotFound) - One(stored == TargetDeploymentNotFound)
       + CutShort(last, trace, TargetDeploymentNotFound, MetricsUnavailable))
  }

  function VisitImbalance(stored: Reason, last: Reason, v: Visit): int {
    Warnings(v.exit.events, TargetDeploymentNotFound) - Recoveries(v.exit.events, TargetDeploymentNotFound)
    - (One(StoredAfter(stored, v) == TargetDeploymentNotFound) - One(stored == TargetDeploymentNotFound)
       + One(last == TargetDeploymentNotFound && v.exit.update.reason == MetricsUnavailable))
  }

  function Excused(stored: Reason, trace: seq<Visit>): nat {
    FailedWrites(trace) + StaleReads(stored, trace, TargetDeploymentNotFound)
  }

  function VisitExcused(stored: Reason, v: Visit): nat {
    One(!v.Persisted()) + One((v.Prior() == TargetDeploymentNotFound) != (stored == TargetDeploymentNotFound))
  }

  lemma ImbalanceUnfolds(stored: Reason, last: Reason, trace: seq<Visit>)
    requires trace != []
    ensures Imbalance(stored, last, trace)
         == VisitImbalance(stored, last, trace[0])
            + Imbalance(StoredAfter(stored, trace[0]), trace[0].exit.update.reason, trace[1..])
  {
    var (after, now) := (StoredAfter(stored, trace[0]), trace[0].exit.update.reason);
    LogCounts(trace, TargetDeploymentNotFound);
    assert StoredReason(stored, trace) == StoredReason(after, trace[1..]);
    assert CutShort(last, trace, TargetDeploymentNotFound, MetricsUnavailable)
        == One(last == TargetDeploymentNotFound && now == MetricsUnavailable)
           + CutShort(now, trace[1..], TargetDeploymentNotFound, MetricsUnavailable);
  }

  lemma ExcusedUnfolds(stored: Reason, trace: seq<Visit>)
    requires trace != []
    ensures Excused(stored, trace)
         == VisitExcused(stored, trace[0]) + Excused(StoredAfter(stored, trace[0]), trace[1..])
  {}

  /** The same from any real last outcome. What the stored reason missed of it is an error already made. */
  lemma {:induction false} DeploymentBalance(stored: Reason, last: Reason, trace: seq<Visit>)
    requires Coherent(stored, trace, TargetDeploymentNotFound)
    ensures Abs(Imbalance(stored, last, trace) - Missed(stored, last))
            <= Excused(stored, trace) + Abs(Missed(stored, last))
    decreases |trace|
  {
    if trace != [] {
      var (after, now) := (StoredAfter(stored, trace[0]), trace[0].exit.update.reason);
      ImbalanceUnfolds(stored, last, trace);
      ExcusedUnfolds(stored, trace);
      VisitBalance(stored, last, trace[0]);
      DeploymentBalance(after, now, trace[1..]);
      ErrorsChain(VisitImbalance(stored, last, trace[0]), Imbalance(after, now, trace[1..]), Missed(stored, last),
                  Missed(after, now), VisitExcused(stored, trace[0]), Excused(after, trace[1..]));
    }
  }

  /** One visit makes or corrects an error only if its write is lost or its read stale. */
  lemma VisitBalance(stored: Reason, last: Reason, v: Visit)
    requires (v.Persisted() ==> v.Prior() == stored) && Announces(v, TargetDeploymentNotFound)
    ensures var left := Missed(StoredAfter(stored, v), v.exit.update.reason);
            Abs(VisitImbalance(stored, last, v) + left - Missed(stored, last)) + Abs(left)
            <= VisitExcused(stored, v) + Abs(Missed(stored, last))
  {}

  lemma ErrorsChain(first: int, rest: int, before: int, between: int, cost: nat, costs: nat)
    requires Abs(first + between - before) + Abs(between) <= cost + Abs(before)
    requires Abs(rest - between) <= costs + Abs(between)
    ensures Abs(first + rest - before) <= cost + costs + Abs(before)
  {}

  /** With every status write persisting, that ledger is exact. */
  lemma DeploymentLedgerExact(s: State, steps: seq<Step>)
    requires AllPersisted(Trace(s, steps))
    ensures var before := s.wl.status.lastTransitionReason;
            var now := Run(s, steps).wl.status.lastTransitionReason;
            Warnings(Log(s, steps), TargetDeploymentNotFound) - Recoveries(Log(s, steps), TargetDeploymentNotFound)
            == One(now == TargetDeploymentNotFound) - One(before == TargetDeploymentNotFound)
               + CutShort(before, Trace(s, steps), TargetDeploymentNotFound, MetricsUnavailable)
  {
    var (before, trace) := (s.wl.status.lastTransitionReason, Trace(s, steps));
    TracesAreCoherent(s, steps, TargetDeploymentNotFound);
    DeploymentBalance(before, before, trace);
    PersistedHasNoFailures(trace);
    PersistedReadsFresh(before, trace, TargetDeploymentNotFound);
    assert Missed(before, before) == 0 && Excused(before, trace) == 0;
    assert Imbalance(before, before, trace) == 0;
  }

  lemma {:induction false} PersistedReadsFresh(stored: Reason, trace: seq<Visit>, r: Reason)
    requires Coherent(stored, trace, r) && AllPersisted(trace)
    ensures StaleReads(stored, trace, r) == 0
    decreases |trace|
  {
    if trace != [] {
      assert trace[0].Persisted();
      PersistedReadsFresh(StoredAfter(stored, trace[0]), trace[1..], r);
    }
  }

  /** No Recovered event names any reason but the two observation failures, in any run. */
  lemma OnlyObservationFailuresRecover(s: State, steps: seq<Step>, r: Reason)
    requires !r.MetricsUnavailable? && !r.TargetDeploymentNotFound?
    ensures Recoveries(Log(s, steps), r) == 0
  {
    TracesAreCoherent(s, steps, r);
    NeverRecovers(s.wl.status.lastTransitionReason, Trace(s, steps), r);
  }

  lemma {:induction false} NeverRecovers(stored: Reason, trace: seq<Visit>, r: Reason)
    requires !r.MetricsUnavailable? && !r.TargetDeploymentNotFound? && Coherent(stored, trace, r)
    ensures Recoveries(Events(trace), r) == 0
    decreases |trace|
  {
    if trace != [] {
      LogCounts(trace, r);
      NeverRecovers(StoredAfter(stored, trace[0]), trace[1..], r);
    }
  }

  // ---------- Leaving a missing Deployment ----------

  /** A missing Deployment is left without a Recovered event exactly when the next reconcile gets no metrics. */
  lemma DeploymentLeftSilentlyIff(s: State, f: Faults)
    requires s.wl.status.lastTransitionReason == TargetDeploymentNotFound && f.fetch.Found?
    ensures && Recoveries(Log(s, [Reconcile(f)]), TargetDeploymentNotFound) == 0
            && ExitOf(s.wl, s.deployments, f).update.reason != TargetDeploymentNotFound
       <==> f.metrics.Err?
  {
    SingleStep(s, Reconcile(f));
    EventsOfReconcile(s, f);
    VisitCounts(s.wl, s.deployments, f, TargetDeploymentNotFound);
  }

  /** Then, if the status write persisted, its recovery is never announced: the Deployment is back, the metrics
      are back, and the operator holds. If it was lost, the recovery is announced after all. */
  lemma CutShortEpisode(s: State, persisted: bool, calm: int32)
    requires s.wl.status.lastTransitionReason == TargetDeploymentNotFound
    requires s.wl.spec.targetDeployment in s.deployments && s.wl.spec.low <= calm <= s.wl.spec.high
    ensures var steps := [Outage(persisted), Calm(calm)];
            && CutShort(TargetDeploymentNotFound, Trace(s, steps), TargetDeploymentNotFound, MetricsUnavailable) == 1
            && Run(s, steps).wl.status.lastTransitionReason == Holding
            && Recoveries(Log(s, steps), TargetDeploymentNotFound) == One(!persisted)
            && Recoveries(Log(s, steps), MetricsUnavailable) == One(persisted)
  {
    var (f, g) := (Outage(persisted).f, Calm(calm).f);
    var s' := Reconciled(s, f);
    TwoReconciles(s, f, g);
    var (v, w) := (Visits(s, Reconcile(f))[0], Visits(s', Reconcile(g))[0]);
    assert v.exit.update.reason == MetricsUnavailable && w.exit.update.reason == Holding;
    CutShortOfTwo(v, w, TargetDeploymentNotFound, MetricsUnavailable);
    CountsOfConcat(v.exit.events, w.exit.events, TargetDeploymentNotFound);
    CountsOfConcat(v.exit.events, w.exit.events, MetricsUnavailable);
    VisitCounts(s.wl, s.deployments, f, TargetDeploymentNotFound);
    VisitCounts(s.wl, s.deployments, f, MetricsUnavailable);
    VisitCounts(s'.wl, s'.deployments, g, TargetDeploymentNotFound);
    VisitCounts(s'.wl, s'.deployments, g, MetricsUnavailable);
  }

  lemma CutShortOfTwo(v: Visit, w: Visit, r: Reason, cause: Reason)
    ensures CutShort(r, [v, w], r, cause)
         == One(v.exit.update.reason == cause) + One(v.exit.update.reason == r && w.exit.update.reason == cause)
  {
    assert [v, w][1..] == [w] && [w][1..] == [];
    var now := v.exit.update.reason;
    assert CutShort(now, [w], r, cause)
        == One(now == r && w.exit.update.reason == cause) + CutShort(w.exit.update.reason, [], r, cause);
    assert CutShort(r, [v, w], r, cause) == One(now == cause) + CutShort(now, [w], r, cause);
  }

  // ---------- Leaving a scale failure ----------

  /** Both observations succeed, and the rule asks for no change. */
  ghost predicate NothingToDo(s: State, f: Faults) {
    var d := GetDeployment(s.deployments, s.wl.spec.targetDeployment, f.getFault);
    && f.metrics.Ok? && d.Ok?
    && var current := EffectiveReplicas(d.value.replicas);
       ComputeDesiredReplicas(current, f.metrics.value.kvCacheUsagePercent, s.wl.spec) == current
  }

  /** A scale failure is left without any event exactly when the next reconcile has nothing to do. Every
      other way out is announced by the scale or the observation failure that follows. */
  lemma ScaleFailureLeftSilentlyIff(s: State, f: Faults)
    requires s.wl.status.lastTransitionReason == ScaleFailed && f.fetch.Found?
    ensures Log(s, [Reconcile(f)]) == [] && ExitOf(s.wl, s.deployments, f).update.reason != ScaleFailed
       <==> NothingToDo(s, f)
    ensures NothingToDo(s, f) && !f.statusFault ==>
              Run(s, [Reconcile(f)]).wl.status.lastTransitionReason == Holding
  {
    SingleStep(s, Reconcile(f));
    EventsOfReconcile(s, f);
  }

  /** A scale-up that fails on a conflict. */
  function FailedScaleUp(usage: int32): Step {
    Reconcile(Faults(Found, Ok(Metrics(usage, 0)), None, Some(CONFLICT), false, Clock(0, 0, 0)))
  }

  function Calm(usage: int32): Step {
    Reconcile(Faults(Found, Ok(Metrics(usage, 0)), None, None, false, Clock(0, 0, 0)))
  }

  /** Such a run, from any fresh resource whose Deployment may still grow: a failed scale-up and then usage
      inside the band. The failure is announced, the second reconcile holds, and nothing is announced with it. */
  lemma ScaleFailureCanEndInSilence(s: State, high: int32, calm: int32)
    requires s.wl.status.lastTransitionReason == Unset && s.wl.spec.targetDeployment in s.deployments
    requires EffectiveReplicas(s.deployments[s.wl.spec.targetDeployment].replicas) < s.wl.spec.maxReplicas
    requires s.wl.spec.low <= calm <= s.wl.spec.high < high
    ensures var steps := [FailedScaleUp(high), Calm(calm)];
            var s' := Next(s, FailedScaleUp(high));
            && s'.wl.status.lastTransitionReason == ScaleFailed
            && Run(s, steps).wl.status.lastTransitionReason == Holding
            && Log(s', [Calm(calm)]) == []
            && Log(s, steps) == [Event(Warning, ScaleFailed, ErrorText(CONFLICT))]
  {
    var s' := Next(s, FailedScaleUp(high));
    FailedVisit(s, high);
    CalmVisit(s', calm);
    SingleStep(s', Calm(calm));
    EventsOfReconcile(s', Calm(calm).f);
    TwoReconciles(s, FailedScaleUp(high).f, Calm(calm).f);
    EventsOfReconcile(s, FailedScaleUp(high).f);
  }

  lemma FailedVisit(s: State, high: int32)
    requires s.wl.status.lastTransitionReason == Unset && s.wl.spec.targetDeployment in s.deployments
    requires EffectiveReplicas(s.deployments[s.wl.spec.targetDeployment].replicas) < s.wl.spec.maxReplicas
    requires s.wl.spec.high < high
    ensures var s' := Next(s, FailedScaleUp(high));
            && s'.wl.status.lastTransitionReason == ScaleFailed
            && s'.deployments == s.deployments && s'.wl.spec == s.wl.spec
    ensures Events(Visits(s, FailedScaleUp(high))) == [Event(Warning, ScaleFailed, ErrorText(CONFLICT))]
  {
    EventsOfReconcile(s, FailedScaleUp(high).f);
  }

  lemma CalmVisit(s: State, calm: int32)
    requires s.wl.status.lastTransitionReason == ScaleFailed && s.wl.spec.targetDeployment in s.deployments
    requires s.wl.spec.low <= calm <= s.wl.spec.high
    ensures Next(s, Calm(calm)).wl.status.lastTransitionReason == Holding
    ensures Events(Visits(s, Calm(calm))) == []
  {
    EventsOfReconcile(s, Calm(calm).f);
  }
}
