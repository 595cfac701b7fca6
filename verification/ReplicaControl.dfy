/** The replica count over runs in which this controller alone writes the Deployment and its spec is
    fixed. Any reconcile may still fail anywhere. */
module ReplicaControl {
  import opened Api
  import opened Scaling
  import opened ReconcileStep
  import opened Runs

  function Reconciles(fs: seq<Faults>): seq<Step> {
    seq(|fs|, i requires 0 <= i < |fs| => Reconcile(fs[i]))
  }

  ghost predicate HasTarget(s: State) { s.wl.spec.targetDeployment in s.deployments }

  function Count(s: State): int32
    requires HasTarget(s)
  {
    EffectiveReplicas(s.deployments[s.wl.spec.targetDeployment].replicas)
  }

  /** A reconcile that gets through to the Deployment and back. */
  predicate Effective(f: Faults) { f.fetch.Found? && f.metrics.Ok? && f.getFault.None? && f.updateFault.None? }

  function Usage(f: Faults): int32
    requires Effective(f)
  {
    f.metrics.value.kvCacheUsagePercent
  }

  function NextCount(spec: Spec, c: int32, f: Faults): int32 {
    if Effective(f) then ComputeDesiredReplicas(c, Usage(f), spec) else c
  }

  function CountAfter(spec: Spec, c: int32, fs: seq<Faults>): int32
    decreases |fs|
  {
    if fs == [] then c else CountAfter(spec, NextCount(spec, c, fs[0]), fs[1..])
  }

  /** One reconcile moves the stored count by the rule, and the Deployment and the spec stay. */
  lemma ReconcileCount(s: State, f: Faults)
    requires HasTarget(s)
    ensures var s' := Reconciled(s, f);
            s'.wl.spec == s.wl.spec && HasTarget(s') && Count(s') == NextCount(s.wl.spec, Count(s), f)
  {}

  lemma {:induction false} RunCount(s: State, fs: seq<Faults>)
    requires HasTarget(s)
    ensures var s' := Run(s, Reconciles(fs));
            s'.wl.spec == s.wl.spec && HasTarget(s') && Count(s') == CountAfter(s.wl.spec, Count(s), fs)
    decreases |fs|
  {
    if fs != [] {
      ReconcileCount(s, fs[0]);
      assert Reconciles(fs)[1..] == Reconciles(fs[1..]);
      RunCount(Reconciled(s, fs[0]), fs[1..]);
    }
  }

  // ---------- Bounds ----------

  /** Bounds within which the rule's int32 arithmetic has room on both sides. */
  ghost predicate SafeBounds(spec: Spec) { INT32_MIN < spec.minReplicas <= spec.maxReplicas < INT32_MAX }

  lemma {:induction false} CountStaysInBounds(spec: Spec, c: int32, fs: seq<Faults>)
    requires SafeBounds(spec) && InBounds(c, spec)
    ensures InBounds(CountAfter(spec, c, fs), spec)
    decreases |fs|
  {
    if fs != [] {
      CountStaysInBounds(spec, NextCount(spec, c, fs[0]), fs[1..]);
    }
  }

  /** After any run `fs` from inside the bounds, and over one more reconcile `f`: the count is inside the
      bounds, nothing wraps, it moves by at most one, and a scale event names the side of the band the
      usage is on. */
  lemma BoundsOverRuns(s: State, fs: seq<Faults>, f: Faults)
    requires HasTarget(s) && SafeBounds(s.wl.spec) && InBounds(Count(s), s.wl.spec)
    ensures var now := Run(s, Reconciles(fs));
            var next := Reconciled(now, f);
            var spec := s.wl.spec;
            && HasTarget(now) && HasTarget(next)
            && InBounds(Count(now), spec)
            && (Effective(f) ==> Count(next) == IdealReplicas(Count(now), Usage(f), spec))
            && (!Effective(f) ==> Count(next) == Count(now))
            && forall e :: e in next.events[|now.events|..] && e.detail.Scaled? ==>
                 && e.detail.before == Count(now) && e.detail.after == Count(next)
                 && (if e.reason == ScaledUp
                     then Count(next) == Count(now) + 1 && e.detail.usage > spec.high && e.detail.threshold == spec.high
                     else e.reason == ScaledDown && Count(next) == Count(now) - 1
                          && e.detail.usage < spec.low && e.detail.threshold == spec.low)
  {
    var now := Run(s, Reconciles(fs));
    RunCount(s, fs);
    CountStaysInBounds(s.wl.spec, Count(s), fs);
    ReconcileCount(now, f);
    ScaleEventsOf(now, f);
  }

  /** The scale event of a reconcile, if any, reports the counts before and after it. */
  lemma ScaleEventsOf(s: State, f: Faults)
    requires HasTarget(s)
    ensures var s' := Reconciled(s, f);
            |s'.events| >= |s.events| && HasTarget(s')
            && forall e :: e in s'.events[|s.events|..] && e.detail.Scaled? ==>
                 && Effective(f) && e.detail.usage == Usage(f)
                 && e.detail.before == Count(s) && e.detail.after == Count(s') && Count(s) != Count(s')
                 && e.reason == (if Count(s') < Count(s) then ScaledDown else ScaledUp)
                 && e.detail.threshold == (if e.reason == ScaledDown then s.wl.spec.low else s.wl.spec.high)
  {
    if f.fetch.Found? {
      var exit := ExitOf(s.wl, s.deployments, f);
      assert Reconciled(s, f).events[|s.events|..] == exit.events;
      ReconcileCount(s, f);
      OnlyLastEventScales(s.wl, s.deployments, f);
    }
  }

  /** A visit reports a scale only as its last event, and only when it stored a new count. */
  lemma OnlyLastEventScales(wl: Resource, deployments: map<string, Deployment>, f: Faults)
    requires wl.spec.targetDeployment in deployments
    ensures var exit := ExitOf(wl, deployments, f);
            var c := EffectiveReplicas(deployments[wl.spec.targetDeployment].replicas);
            forall e :: e in exit.events && e.detail.Scaled? ==>
              && f.metrics.Ok? && f.getFault.None? && f.updateFault.None?
              && exit.commit == Some(e.detail.after) && e.detail.after != c
              && e.detail.before == c && e.detail.usage == f.metrics.value.kvCacheUsagePercent
              && e.reason == (if e.detail.after < c then ScaledDown else ScaledUp)
              && e.detail.threshold == (if e.reason == ScaledDown then wl.spec.low else wl.spec.high)
  {
    var exit := ExitOf(wl, deployments, f);
    forall i | 0 <= i < |exit.events| && exit.events[i].detail.Scaled?
      ensures exit.commit.Some? && i == |exit.events| - 1
    {
    }
  }

  // ---------- Convergence ----------

  function EffectiveReconciles(fs: seq<Faults>): nat {
    if fs == [] then 0 else (if Effective(fs[0]) then 1 else 0) + EffectiveReconciles(fs[1..])
  }

  ghost predicate Pressure(spec: Spec, fs: seq<Faults>) {
    forall f :: f in fs && Effective(f) ==> Usage(f) > spec.high
  }

  ghost predicate Idleness(spec: Spec, fs: seq<Faults>) {
    forall f :: f in fs && Effective(f) ==> Usage(f) <= spec.high && Usage(f) < spec.low
  }

  /** Under sustained pressure the count after `n` effective reconciles is known exactly, from any start
      but the one that wraps; failed reconciles only delay it. */
  lemma {:induction false} ConvergesUp(spec: Spec, c: int32, fs: seq<Faults>)
    requires spec.maxReplicas < INT32_MAX && c < INT32_MAX && Pressure(spec, fs)
    ensures var n := EffectiveReconciles(fs);
            CountAfter(spec, c, fs)
            == if n == 0 then c else if c <= spec.maxReplicas then Min(c + n, spec.maxReplicas) else spec.maxReplicas
    decreases |fs|
  {
    if fs != [] {
      assert fs[0] in fs;
      ConvergesUp(spec, NextCount(spec, c, fs[0]), fs[1..]);
    }
  }

  lemma {:induction false} ConvergesDown(spec: Spec, c: int32, fs: seq<Faults>)
    requires INT32_MIN < spec.minReplicas && INT32_MIN < c && Idleness(spec, fs)
    ensures var n := EffectiveReconciles(fs);
            CountAfter(spec, c, fs)
            == if n == 0 then c else if c >= spec.minReplicas then Max(c - n, spec.minReplicas) else spec.minReplicas
    decreases |fs|
  {
    if fs != [] {
      assert fs[0] in fs;
      ConvergesDown(spec, NextCount(spec, c, fs[0]), fs[1..]);
    }
  }

  ghost predicate NoScaleEvents(log: seq<Event>) { forall e :: e in log ==> !e.detail.Scaled? }

  /** Every visit that reads the Deployment holds. */
  ghost predicate OnlyHolds(trace: seq<Visit>) {
    forall v :: v in trace ==>
      v.exit.update.reason == MetricsUnavailable || v.exit.update.reason == TargetDeploymentNotFound
      || v.exit.update.reason == Holding
  }

  /** The count is where every observed usage would leave it. */
  ghost predicate Settled(spec: Spec, c: int32, fs: seq<Faults>) {
    forall f :: f in fs && f.metrics.Ok? ==>
      ComputeDesiredReplicas(c, f.metrics.value.kvCacheUsagePercent, spec) == c
  }

  /** Once settled, every later reconcile that reaches the Deployment holds and nothing is announced as a scale. */
  lemma {:induction false} SettledHolds(s: State, fs: seq<Faults>)
    requires HasTarget(s) && Settled(s.wl.spec, Count(s), fs)
    ensures OnlyHolds(Trace(s, Reconciles(fs))) && NoScaleEvents(Log(s, Reconciles(fs)))
    decreases |fs|
  {
    if fs != [] {
      assert fs[0] in fs;
      var s' := Reconciled(s, fs[0]);
      ReconcileCount(s, fs[0]);
      assert Reconciles(fs)[1..] == Reconciles(fs[1..]);
      SettledHolds(s', fs[1..]);
      SettledVisit(s, fs[0]);
      LogUnfolds(s, Reconciles(fs));
    }
  }

  lemma SettledVisit(s: State, f: Faults)
    requires HasTarget(s) && Settled(s.wl.spec, Count(s), [f])
    ensures Count(Reconciled(s, f)) == Count(s)
    ensures OnlyHolds(Visits(s, Reconcile(f))) && NoScaleEvents(Events(Visits(s, Reconcile(f))))
  {
    assert f in [f];
    var v := Visits(s, Reconcile(f));
    if v != [] {
      assert Events(v) == v[0].exit.events + Events(v[1..]);
    }
  }

  lemma SettledAtMax(spec: Spec, gs: seq<Faults>)
    requires spec.maxReplicas < INT32_MAX
    requires forall g :: g in gs && g.metrics.Ok? ==> g.metrics.value.kvCacheUsagePercent > spec.high
    ensures Settled(spec, spec.maxReplicas, gs)
  {}

  lemma SettledAtMin(spec: Spec, gs: seq<Faults>)
    requires INT32_MIN < spec.minReplicas
    requires forall g :: g in gs && g.metrics.Ok? ==>
               g.metrics.value.kvCacheUsagePercent <= spec.high && g.metrics.value.kvCacheUsagePercent < spec.low
    ensures Settled(spec, spec.minReplicas, gs)
  {}

  /** Under pressure the count reaches MaxReplicas as soon as enough reconciles are effective, and then
      holds there without an event for as long as the pressure lasts. */
  lemma ReachesMaxAndHolds(s: State, fs: seq<Faults>, gs: seq<Faults>)
    requires HasTarget(s) && s.wl.spec.maxReplicas < INT32_MAX && Count(s) < INT32_MAX
    requires Pressure(s.wl.spec, fs)
    requires EffectiveReconciles(fs) >= 1 && EffectiveReconciles(fs) >= s.wl.spec.maxReplicas - Count(s)
    requires forall g :: g in gs && g.metrics.Ok? ==> g.metrics.value.kvCacheUsagePercent > s.wl.spec.high
    ensures var s' := Run(s, Reconciles(fs));
            && HasTarget(s') && Count(s') == s.wl.spec.maxReplicas
            && OnlyHolds(Trace(s', Reconciles(gs))) && NoScaleEvents(Log(s', Reconciles(gs)))
  {
    var s' := Run(s, Reconciles(fs));
    RunCount(s, fs);
    ConvergesUp(s.wl.spec, Count(s), fs);
    assert Count(s') == s.wl.spec.maxReplicas && s'.wl.spec == s.wl.spec;
    SettledAtMax(s.wl.spec, gs);
    SettledHolds(s', gs);
  }

  lemma ReachesMinAndHolds(s: State, fs: seq<Faults>, gs: seq<Faults>)
    requires HasTarget(s) && INT32_MIN < s.wl.spec.minReplicas && INT32_MIN < Count(s)
    requires Idleness(s.wl.spec, fs)
    requires EffectiveReconciles(fs) >= 1 && EffectiveReconciles(fs) >= Count(s) - s.wl.spec.minReplicas
    requires forall g :: g in gs && g.metrics.Ok? ==>
               && g.metrics.value.kvCacheUsagePercent <= s.wl.spec.high
               && g.metrics.value.kvCacheUsagePercent < s.wl.spec.low
    ensures var s' := Run(s, Reconciles(fs));
            && HasTarget(s') && Count(s') == s.wl.spec.minReplicas
            && OnlyHolds(Trace(s', Reconciles(gs))) && NoScaleEvents(Log(s', Reconciles(gs)))
  {
    var s' := Run(s, Reconciles(fs));
    RunCount(s, fs);
    ConvergesDown(s.wl.spec, Count(s), fs);
    assert Count(s') == s.wl.spec.minReplicas && s'.wl.spec == s.wl.spec;
    SettledAtMin(s.wl.spec, gs);
    SettledHolds(s', gs);
  }

  // ---------- Comparing runs ----------

  /** Both runs get through at the same reconciles, and the second observes at least as much usage. */
  ghost predicate Dominates(fs: seq<Faults>, gs: seq<Faults>) {
    |fs| == |gs| && forall i :: 0 <= i < |fs| ==>
      Effective(fs[i]) == Effective(gs[i]) && (Effective(fs[i]) ==> Usage(fs[i]) <= Usage(gs[i]))
  }

  lemma {:induction false} CountsAreMonotone(spec: Spec, c: int32, fs: seq<Faults>, d: int32, gs: seq<Faults>)
    requires SafeBounds(spec) && InBounds(c, spec) && InBounds(d, spec)
    requires c <= d && Dominates(fs, gs)
    ensures CountAfter(spec, c, fs) <= CountAfter(spec, d, gs)
    decreases |fs|
  {
    if fs != [] {
      if Effective(fs[0]) {
        Monotone(c, Usage(fs[0]), d, Usage(gs[0]), spec);
      }
      CountsAreMonotone(spec, NextCount(spec, c, fs[0]), fs[1..], NextCount(spec, d, gs[0]), gs[1..]);
    }
  }

  /** More load and a higher start never end lower. */
  lemma HigherLoadNeverFewerReplicas(s: State, fs: seq<Faults>, t: State, gs: seq<Faults>)
    requires HasTarget(s) && HasTarget(t) && s.wl.spec == t.wl.spec && SafeBounds(s.wl.spec)
    requires InBounds(Count(s), s.wl.spec) && InBounds(Count(t), s.wl.spec)
    requires Count(s) <= Count(t) && Dominates(fs, gs)
    ensures var s' := Run(s, Reconciles(fs));
            var t' := Run(t, Reconciles(gs));
            HasTarget(s') && HasTarget(t') && Count(s') <= Count(t')
  {
    RunCount(s, fs);
    RunCount(t, gs);
    CountsAreMonotone(s.wl.spec, Count(s), fs, Count(t), gs);
  }

  lemma {:induction false} GapsShrink(spec: Spec, c: int32, d: int32, fs: seq<Faults>)
    requires SafeBounds(spec) && InBounds(c, spec) && InBounds(d, spec) && c <= d
    ensures 0 <= CountAfter(spec, d, fs) - CountAfter(spec, c, fs) <= d - c
    decreases |fs|
  {
    if fs != [] {
      GapsShrink(spec, NextCount(spec, c, fs[0]), NextCount(spec, d, fs[0]), fs[1..]);
    }
  }

  /** Two controllers that see the same usage and the same faults only draw together: from the end of any
      run `fs` to the end of any extension `fs + gs`, the gap has not grown, so merged counts stay merged. */
  lemma SameLoadGapNeverGrows(s: State, t: State, fs: seq<Faults>, gs: seq<Faults>)
    requires HasTarget(s) && HasTarget(t) && s.wl.spec == t.wl.spec && SafeBounds(s.wl.spec)
    requires InBounds(Count(s), s.wl.spec) && InBounds(Count(t), s.wl.spec) && Count(s) <= Count(t)
    ensures var (s1, t1) := (Run(s, Reconciles(fs)), Run(t, Reconciles(fs)));
            var (s2, t2) := (Run(s, Reconciles(fs + gs)), Run(t, Reconciles(fs + gs)));
            && HasTarget(s1) && HasTarget(t1) && HasTarget(s2) && HasTarget(t2)
            && 0 <= Count(t2) - Count(s2) <= Count(t1) - Count(s1) <= Count(t) - Count(s)
  {
    var spec := s.wl.spec;
    RunCount(s, fs);
    RunCount(t, fs);
    RunCount(s, fs + gs);
    RunCount(t, fs + gs);
    CountAfterConcat(spec, Count(s), fs, gs);
    CountAfterConcat(spec, Count(t), fs, gs);
    GapsShrink(spec, Count(s), Count(t), fs);
    CountStaysInBounds(spec, Count(s), fs);
    CountStaysInBounds(spec, Count(t), fs);
    GapsShrink(spec, CountAfter(spec, Count(s), fs), CountAfter(spec, Count(t), fs), gs);
  }

  lemma {:induction false} CountAfterConcat(spec: Spec, c: int32, fs: seq<Faults>, gs: seq<Faults>)
    ensures CountAfter(spec, c, fs + gs) == CountAfter(spec, CountAfter(spec, c, fs), gs)
    decreases |fs|
  {
    if fs == [] {
      assert fs + gs == gs;
    } else {
      assert (fs + gs)[1..] == fs[1..] + gs;
      CountAfterConcat(spec, NextCount(spec, c, fs[0]), fs[1..], gs);
    }
  }
}
