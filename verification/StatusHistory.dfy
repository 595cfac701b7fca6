/** What the stored status says about the run that produced it. */
module StatusHistory {
  import opened Api
  import opened Scaling
  import opened ReconcileStep
  import opened ReconcileLaws
  import opened Runs
  import opened Sequences

  // ---------- The stored status is a fold over the persisted visits ----------

  function Applied(st: Status, v: Visit): Status { ApplyUpdate(st, v.exit.update, v.read.generation, v.f.clock) }

  function StoredStatus(st: Status, visits: seq<Visit>): Status
    decreases |visits|
  {
    if visits == [] then st else Applied(StoredStatus(st, visits[..|visits| - 1]), visits[|visits| - 1])
  }

  lemma StoredStatusUnfolds(st: Status, visits: seq<Visit>, v: Visit)
    ensures StoredStatus(st, visits + [v]) == Applied(StoredStatus(st, visits), v)
  {
    assert (visits + [v])[..|visits|] == visits;
  }

  lemma {:induction false} StoredStatusOfConcat(st: Status, a: seq<Visit>, b: seq<Visit>)
    ensures StoredStatus(st, a + b) == StoredStatus(StoredStatus(st, a), b)
    decreases |b|
  {
    if b == [] {
      assert a + b == a;
    } else {
      var (before, v) := (b[..|b| - 1], b[|b| - 1]);
      assert b == before + [v];
      AppendIsAssociative(a, before, [v]);
      StoredStatusOfConcat(st, a, before);
      StoredStatusUnfolds(st, a + before, v);
      StoredStatusUnfolds(StoredStatus(st, a), before, v);
    }
  }

  lemma {:induction false} PersistedOfConcat(a: seq<Visit>, b: seq<Visit>)
    ensures PersistedOf(a + b) == PersistedOf(a) + PersistedOf(b)
  {
    if a == [] {
      assert a + b == b;
    } else {
      assert (a + b)[0] == a[0] && (a + b)[1..] == a[1..] + b;
      PersistedOfConcat(a[1..], b);
      AppendIsAssociative(if a[0].Persisted() then [a[0]] else [], PersistedOf(a[1..]), PersistedOf(b));
    }
  }

  lemma StepStatus(s: State, step: Step)
    ensures Next(s, step).wl.status == StoredStatus(s.wl.status, PersistedOf(Visits(s, step)))
  {
    var v := Visits(s, step);
    if v != [] && v[0].Persisted() {
      assert v == [v[0]] && PersistedOf(v) == [v[0]];
      assert StoredStatus(s.wl.status, v[..0]) == s.wl.status;
    }
  }

  /** Spec edits, outside writes, failed reads and lost writes leave no mark: the stored status is
      what the persisted visits made of it. */
  lemma {:induction false} StatusIsPersistedFold(s: State, steps: seq<Step>)
    ensures Run(s, steps).wl.status == StoredStatus(s.wl.status, PersistedOf(Trace(s, steps)))
    decreases |steps|
  {
    if steps != [] {
      var s' := Next(s, steps[0]);
      assert Run(s, steps) == Run(s', steps[1..]);
      StatusIsPersistedFold(s', steps[1..]);
      StepStatus(s, steps[0]);
      PersistedOfConcat(Visits(s, steps[0]), Trace(s', steps[1..]));
      StoredStatusOfConcat(s.wl.status, PersistedOf(Visits(s, steps[0])), PersistedOf(Trace(s', steps[1..])));
    }
  }

  // ---------- Partial updates keep the last defined value ----------

  function Observations(visits: seq<Visit>): seq<Option<int32>> {
    seq(|visits|, i requires 0 <= i < |visits| => visits[i].exit.update.observed)
  }

  function Decisions(visits: seq<Visit>): seq<Option<int32>> {
    seq(|visits|, i requires 0 <= i < |visits| => visits[i].exit.update.desired)
  }

  function Scales(visits: seq<Visit>): seq<Option<Option<int>>> {
    seq(|visits|, i requires 0 <= i < |visits| =>
      if visits[i].exit.update.scaledNow then Some(Some(visits[i].f.clock.scale)) else None)
  }

  lemma {:induction false} FoldKeepsLast(st: Status, visits: seq<Visit>)
    ensures var folded := StoredStatus(st, visits);
            && folded.observedKVCacheUsagePercent == LastOf(st.observedKVCacheUsagePercent, Observations(visits))
            && folded.desiredReplicas == LastOf(st.desiredReplicas, Decisions(visits))
            && folded.lastScaleTime == LastOf(st.lastScaleTime, Scales(visits))
    decreases |visits|
  {
    if visits != [] {
      var n := |visits| - 1;
      FoldKeepsLast(st, visits[..n]);
      assert Observations(visits)[..n] == Observations(visits[..n]);
      assert Decisions(visits)[..n] == Decisions(visits[..n]);
      assert Scales(visits)[..n] == Scales(visits[..n]);
    }
  }

  /** A visit's update carries the usage exactly when the metrics fetch succeeded, the rule's decision exactly
      when the Deployment was read too, and a scale time exactly when it changed the Deployment. */
  ghost predicate Reports(v: Visit) {
    && v.exit.update.observed == (if v.f.metrics.Ok? then Some(v.f.metrics.value.kvCacheUsagePercent) else None)
    && v.exit.update.desired == Decision(v.read, v.deployments, v.f)
    && (v.exit.update.scaledNow <==> TriesToScale(v.read, v.deployments, v.f) && v.f.updateFault.None?)
  }

  lemma {:induction false} VisitsReport(s: State, steps: seq<Step>)
    ensures forall v :: v in PersistedOf(Trace(s, steps)) ==> Reports(v)
    decreases |steps|
  {
    if steps != [] {
      var s' := Next(s, steps[0]);
      VisitReports(s, steps[0]);
      VisitsReport(s', steps[1..]);
      var v := Visits(s, steps[0]);
      if v == [] {
        assert Trace(s, steps) == Trace(s', steps[1..]);
      } else {
        assert Trace(s, steps)[0] == v[0] && Trace(s, steps)[1..] == Trace(s', steps[1..]);
      }
    }
  }

  lemma VisitReports(s: State, step: Step)
    ensures forall v :: v in Visits(s, step) ==> Reports(v)
  {
    if step.Reconcile? || step.StaleReconcile? {
      var read := if step.Reconcile? then s.wl else step.cached;
      DecisionLaw(read, s.deployments, step.f);
      OutcomeLaw(read, s.deployments, step.f);
      ReportLaw(read, s.deployments, step.f);
    }
  }

  /** After any run, the observed usage is that of the latest persisted successful fetch, the desired
      count is the latest persisted decision, and the scale time is that of the latest persisted scale. */
  lemma StatusKeepsLastDefined(s: State, steps: seq<Step>)
    ensures var visits := PersistedOf(Trace(s, steps));
            var st := Run(s, steps).wl.status;
            && LastDefined(s.wl.status.observedKVCacheUsagePercent, Observations(visits),
                           st.observedKVCacheUsagePercent)
            && LastDefined(s.wl.status.desiredReplicas, Decisions(visits), st.desiredReplicas)
            && LastDefined(s.wl.status.lastScaleTime, Scales(visits), st.lastScaleTime)
            && forall v :: v in visits ==> Reports(v)
  {
    StatusIsPersistedFold(s, steps);
    VisitsReport(s, steps);
    var visits := PersistedOf(Trace(s, steps));
    FoldKeepsLast(s.wl.status, visits);
    LastOfIsLastDefined(s.wl.status.observedKVCacheUsagePercent, Observations(visits));
    LastOfIsLastDefined(s.wl.status.desiredReplicas, Decisions(visits));
    LastOfIsLastDefined(s.wl.status.lastScaleTime, Scales(visits));
  }

  // ---------- Conditions ----------

  function EntryOf(conditions: seq<Condition>, kind: ConditionType): Option<Condition> {
    var i := FindCondition(conditions, kind);
    if i < 0 then None else Some(conditions[i])
  }

  /** The entry is the first of its kind. */
  lemma {:induction false} EntryIsFirst(conditions: seq<Condition>, kind: ConditionType)
    ensures match EntryOf(conditions, kind)
            case None => forall i :: 0 <= i < |conditions| ==> conditions[i].kind != kind
            case Some(c) => exists i :: 0 <= i < |conditions| && conditions[i] == c && c.kind == kind
                                        && forall j :: 0 <= j < i ==> conditions[j].kind != kind
  {
    if conditions != [] && conditions[0].kind != kind {
      EntryIsFirst(conditions[1..], kind);
      assert EntryOf(conditions, kind) == EntryOf(conditions[1..], kind);
      if i :| 0 <= i < |conditions| - 1 && EntryOf(conditions, kind) == Some(conditions[1..][i])
              && forall j :: 0 <= j < i ==> conditions[1..][j].kind != kind {
        assert conditions[i + 1] == conditions[1..][i];
      }
    }
  }

  function Occurrences(conditions: seq<Condition>, kind: ConditionType): nat {
    if conditions == [] then 0
    else (if conditions[0].kind == kind then 1 else 0) + Occurrences(conditions[1..], kind)
  }

  /** SetStatusCondition touches its own type only, keeps it single, and keeps the time of an unchanged status. */
  lemma SetConditionLaw(conditions: seq<Condition>, c: Condition, kind: ConditionType)
    ensures EntryOf(SetCondition(conditions, c), kind)
         == if kind != c.kind then EntryOf(conditions, kind) else Some(Merged(EntryOf(conditions, kind), c))
    ensures Occurrences(SetCondition(conditions, c), kind)
         == if kind == c.kind && EntryOf(conditions, kind).None? then 1 else Occurrences(conditions, kind)
  {
    EntryOfSet(conditions, c, kind);
    OccurrencesAfterSet(conditions, c, kind);
  }

  lemma EntryOfUnfolds(first: Condition, rest: seq<Condition>, kind: ConditionType)
    ensures EntryOf([first] + rest, kind) == if first.kind == kind then Some(first) else EntryOf(rest, kind)
  {
    assert ([first] + rest)[1..] == rest;
  }

  lemma {:induction false} EntryOfSet(conditions: seq<Condition>, c: Condition, kind: ConditionType)
    ensures EntryOf(SetCondition(conditions, c), kind)
         == if kind != c.kind then EntryOf(conditions, kind) else Some(Merged(EntryOf(conditions, kind), c))
    decreases |conditions|
  {
    if conditions == [] {
      assert SetCondition(conditions, c) == [c] + [];
      EntryOfUnfolds(c, [], kind);
    } else {
      var (first, rest) := (conditions[0], conditions[1..]);
      assert conditions == [first] + rest;
      EntryOfUnfolds(first, rest, kind);
      if first.kind == c.kind {
        assert SetCondition(conditions, c) == [Merged(Some(first), c)] + rest;
        EntryOfUnfolds(Merged(Some(first), c), rest, kind);
      } else {
        EntryOfSet(rest, c, kind);
        SetConditionSkips(conditions, c);
        EntryOfUnfolds(first, SetCondition(rest, c), kind);
      }
    }
  }

  lemma {:induction false} OccurrencesAfterSet(conditions: seq<Condition>, c: Condition, kind: ConditionType)
    ensures Occurrences(SetCondition(conditions, c), kind)
         == if kind == c.kind && EntryOf(conditions, kind).None? then 1 else Occurrences(conditions, kind)
    decreases |conditions|
  {
    if conditions == [] {
      assert SetCondition(conditions, c) == [c];
    } else if conditions[0].kind == c.kind {
      assert SetCondition(conditions, c)[1..] == conditions[1..];
    } else {
      OccurrencesAfterSet(conditions[1..], c, kind);
      SetConditionSkips(conditions, c);
    }
    if EntryOf(conditions, kind).None? {
      AbsentHasNoOccurrence(conditions, kind);
    }
  }

  lemma SetConditionSkips(conditions: seq<Condition>, c: Condition)
    requires conditions != [] && conditions[0].kind != c.kind
    ensures SetCondition(conditions, c) == [conditions[0]] + SetCondition(conditions[1..], c)
    ensures SetCondition(conditions, c)[1..] == SetCondition(conditions[1..], c)
  {}

  lemma {:induction false} AbsentHasNoOccurrence(conditions: seq<Condition>, kind: ConditionType)
    requires EntryOf(conditions, kind).None?
    ensures Occurrences(conditions, kind) == 0
  {
    if conditions != [] {
      AbsentHasNoOccurrence(conditions[1..], kind);
    }
  }

  function Merged(before: Option<Condition>, c: Condition): Condition {
    if before.Some? && before.value.status == c.status
    then c.(lastTransitionTime := before.value.lastTransitionTime)
    else c
  }

  /** A condition type this controller maintains. */
  predicate Maintained(kind: ConditionType) { kind.Available? || kind.Degraded? }

  function StatusOf(v: Visit, kind: ConditionType): ConditionStatus {
    if kind.Available? then v.exit.update.available else v.exit.update.degraded
  }

  function ClockOf(v: Visit, kind: ConditionType): int {
    if kind.Available? then v.f.clock.available else v.f.clock.degraded
  }

  /** The condition a visit writes, before the existing entry's time is considered. */
  function Written(v: Visit, kind: ConditionType): Condition {
    Condition(kind, StatusOf(v, kind), v.exit.update.reason, v.exit.update.message, v.read.generation, ClockOf(v, kind))
  }

  lemma AppliedConditions(st: Status, v: Visit, kind: ConditionType)
    ensures EntryOf(Applied(st, v).conditions, kind)
         == if Maintained(kind) then Some(Merged(EntryOf(st.conditions, kind), Written(v, kind)))
            else EntryOf(st.conditions, kind)
    ensures Occurrences(Applied(st, v).conditions, kind)
         == if Maintained(kind) && EntryOf(st.conditions, kind).None? then 1 else Occurrences(st.conditions, kind)
  {
    var mid := SetCondition(st.conditions, Written(v, Available));
    SetConditionLaw(st.conditions, Written(v, Available), kind);
    SetConditionLaw(mid, Written(v, Degraded), kind);
  }

  /** `i` starts the last maximal block of visits with equal status of `kind`. */
  ghost predicate BlockStart(visits: seq<Visit>, kind: ConditionType, i: nat) {
    && i < |visits|
    && (forall j :: i <= j < |visits| ==> StatusOf(visits[j], kind) == StatusOf(visits[|visits| - 1], kind))
    && (i > 0 ==> StatusOf(visits[i - 1], kind) != StatusOf(visits[|visits| - 1], kind))
  }

  /** The entry of `kind` after `visits`: everything from the last visit, but the time from where the
      current block of equal status began, which may be before the run. */
  ghost predicate EntryAfter(initial: Option<Condition>, visits: seq<Visit>, kind: ConditionType, i: nat,
                             entry: Option<Condition>)
    requires visits != []
  {
    var written := Written(visits[|visits| - 1], kind);
    && BlockStart(visits, kind, i)
    && entry == Some(written.(lastTransitionTime :=
                 if i == 0 && initial.Some? && initial.value.status == written.status
                 then initial.value.lastTransitionTime
                 else ClockOf(visits[i], kind)))
  }

  /** The entry of `kind`, visit by visit. */
  function EntryFold(initial: Option<Condition>, visits: seq<Visit>, kind: ConditionType): Option<Condition> {
    if visits == [] then initial
    else
      var n := |visits| - 1;
      Some(Merged(EntryFold(initial, visits[..n], kind), Written(visits[n], kind)))
  }

  lemma {:induction false} StoredEntry(st: Status, visits: seq<Visit>, kind: ConditionType)
    requires Maintained(kind)
    ensures EntryOf(StoredStatus(st, visits).conditions, kind) == EntryFold(EntryOf(st.conditions, kind), visits, kind)
    decreases |visits|
  {
    if visits != [] {
      var (before, v) := (visits[..|visits| - 1], visits[|visits| - 1]);
      StoredEntry(st, before, kind);
      AppliedConditions(StoredStatus(st, before), v, kind);
    }
  }

  lemma {:induction false} EntryDatesFromBlockStart(initial: Option<Condition>, visits: seq<Visit>, kind: ConditionType)
    returns (i: nat)
    requires visits != [] && (initial.Some? ==> initial.value.kind == kind)
    ensures EntryAfter(initial, visits, kind, i, EntryFold(initial, visits, kind))
    decreases |visits|
  {
    var n := |visits| - 1;
    i := n;
    if n > 0 {
      var before := visits[..n];
      var k := EntryDatesFromBlockStart(initial, before, kind);
      if StatusOf(before[n - 1], kind) == StatusOf(visits[n], kind) {
        i := k;
      }
    } else {
      assert visits[..n] == [];
    }
  }

  /** After any run with a persisted visit, both conditions are there; each carries the last persisted
      visit's status, reason, message and generation; and its time is when that status began, unmoved by
      changes of reason, spec edits, failed reads or lost writes. */
  lemma ConditionTiming(s: State, steps: seq<Step>, kind: ConditionType) returns (i: nat)
    requires PersistedOf(Trace(s, steps)) != [] && Maintained(kind)
    ensures EntryAfter(EntryOf(s.wl.status.conditions, kind), PersistedOf(Trace(s, steps)), kind, i,
                       EntryOf(Run(s, steps).wl.status.conditions, kind))
  {
    var visits := PersistedOf(Trace(s, steps));
    StatusIsPersistedFold(s, steps);
    StoredEntry(s.wl.status, visits, kind);
    i := EntryDatesFromBlockStart(EntryOf(s.wl.status.conditions, kind), visits, kind);
  }

  /** A maintained condition that was not duplicated before a run occurs exactly once after it. */
  lemma EachConditionOnce(s: State, steps: seq<Step>, kind: ConditionType)
    requires PersistedOf(Trace(s, steps)) != [] && Maintained(kind)
    requires Occurrences(s.wl.status.conditions, kind) <= 1
    ensures Occurrences(Run(s, steps).wl.status.conditions, kind) == 1
  {
    StatusIsPersistedFold(s, steps);
    StoredOccurrences(s.wl.status, PersistedOf(Trace(s, steps)), kind);
  }

  lemma {:induction false} StoredOccurrences(st: Status, visits: seq<Visit>, kind: ConditionType)
    requires Maintained(kind) && Occurrences(st.conditions, kind) <= 1
    ensures Occurrences(StoredStatus(st, visits).conditions, kind)
         == if visits == [] then Occurrences(st.conditions, kind) else 1
    decreases |visits|
  {
    if visits != [] {
      var before := StoredStatus(st, visits[..|visits| - 1]);
      StoredOccurrences(st, visits[..|visits| - 1], kind);
      AppliedConditions(before, visits[|visits| - 1], kind);
      if EntryOf(before.conditions, kind).Some? {
        PresentOccurs(before.conditions, kind);
      }
    }
  }

  lemma {:induction false} PresentOccurs(conditions: seq<Condition>, kind: ConditionType)
    requires EntryOf(conditions, kind).Some?
    ensures Occurrences(conditions, kind) >= 1
  {
    if conditions[0].kind != kind {
      PresentOccurs(conditions[1..], kind);
    }
  }

  // ---------- Agreement with the cluster ----------

  ghost predicate HasCondition(st: Status, kind: ConditionType, status: ConditionStatus) {
    var c := EntryOf(st.conditions, kind);
    c.Some? && c.value.status == status && c.value.reason == st.lastTransitionReason
  }

  /** What each stored reason promises about the Deployment and about the two conditions. */
  ghost predicate Agrees(s: State) {
    var st := s.wl.status;
    var target := s.wl.spec.targetDeployment;
    match st.lastTransitionReason
    case MetricsUnavailable | TargetDeploymentNotFound =>
      HasCondition(st, Available, ConditionFalse) && HasCondition(st, Degraded, ConditionTrue)
    case Holding | ScaledUp | ScaledDown =>
      && target in s.deployments && st.desiredReplicas == EffectiveReplicas(s.deployments[target].replicas)
      && HasCondition(st, Available, ConditionTrue) && HasCondition(st, Degraded, ConditionFalse)
    case ScaleFailed =>
      && target in s.deployments && st.desiredReplicas != EffectiveReplicas(s.deployments[target].replicas)
      && HasCondition(st, Available, ConditionTrue) && HasCondition(st, Degraded, ConditionTrue)
    case Unset => true
    case Recovered => false
  }

  /** From any state whatsoever, one reconcile that persists its status makes the status agree. */
  lemma OneReconcileAgrees(s: State, f: Faults)
    requires f.fetch.Found? && !f.statusFault
    ensures Agrees(Reconciled(s, f)) && Reconciled(s, f).wl.status.lastTransitionReason != Unset
  {
    var v := Visits(s, Reconcile(f))[0];
    var s' := Reconciled(s, f);
    assert s'.wl.status == Applied(s.wl.status, v);
    assert s'.wl.status.lastTransitionReason == v.exit.update.reason;
    AppliedConditions(s.wl.status, v, Available);
    AppliedConditions(s.wl.status, v, Degraded);
    assert HasCondition(s'.wl.status, Available, v.exit.update.available);
    assert HasCondition(s'.wl.status, Degraded, v.exit.update.degraded);
    ExitMatchesCluster(s, f);
  }

  /** The condition that a reconcile leaves under `kind`: dated from before if its status was the same. */
  ghost predicate Entry(st: Status, after: Status, kind: ConditionType, status: ConditionStatus, reason: Reason,
                        message: string, generation: int, now: int)
  {
    var before := EntryOf(st.conditions, kind);
    var time := if before.Some? && before.value.status == status then before.value.lastTransitionTime else now;
    EntryOf(after.conditions, kind) == Some(Condition(kind, status, reason, message, generation, time))
  }

  /** One persisted reconcile, field by field, over its inputs. */
  lemma StatusLaw(s: State, f: Faults, other: ConditionType)
    requires f.fetch.Found? && !f.statusFault
    ensures var (st, st') := (s.wl.status, Reconciled(s, f).wl.status);
            var (now, seen) := (ExitOf(s.wl, s.deployments, f).update.reason, Seen(s.wl, s.deployments, f));
            var failed := now in {MetricsUnavailable, TargetDeploymentNotFound, ScaleFailed};
            var cause := Cause(s.wl, s.deployments, f);
            && st'.lastTransitionReason == now
            && st'.observedKVCacheUsagePercent == (if f.metrics.Ok? then f.metrics.value.kvCacheUsagePercent
                                                   else st.observedKVCacheUsagePercent)
            && st'.desiredReplicas == (if seen.Some? then Decision(s.wl, s.deployments, f).value
                                       else st.desiredReplicas)
            && st'.lastScaleTime == (if now == ScaledUp || now == ScaledDown then Some(f.clock.scale)
                                     else st.lastScaleTime)
            && Entry(st, st', Available, if seen.Some? then ConditionTrue else ConditionFalse, now, cause,
                     s.wl.generation, f.clock.available)
            && Entry(st, st', Degraded, if failed then ConditionTrue else ConditionFalse, now, cause,
                     s.wl.generation, f.clock.degraded)
            && (other != Available && other != Degraded ==>
                  EntryOf(st'.conditions, other) == EntryOf(st.conditions, other))
  {
    var v := Visits(s, Reconcile(f))[0];
    assert Reconciled(s, f).wl.status == Applied(s.wl.status, v);
    DecisionLaw(s.wl, s.deployments, f);
    ReportLaw(s.wl, s.deployments, f);
    AppliedConditions(s.wl.status, v, Available);
    AppliedConditions(s.wl.status, v, Degraded);
    AppliedConditions(s.wl.status, v, other);
  }

  /** What an exit's reason says about its two conditions and about the Deployment it leaves behind. */
  lemma ExitMatchesCluster(s: State, f: Faults)
    requires f.fetch.Found?
    ensures var u := ExitOf(s.wl, s.deployments, f).update;
            var target := s.wl.spec.targetDeployment;
            var deployments := Reconciled(s, f).deployments;
            match u.reason
            case MetricsUnavailable | TargetDeploymentNotFound =>
              u.available == ConditionFalse && u.degraded == ConditionTrue
            case Holding | ScaledUp | ScaledDown =>
              && target in deployments && u.desired == Some(EffectiveReplicas(deployments[target].replicas))
              && u.available == ConditionTrue && u.degraded == ConditionFalse
            case ScaleFailed =>
              && target in deployments && u.desired.Some?
              && u.desired.value != EffectiveReplicas(deployments[target].replicas)
              && u.available == ConditionTrue && u.degraded == ConditionTrue
            case Unset | Recovered => false
  {}

  /** A run of this controller alone: its target stays, nobody else writes Deployments, no status write is lost. */
  ghost predicate Undisturbed(s: State, steps: seq<Step>) {
    && AllPersisted(Trace(s, steps))
    && forall step :: step in steps ==>
         !step.OutsideWrite? && (step.EditSpec? ==> step.spec.targetDeployment == s.wl.spec.targetDeployment)
  }

  lemma {:induction false} StatusAgreesThroughout(s: State, steps: seq<Step>)
    requires Agrees(s) && Undisturbed(s, steps)
    ensures Agrees(Run(s, steps))
    decreases |steps|
  {
    if steps != [] {
      var s' := Next(s, steps[0]);
      var v := Visits(s, steps[0]);
      if v != [] {
        assert Trace(s, steps)[0] == v[0];
        assert v[0] in Trace(s, steps) && v[0].Persisted();
        OneReconcileAgrees(s, steps[0].f);
      }
      assert Trace(s, steps) == v + Trace(s', steps[1..]);
      StatusAgreesThroughout(s', steps[1..]);
    }
  }
}
