/** What one reconcile does, said of its inputs alone: the resource it read, the stored Deployments, and what
    failed. None of the functions that compute it are used to say it. */
module ReconcileLaws {
  import opened Api
  import opened Scaling
  import opened ReconcileStep

  // ---------- Observation and decision ----------

  /** The replica count the reconcile observes, when both observations succeed. */
  ghost function Seen(read: Resource, deployments: map<string, Deployment>, f: Faults): Option<int32> {
    if f.metrics.Err? || f.getFault.Some? || read.spec.targetDeployment !in deployments then None
    else
      match deployments[read.spec.targetDeployment].replicas
      case None => Some(1)
      case Some(n) => Some(n)
  }

  ghost function Decision(read: Resource, deployments: map<string, Deployment>, f: Faults): Option<int32> {
    var seen := Seen(read, deployments, f);
    if seen.None? then None
    else Some(ComputeDesiredReplicas(seen.value, f.metrics.value.kvCacheUsagePercent, read.spec))
  }

  /** Both observations succeed and the rule asks for another count. */
  ghost predicate TriesToScale(read: Resource, deployments: map<string, Deployment>, f: Faults) {
    var seen := Seen(read, deployments, f);
    seen.Some? && Decision(read, deployments, f) != seen
  }

  /** The decision recorded is the rule's, whether or not the update that carries it out succeeds. */
  lemma DecisionLaw(read: Resource, deployments: map<string, Deployment>, f: Faults)
    ensures ExitOf(read, deployments, f).update.desired == Decision(read, deployments, f)
    ensures ExitOf(read, deployments, f).commit
         == if TriesToScale(read, deployments, f) && f.updateFault.None? then Decision(read, deployments, f) else None
  {}

  // ---------- Result ----------

  /** A missing resource is no error, another failure to read it is; a reconcile that read it comes back in 15
      seconds, with the update's error exactly when it tried to scale and failed. Nothing else is returned as
      an error. */
  lemma ResultLaw(s: State, f: Faults)
    ensures var r := ResultOf(s, f);
            match f.fetch
            case NotFound => r == ReconcileResult(None, None)
            case FetchError(e) => r == ReconcileResult(None, Some(e))
            case Found =>
              && r.requeueAfter == Some(15)
              && r.error == if TriesToScale(s.wl, s.deployments, f) then f.updateFault else None
  {}

  // ---------- Outcome ----------

  /** Exactly when a reconcile has each outcome. */
  lemma OutcomeLaw(read: Resource, deployments: map<string, Deployment>, f: Faults)
    ensures var now := ExitOf(read, deployments, f).update.reason;
            var (seen, decision) := (Seen(read, deployments, f), Decision(read, deployments, f));
            var scales := TriesToScale(read, deployments, f);
            && (now == MetricsUnavailable <==> f.metrics.Err?)
            && (now == TargetDeploymentNotFound <==>
                  f.metrics.Ok? && (f.getFault.Some? || read.spec.targetDeployment !in deployments))
            && (now == Holding <==> seen.Some? && decision == seen)
            && (now == ScaleFailed <==> scales && f.updateFault.Some?)
            && (now == ScaledUp <==> scales && f.updateFault.None? && decision.value > seen.value)
            && (now == ScaledDown <==> scales && f.updateFault.None? && decision.value < seen.value)
  {}

  /** The error behind an outcome, or nothing where there is none. */
  ghost function Cause(read: Resource, deployments: map<string, Deployment>, f: Faults): string {
    if f.metrics.Err? then f.metrics.error
    else if f.getFault.Some? then f.getFault.value
    else if read.spec.targetDeployment !in deployments then "deployment not found"
    else if TriesToScale(read, deployments, f) && f.updateFault.Some? then f.updateFault.value
    else ""
  }

  /** What is reported of an outcome: available unless an observation failed, degraded on any failure, with the
      failure's error as message, the usage whenever it was fetched, and a scale time only for a scale. */
  lemma ReportLaw(read: Resource, deployments: map<string, Deployment>, f: Faults)
    ensures var u := ExitOf(read, deployments, f).update;
            var failed := u.reason in {MetricsUnavailable, TargetDeploymentNotFound, ScaleFailed};
            && u.available == (if Seen(read, deployments, f).Some? then ConditionTrue else ConditionFalse)
            && u.degraded == (if failed then ConditionTrue else ConditionFalse)
            && u.message == Cause(read, deployments, f)
            && u.observed == (if f.metrics.Ok? then Some(f.metrics.value.kvCacheUsagePercent) else None)
            && (u.scaledNow <==> u.reason == ScaledUp || u.reason == ScaledDown)
  {}

  // ---------- Events ----------

  /** Exactly what is emitted, in order: a Normal event for an observation failure left behind, and then a Warning
      with the error for a failure that was not the stored reason, or a Normal event for a scale, with the counts,
      the usage and the threshold of its direction. */
  lemma EventLaw(read: Resource, deployments: map<string, Deployment>, f: Faults)
    ensures var (prior, now) := (read.status.lastTransitionReason, ExitOf(read, deployments, f).update.reason);
            var (seen, decision) := (Seen(read, deployments, f), Decision(read, deployments, f));
            ExitOf(read, deployments, f).events
            == (if prior == MetricsUnavailable && f.metrics.Ok?
                then [Event(Normal, Recovered, RecoveredFrom(MetricsUnavailable))]
                else if prior == TargetDeploymentNotFound && seen.Some?
                then [Event(Normal, Recovered, RecoveredFrom(TargetDeploymentNotFound))]
                else [])
               + (if now in {MetricsUnavailable, TargetDeploymentNotFound, ScaleFailed}
                  then if prior == now then [] else [Event(Warning, now, ErrorText(Cause(read, deployments, f)))]
                  else if now == Holding then []
                  else [Event(Normal, now, Scaled(read.spec.targetDeployment, seen.value, decision.value,
                                                  f.metrics.value.kvCacheUsagePercent,
                                                  if decision.value < seen.value then read.spec.low
                                                  else read.spec.high))])
  {
    OutcomeLaw(read, deployments, f);
    DecisionLaw(read, deployments, f);
    if f.metrics.Err? {
    } else if Seen(read, deployments, f).None? {
    } else if TriesToScale(read, deployments, f) {
    }
  }

  // ---------- Stored objects ----------

  /** What the Deployments are after a reconcile on `read`: a scale replaces the target's count and bumps its
      version, and nothing else changes. */
  ghost predicate DeploymentsAfter(read: Resource, before: map<string, Deployment>, f: Faults,
                                   after: map<string, Deployment>)
  {
    var target := read.spec.targetDeployment;
    && after.Keys == before.Keys
    && (forall name :: name in before && name != target ==> after[name] == before[name])
    && (target in before ==>
          if TriesToScale(read, before, f) && f.updateFault.None?
          then && after[target].replicas == Decision(read, before, f)
               && after[target].resourceVersion == before[target].resourceVersion + 1
          else after[target] == before[target])
  }

  /** A reconcile that could not read its resource changes nothing. One that could changes the Deployments as
      above, appends its events, and replaces the stored status, leaving spec and generation, if its status
      write succeeds. */
  lemma StoredLaw(s: State, f: Faults)
    ensures var s' := Reconciled(s, f);
            if !f.fetch.Found? then s' == s
            else && DeploymentsAfter(s.wl, s.deployments, f, s'.deployments)
                 && s'.events == s.events + ExitOf(s.wl, s.deployments, f).events
                 && s'.wl.spec == s.wl.spec && s'.wl.generation == s.wl.generation
                 && if f.statusFault then s'.wl == s.wl else s'.wl.resourceVersion == s.wl.resourceVersion + 1
  {}

  /** On an older copy it decides by that copy's spec and never changes the stored resource. */
  lemma StaleLaw(s: State, cached: Resource, f: Faults)
    ensures var s' := ReconciledStale(s, cached, f);
            if !f.fetch.Found? then s' == s
            else && DeploymentsAfter(cached, s.deployments, f, s'.deployments)
                 && s'.events == s.events + ExitOf(cached, s.deployments, f).events
                 && s'.wl == s.wl
  {}

  /** Why an update of the target fails: the fault there is, or that it is gone, or that it was written since it
      was read. */
  lemma UpdateLaw(stored: Option<Deployment>, version: nat, fault: Option<string>)
    ensures var error := UpdateError(stored, version, fault);
            && (error.None? <==> fault.None? && stored.Some? && stored.value.resourceVersion == version)
            && (fault.Some? ==> error == fault)
            && (fault.None? && stored.None? ==> error == Some("deployment not found"))
  {}
}
