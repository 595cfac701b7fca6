/** The reconciler and the objects it updates in place. */
module Controller {
  import opened Api
  import opened Scaling
  import opened ReconcileStep

  /** A WorkloadLifecycle read into memory: a reconcile edits its status before writing it back. */
  class WorkloadLifecycle {
    const spec: Spec
    const generation: int
    const resourceVersion: nat
    var status: Status

    constructor (stored: Resource)
      ensures Value() == stored
    {
      spec := stored.spec;
      generation := stored.generation;
      resourceVersion := stored.resourceVersion;
      status := stored.status;
    }

    function Value(): Resource
      reads this
    {
      Resource(spec, generation, resourceVersion, status)
    }
  }

  /** A Deployment read into memory. */
  class DeploymentCopy {
    const resourceVersion: nat
    var replicas: Option<int32>

    constructor (stored: Deployment)
      ensures replicas == stored.replicas && resourceVersion == stored.resourceVersion
    {
      resourceVersion := stored.resourceVersion;
      replicas := stored.replicas;
    }
  }

  /** The stored objects, and the calls the operator makes on them. */
  class ApiServer {
    var wl: Resource
    var deployments: map<string, Deployment>

    constructor (wl: Resource, deployments: map<string, Deployment>)
      ensures this.wl == wl && this.deployments == deployments
    {
      this.wl := wl;
      this.deployments := deployments;
    }

    /** Update of the whole Deployment; an error when it fails, is gone, or was changed since it was read. */
    method Update(name: string, d: DeploymentCopy, fault: Option<string>) returns (error: Option<string>)
      modifies this`deployments
      ensures error == UpdateError(StoredDeployment(old(deployments), name), d.resourceVersion, fault)
      ensures error.None? <==> fault.None? && name in old(deployments)
                               && old(deployments[name].resourceVersion) == d.resourceVersion
      ensures deployments == if error.Some? then old(deployments)
                             else old(deployments)[name := Deployment(d.replicas, d.resourceVersion + 1)]
    {
      if fault.Some? {
        return fault;
      }
      if name !in deployments {
        return Some(DEPLOYMENT_NOT_FOUND);
      }
      if deployments[name].resourceVersion != d.resourceVersion {
        return Some(CONFLICT);
      }
      deployments := deployments[name := Deployment(d.replicas, d.resourceVersion + 1)];
      error := None;
    }

    /** Status().Update: replaces the stored status and nothing else. */
    method UpdateStatus(copy: WorkloadLifecycle, fault: bool) returns (failed: bool)
      modifies this`wl
      ensures failed <==> fault || copy.resourceVersion != old(wl).resourceVersion
      ensures wl == if failed then old(wl) else Persist(old(wl), copy.status)
    {
      failed := fault || copy.resourceVersion != wl.resourceVersion;
      if !failed {
        wl := wl.(resourceVersion := wl.resourceVersion + 1, status := copy.status);
      }
    }
  }

  class Recorder {
    var events: seq<Event>

    constructor ()
      ensures events == []
    {
      events := [];
    }

    method Emit(kind: EventType, reason: Reason, detail: Detail)
      modifies this
      ensures events == old(events) + [Event(kind, reason, detail)]
    {
      events := events + [Event(kind, reason, detail)];
    }
  }

  class WorkloadLifecycleReconciler {
    const api: ApiServer
    const recorder: Recorder

    constructor (api: ApiServer, recorder: Recorder)
      ensures this.api == api && this.recorder == recorder
    {
      this.api := api;
      this.recorder := recorder;
    }

    function Value(): State
      reads this, api, recorder
    {
      State(api.wl, api.deployments, recorder.events)
    }

    /** Reads the CR, observes, decides, adjusts and records; `f` says what goes wrong on the way. The read is
        served `cached`: the stored resource, or an older version of it. */
    method Reconcile(cached: Resource, f: Faults) returns (result: ReconcileResult)
      requires cached.resourceVersion == api.wl.resourceVersion ==> cached == api.wl
      modifies api, recorder
      ensures Value() == if cached == old(api.wl) then Reconciled(old(Value()), f)
                         else ReconciledStale(old(Value()), cached, f)
      ensures result == ResultOf(old(Value()).(wl := cached), f)
    {
      if f.fetch.FetchError? {
        return ReconcileResult(None, Some(f.fetch.error));
      }
      if f.fetch.NotFound? {
        return ReconcileResult(None, None);
      }
      ghost var exit := ExitOf(cached, api.deployments, f);
      var wl := new WorkloadLifecycle(cached);
      var priorReason := wl.status.lastTransitionReason;

      if f.metrics.Err? {
        if priorReason != MetricsUnavailable {
          recorder.Emit(Warning, MetricsUnavailable, ErrorText(f.metrics.error));
        }
        RecordStatus(wl, StatusUpdate(MetricsUnavailable, ConditionFalse, ConditionTrue, f.metrics.error,
                                      None, None, false), f);
        assert recorder.events == old(recorder.events) + exit.events;
        return ReconcileResult(Some(15), None);
      }
      var usage := f.metrics.value.kvCacheUsagePercent;
      if priorReason == MetricsUnavailable {
        recorder.Emit(Normal, Recovered, RecoveredFrom(priorReason));
      }

      var observed := ObserveDeployment(wl, f.getFault);
      if observed.Err? {
        if priorReason != TargetDeploymentNotFound {
          recorder.Emit(Warning, TargetDeploymentNotFound, ErrorText(observed.error));
        }
        RecordStatus(wl, StatusUpdate(TargetDeploymentNotFound, ConditionFalse, ConditionTrue, observed.error,
                                      Some(usage), None, false), f);
        assert recorder.events == old(recorder.events) + exit.events;
        return ReconcileResult(Some(15), None);
      }
      if priorReason == TargetDeploymentNotFound {
        recorder.Emit(Normal, Recovered, RecoveredFrom(priorReason));
      }

      ghost var emitted := RecoveredIf(priorReason == MetricsUnavailable, priorReason)
                           + RecoveredIf(priorReason == TargetDeploymentNotFound, priorReason);
      assert recorder.events == old(recorder.events) + emitted;
      var (deploy, current) := observed.value;
      var desired := ComputeDesiredReplicas(current, usage, wl.spec);
      AdjustmentAppends(cached, current, usage, f.updateFault, old(recorder.events), emitted);
      assert UpdateError(StoredDeployment(api.deployments, wl.spec.targetDeployment), deploy.resourceVersion,
                         f.updateFault) == f.updateFault;
      assert wl.Value() == cached && api.wl == old(api.wl) && api.deployments == old(api.deployments);
      var error := MakeAdjustmentIfNeeded(wl, deploy, current, desired, usage, f);
      return ReconcileResult(Some(15), error);
    }

    /** The target Deployment and the count it runs, nil meaning one. */
    method ObserveDeployment(wl: WorkloadLifecycle, fault: Option<string>)
      returns (r: Result<(DeploymentCopy, int32), string>)
      ensures match GetDeployment(api.deployments, wl.spec.targetDeployment, fault)
              case Err(e) => r == Err(e)
              case Ok(d) => r.Ok? && fresh(r.value.0) && r.value.0.replicas == d.replicas
                            && r.value.0.resourceVersion == d.resourceVersion
                            && r.value.1 == EffectiveReplicas(d.replicas)
    {
      var stored := GetDeployment(api.deployments, wl.spec.targetDeployment, fault);
      if stored.Err? {
        return Err(stored.error);
      }
      var deploy := new DeploymentCopy(stored.value);
      var current: int32 := 1;
      if deploy.replicas.Some? {
        current := deploy.replicas.value;
      }
      return Ok((deploy, current));
    }

    /** Writes the Deployment if the decision differs from what runs, and records how that went. Either copy
        may be stale: then its update is a conflict. */
    method MakeAdjustmentIfNeeded(wl: WorkloadLifecycle, deploy: DeploymentCopy, current: int32, desired: int32,
                                  usage: int32, f: Faults)
      returns (error: Option<string>)
      requires desired == ComputeDesiredReplicas(current, usage, wl.spec)
      modifies api, recorder, wl, deploy
      ensures var fault := UpdateError(old(StoredDeployment(api.deployments, wl.spec.targetDeployment)),
                                       deploy.resourceVersion, f.updateFault);
              var exit := Adjustment(old(wl.Value()), current, usage, fault, old(recorder.events));
              && recorder.events == exit.events
              && error == exit.error
              && wl.status == ApplyUpdate(old(wl.status), exit.update, wl.generation, f.clock)
              && api.wl == (if f.statusFault || wl.resourceVersion != old(api.wl).resourceVersion then old(api.wl)
                            else Persist(old(api.wl), wl.status))
              && api.deployments == (if exit.commit.None? then old(api.deployments)
                                     else Commit(old(api.deployments), wl.spec.targetDeployment, exit.commit.value))
    {
      var priorReason := wl.status.lastTransitionReason;
      if desired == current {
        RecordStatus(wl, StatusUpdate(Holding, ConditionTrue, ConditionFalse, "",
                                      Some(usage), Some(desired), false), f);
        return None;
      }

      var reason := ScaledUp;
      if desired < current {
        reason := ScaledDown;
      }

      deploy.replicas := Some(desired);
      error := api.Update(wl.spec.targetDeployment, deploy, f.updateFault);
      if error.Some? {
        if priorReason != ScaleFailed {
          recorder.Emit(Warning, ScaleFailed, ErrorText(error.value));
        }
        RecordStatus(wl, StatusUpdate(ScaleFailed, ConditionTrue, ConditionTrue, error.value,
                                      Some(usage), Some(desired), false), f);
        return error;
      }

      var appliedThreshold := wl.spec.high;
      if reason == ScaledDown {
        appliedThreshold := wl.spec.low;
      }
      recorder.Emit(Normal, reason, Scaled(wl.spec.targetDeployment, current, desired, usage, appliedThreshold));
      RecordStatus(wl, StatusUpdate(reason, ConditionTrue, ConditionFalse, "", Some(usage), Some(desired), true), f);
      return None;
    }

    /** Applies `u` to the status in memory and tries to persist it; a write that fails, or conflicts, is
        dropped. */
    method RecordStatus(wl: WorkloadLifecycle, u: StatusUpdate, f: Faults)
      modifies wl, api`wl
      ensures wl.status == ApplyUpdate(old(wl.status), u, wl.generation, f.clock)
      ensures api.wl == if f.statusFault || wl.resourceVersion != old(api.wl).resourceVersion then old(api.wl)
                        else Persist(old(api.wl), wl.status)
    {
      if u.observed.Some? {
        wl.status := wl.status.(observedKVCacheUsagePercent := u.observed.value);
      }
      if u.desired.Some? {
        wl.status := wl.status.(desiredReplicas := u.desired.value);
      }
      if u.scaledNow {
        wl.status := wl.status.(lastScaleTime := Some(f.clock.scale));
      }
      wl.status := wl.status.(lastTransitionReason := u.reason);
      wl.status := wl.status.(conditions := SetCondition(wl.status.conditions,
        Condition(Available, u.available, u.reason, u.message, wl.generation, f.clock.available)));
      wl.status := wl.status.(conditions := SetCondition(wl.status.conditions,
        Condition(Degraded, u.degraded, u.reason, u.message, wl.generation, f.clock.degraded)));
      var failed := api.UpdateStatus(wl, f.statusFault);
    }
  }
}
