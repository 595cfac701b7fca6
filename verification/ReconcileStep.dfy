/** One reconcile as a function of what is stored and of what the outside world does to it.
    The classes in Controller are proved to compute exactly this function. */
module ReconcileStep {
  import opened Api
  import opened Scaling

  datatype Fetch = Found | NotFound | FetchError(error: string)

  /** The clock readings one status record takes, in the order the code takes them. */
  datatype Clock = Clock(scale: int, available: int, degraded: int)

  /** Everything the outside world decides during one reconcile. */
  datatype Faults = Faults(
    fetch: Fetch,                      // reading the WorkloadLifecycle
    metrics: Result<Metrics, string>,  // the metrics endpoint
    getFault: Option<string>,          // reading the Deployment fails although it may exist
    updateFault: Option<string>,       // writing the Deployment fails, e.g. on a conflict
    statusFault: bool,                 // writing the status fails
    clock: Clock)

  datatype StatusUpdate = StatusUpdate(
    reason: Reason,
    available: ConditionStatus,
    degraded: ConditionStatus,
    message: string,
    observed: Option<int32>,
    desired: Option<int32>,
    scaledNow: bool)

  /** One way out of a reconcile: the status it tries to record, the events it emits, the replica
      count it stored in the Deployment, if any, and the error it returns. */
  datatype Exit = Exit(update: StatusUpdate, events: seq<Event>, commit: Option<int32>, error: Option<string>)

  datatype ReconcileResult = ReconcileResult(requeueAfter: Option<nat>, error: Option<string>)

  // ---------- API server ----------

  const DEPLOYMENT_NOT_FOUND := "deployment not found"

  function GetDeployment(deployments: map<string, Deployment>, name: string, fault: Option<string>):
    Result<Deployment, string>
  {
    if fault.Some? then Err(fault.value)
    else if name in deployments then Ok(deployments[name])
    else Err(DEPLOYMENT_NOT_FOUND)
  }

  const CONFLICT := "conflict"

  /** Why a full update of a Deployment read at `version` fails, if it does. Optimistic concurrency: it
      commits only on the version it was read at. */
  function UpdateError(stored: Option<Deployment>, version: nat, fault: Option<string>): Option<string> {
    if fault.Some? then fault
    else if stored.None? then Some(DEPLOYMENT_NOT_FOUND)
    else if stored.value.resourceVersion != version then Some(CONFLICT)
    else None
  }

  function StoredDeployment(deployments: map<string, Deployment>, name: string): Option<Deployment> {
    if name in deployments then Some(deployments[name]) else None
  }

  // ---------- Status ----------

  function FindCondition(conditions: seq<Condition>, kind: ConditionType): (i: int)
    ensures -1 <= i < |conditions|
    ensures i >= 0 ==> conditions[i].kind == kind
    ensures i == -1 ==> forall j :: 0 <= j < |conditions| ==> conditions[j].kind != kind
  {
    if conditions == [] then -1
    else if conditions[0].kind == kind then 0
    else
      var i := FindCondition(conditions[1..], kind);
      if i < 0 then -1 else i + 1
  }

  /** meta.SetStatusCondition: one entry per type, whose time moves only when its status does. */
  function SetCondition(conditions: seq<Condition>, c: Condition): seq<Condition> {
    var i := FindCondition(conditions, c.kind);
    if i < 0 then conditions + [c]
    else if conditions[i].status != c.status then conditions[i := c]
    else conditions[i := c.(lastTransitionTime := conditions[i].lastTransitionTime)]
  }

  function ApplyUpdate(st: Status, u: StatusUpdate, generation: int, clock: Clock): Status {
    Status(
      SetCondition(
        SetCondition(st.conditions,
                     Condition(Available, u.available, u.reason, u.message, generation, clock.available)),
        Condition(Degraded, u.degraded, u.reason, u.message, generation, clock.degraded)),
      if u.observed.Some? then u.observed.value else st.observedKVCacheUsagePercent,
      if u.desired.Some? then u.desired.value else st.desiredReplicas,
      if u.scaledNow then Some(clock.scale) else st.lastScaleTime,
      u.reason)
  }

  // ---------- Reconcile ----------

  function WarningUnless(repeated: bool, reason: Reason, text: string): seq<Event> {
    if repeated then [] else [Event(Warning, reason, ErrorText(text))]
  }

  function RecoveredIf(recovered: bool, prior: Reason): seq<Event> {
    if recovered then [Event(Normal, Recovered, RecoveredFrom(prior))] else []
  }

  /** The exit of a reconcile that read resource `wl`. */
  function ExitOf(wl: Resource, deployments: map<string, Deployment>, f: Faults): Exit {
    var prior := wl.status.lastTransitionReason;
    match f.metrics
    case Err(e) =>
      Exit(StatusUpdate(MetricsUnavailable, ConditionFalse, ConditionTrue, e, None, None, false),
           WarningUnless(prior == MetricsUnavailable, MetricsUnavailable, e), None, None)
    case Ok(m) =>
      var events := RecoveredIf(prior == MetricsUnavailable, prior);
      match GetDeployment(deployments, wl.spec.targetDeployment, f.getFault)
      case Err(e) =>
        Exit(StatusUpdate(TargetDeploymentNotFound, ConditionFalse, ConditionTrue, e,
                          Some(m.kvCacheUsagePercent), None, false),
             events + WarningUnless(prior == TargetDeploymentNotFound, TargetDeploymentNotFound, e), None, None)
      case Ok(d) =>
        Adjustment(wl, EffectiveReplicas(d.replicas), m.kvCacheUsagePercent, f.updateFault,
                   events + RecoveredIf(prior == TargetDeploymentNotFound, prior))
  }

  /** makeAdjustmentIfNeeded on the decision for `current` replicas, after `events` were emitted. */
  function Adjustment(wl: Resource, current: int32, usage: int32, fault: Option<string>, events: seq<Event>): Exit {
    var desired := ComputeDesiredReplicas(current, usage, wl.spec);
    if desired == current then
      Exit(StatusUpdate(Holding, ConditionTrue, ConditionFalse, "", Some(usage), Some(desired), false),
           events, None, None)
    else if fault.Some? then
      Exit(StatusUpdate(ScaleFailed, ConditionTrue, ConditionTrue, fault.value, Some(usage), Some(desired), false),
           events + WarningUnless(wl.status.lastTransitionReason == ScaleFailed, ScaleFailed, fault.value),
           None, Some(fault.value))
    else
      var reason := if desired < current then ScaledDown else ScaledUp;
      var threshold := if reason == ScaledDown then wl.spec.low else wl.spec.high;
      Exit(StatusUpdate(reason, ConditionTrue, ConditionFalse, "", Some(usage), Some(desired), true),
           events + [Event(Normal, reason, Scaled(wl.spec.targetDeployment, current, desired, usage, threshold))],
           Some(desired), None)
  }

  /** The adjustment only appends to the events before it, and depends on them in no other way. */
  lemma AdjustmentAppends(wl: Resource, current: int32, usage: int32, fault: Option<string>,
                          before: seq<Event>, events: seq<Event>)
    ensures Adjustment(wl, current, usage, fault, before + events)
         == Adjustment(wl, current, usage, fault, events).(
              events := before + Adjustment(wl, current, usage, fault, events).events)
  {}

  // ---------- Cluster ----------

  datatype State = State(wl: Resource, deployments: map<string, Deployment>, events: seq<Event>)

  function Commit(deployments: map<string, Deployment>, name: string, count: int32): map<string, Deployment>
    requires name in deployments
  {
    deployments[name := Deployment(Some(count), deployments[name].resourceVersion + 1)]
  }

  function Persist(wl: Resource, status: Status): Resource {
    wl.(resourceVersion := wl.resourceVersion + 1, status := status)
  }

  /** The stored state after one reconcile. */
  function Reconciled(s: State, f: Faults): State {
    if !f.fetch.Found? then s
    else
      var exit := ExitOf(s.wl, s.deployments, f);
      State(
        if f.statusFault then s.wl
        else Persist(s.wl, ApplyUpdate(s.wl.status, exit.update, s.wl.generation, f.clock)),
        if exit.commit.None? then s.deployments
        else Commit(s.deployments, s.wl.spec.targetDeployment, exit.commit.value),
        s.events + exit.events)
  }

  /** The stored state after one reconcile that read an older copy of its resource: its status write conflicts
      and is lost, but its events are out, and the Deployment may have been scaled. */
  function ReconciledStale(s: State, cached: Resource, f: Faults): State {
    if !f.fetch.Found? then s
    else
      var exit := ExitOf(cached, s.deployments, f);
      s.(deployments := if exit.commit.None? then s.deployments
                        else Commit(s.deployments, cached.spec.targetDeployment, exit.commit.value),
         events := s.events + exit.events)
  }

  function ResultOf(s: State, f: Faults): ReconcileResult {
    match f.fetch
    case NotFound => ReconcileResult(None, None)
    case FetchError(e) => ReconcileResult(None, Some(e))
    case Found => ReconcileResult(Some(15), ExitOf(s.wl, s.deployments, f).error)
  }
}
