/** Several reconcilers and other writers on one Deployment, with Get and Update as separate steps.
    The stored versions form a history; a Get may even be served a stale version from a cache. */
module Interleaving {
  import opened Api
  import opened Scaling
  import opened ReconcileStep
  import opened EventLedger

  /** A scale event, and the version its Update created. */
  datatype Replacement = Replacement(reconciler: nat, reason: Reason, before: int32, after: int32, version: nat)

  datatype System = System(
    history: seq<Option<int32>>,      // replicas of every stored version; the resource version is the index
    held: map<nat, Deployment>,       // the copy each reconciler has read
    log: seq<Replacement>)

  datatype Action =
    | Get(reconciler: nat, version: nat)
    | Adjust(reconciler: nat, usage: int32, wl: Resource, fault: Option<string>)
    | OutsideWrite(replicas: Option<int32>)

  function Stored(y: System): Deployment
    requires y.history != []
  {
    Deployment(y.history[|y.history| - 1], |y.history| - 1)
  }

  function Perform(y: System, action: Action): System
    requires y.history != []
  {
    match action
    case Get(p, version) =>
      if version < |y.history| then y.(held := y.held[p := Deployment(y.history[version], version)]) else y
    case OutsideWrite(replicas) => y.(history := y.history + [replicas])
    case Adjust(p, usage, wl, fault) =>
      if p !in y.held then y
      else
        var current := EffectiveReplicas(y.held[p].replicas);
        var exit := AdjustmentOf(y, p, usage, wl, fault);
        var released := y.(held := y.held - {p});
        if exit.commit.None? then released
        else
          released.(history := y.history + [exit.commit],
                    log := y.log + [Replacement(p, exit.update.reason, current, exit.commit.value, |y.history|)])
  }

  /** The reconcile step's own adjustment, on the copy that `p` holds. */
  function AdjustmentOf(y: System, p: nat, usage: int32, wl: Resource, fault: Option<string>): Exit
    requires y.history != [] && p in y.held
  {
    var error := UpdateError(Some(Stored(y)), y.held[p].resourceVersion, fault);
    Adjustment(wl, EffectiveReplicas(y.held[p].replicas), usage, error, [])
  }

  function PerformAll(y: System, schedule: seq<Action>): System
    requires y.history != []
    ensures PerformAll(y, schedule).history != []
    decreases |schedule|
  {
    if schedule == [] then y else PerformAll(Perform(y, schedule[0]), schedule[1..])
  }

  /** The count version `v` runs. */
  function CountAt(history: seq<Option<int32>>, v: nat): int32
    requires v < |history|
  {
    EffectiveReplicas(history[v])
  }

  /** Copies are what their version stored, and every scaling replaced exactly the count it reports. */
  ghost predicate Sound(y: System) {
    && y.history != []
    && (forall p :: p in y.held ==>
          y.held[p].resourceVersion < |y.history| && y.held[p].replicas == y.history[y.held[p].resourceVersion])
    && (forall k :: 0 <= k < |y.log| ==> Honest(y, y.log[k]))
    && (forall j, k :: 0 <= j < k < |y.log| ==> y.log[j].version < y.log[k].version)
  }

  ghost predicate Honest(y: System, e: Replacement) {
    && 0 < e.version < |y.history|
    && CountAt(y.history, e.version - 1) == e.before
    && y.history[e.version] == Some(e.after)
    && e.after != e.before
    && e.reason == (if e.after < e.before then ScaledDown else ScaledUp)
  }

  lemma ActionKeepsSound(y: System, action: Action)
    requires Sound(y)
    ensures Sound(Perform(y, action)) && y.history <= Perform(y, action).history && y.log <= Perform(y, action).log
  {
    var z := Perform(y, action);
    forall k | 0 <= k < |y.log|
      ensures Honest(z, y.log[k])
    {
      assert Honest(y, y.log[k]);
    }
  }

  /** No lost updates: under every schedule, with any number of reconcilers, stale reads and outside
      writers, each successful scale replaced exactly the count it reports as its "from". */
  lemma {:induction false} NoLostUpdates(y: System, schedule: seq<Action>)
    requires Sound(y)
    ensures Sound(PerformAll(y, schedule))
    ensures y.history <= PerformAll(y, schedule).history && y.log <= PerformAll(y, schedule).log
    decreases |schedule|
  {
    if schedule != [] {
      ActionKeepsSound(y, schedule[0]);
      NoLostUpdates(Perform(y, schedule[0]), schedule[1..]);
    }
  }

  /** An adjustment commits exactly when it wants a change, its update does not fail by itself, and nothing
      at all was written since the version it read, not even a write that restored the same count. */
  lemma CommitsIffUnchanged(y: System, p: nat, usage: int32, wl: Resource, fault: Option<string>)
    requires Sound(y) && p in y.held
    ensures var current := EffectiveReplicas(y.held[p].replicas);
            |Perform(y, Adjust(p, usage, wl, fault)).history| == |y.history| + 1
            <==> ComputeDesiredReplicas(current, usage, wl.spec) != current && fault.None?
                 && y.held[p].resourceVersion == |y.history| - 1
  {}

  // ---------- Progress ----------

  /** A read hands out the version it is served, and touches nothing else; versions that are not there are not. */
  lemma GetLaw(y: System, p: nat, version: nat)
    requires Sound(y)
    ensures var z := Perform(y, Get(p, version));
            && z.history == y.history && z.log == y.log
            && (version < |y.history| ==> p in z.held && z.held[p] == Deployment(y.history[version], version))
            && (version >= |y.history| ==> z == y)
            && forall q :: q != p ==> (q in z.held <==> q in y.held) && (q in y.held ==> z.held[q] == y.held[q])
  {}

  /** An adjustment spends the copy it was made on, whether or not it commits, and touches no other copy; one
      that does not commit writes nothing. */
  lemma AdjustLaw(y: System, p: nat, usage: int32, wl: Resource, fault: Option<string>)
    requires Sound(y) && p in y.held
    ensures var z := Perform(y, Adjust(p, usage, wl, fault));
            && p !in z.held
            && (forall q :: q != p ==> (q in z.held <==> q in y.held) && (q in y.held ==> z.held[q] == y.held[q]))
            && (fault.Some? || y.held[p].resourceVersion != |y.history| - 1 ==>
                  z.history == y.history && z.log == y.log)
  {}

  lemma OutsideWriteLaw(y: System, replicas: Option<int32>)
    requires Sound(y)
    ensures Perform(y, OutsideWrite(replicas)) == y.(history := y.history + [replicas])
  {}

  /** Other reconcilers only read. */
  ghost predicate OthersRead(p: nat, schedule: seq<Action>) {
    forall action :: action in schedule ==> action.Get? && action.reconciler != p
  }

  lemma {:induction false} ReadsChangeNothing(y: System, p: nat, schedule: seq<Action>)
    requires Sound(y) && OthersRead(p, schedule) && p in y.held
    ensures var z := PerformAll(y, schedule);
            Sound(z) && z.history == y.history && z.log == y.log && p in z.held && z.held[p] == y.held[p]
    decreases |schedule|
  {
    if schedule != [] {
      assert schedule[0] in schedule;
      ActionKeepsSound(y, schedule[0]);
      GetLaw(y, schedule[0].reconciler, schedule[0].version);
      ReadsChangeNothing(Perform(y, schedule[0]), p, schedule[1..]);
    }
  }

  /** Progress: a reconciler that reads the latest version and adjusts, whatever others read in between, commits
      exactly the count that the rule asks for, and is logged as having replaced the count it read. */
  lemma UncontendedAdjustCommits(y: System, p: nat, others: seq<Action>, usage: int32, wl: Resource)
    requires Sound(y) && OthersRead(p, others)
    requires ComputeDesiredReplicas(CountAt(y.history, |y.history| - 1), usage, wl.spec)
          != CountAt(y.history, |y.history| - 1)
    ensures var latest := |y.history| - 1;
            var read := PerformAll(Perform(y, Get(p, latest)), others);
            var z := Perform(read, Adjust(p, usage, wl, None));
            var (before, after) := (CountAt(y.history, latest),
                                    ComputeDesiredReplicas(CountAt(y.history, latest), usage, wl.spec));
            && z.history == y.history + [Some(after)]
            && z.log == y.log + [Replacement(p, if after < before then ScaledDown else ScaledUp, before, after,
                                             latest + 1)]
  {
    var latest := |y.history| - 1;
    ActionKeepsSound(y, Get(p, latest));
    GetLaw(y, p, latest);
    ReadsChangeNothing(Perform(y, Get(p, latest)), p, others);
  }

  // ---------- Without outside writers ----------

  ghost predicate ReconcilersOnly(schedule: seq<Action>, min: int32, max: int32) {
    forall action :: action in schedule ==>
      && !action.OutsideWrite?
      && (action.Adjust? ==> action.wl.spec.minReplicas == min && action.wl.spec.maxReplicas == max)
  }

  function CommitsOf(log: seq<Replacement>, r: Reason): nat {
    if log == [] then 0
    else One(log[|log| - 1].reason == r) + CommitsOf(log[..|log| - 1], r)
  }

  /** All versions after `base` come from scalings, one each, inside the bounds and one replica at a time. */
  ghost predicate Chained(y: System, base: nat, min: int32, max: int32) {
    && |y.history| == base + 1 + |y.log|
    && (forall v :: base <= v < |y.history| ==> min <= CountAt(y.history, v) <= max)
    && (forall k :: 0 <= k < |y.log| ==>
          && y.log[k].version == base + 1 + k
          && y.log[k].after - y.log[k].before == (if y.log[k].reason == ScaledUp then 1 else -1))
    && CountAt(y.history, |y.history| - 1)
       == CountAt(y.history, base) + CommitsOf(y.log, ScaledUp) - CommitsOf(y.log, ScaledDown)
  }

  lemma ActionKeepsChained(y: System, action: Action, base: nat, min: int32, max: int32)
    requires INT32_MIN < min <= max < INT32_MAX
    requires Sound(y) && Chained(y, base, min, max) && ReconcilersOnly([action], min, max)
    ensures Sound(Perform(y, action)) && Chained(Perform(y, action), base, min, max)
    ensures CountAt(Perform(y, action).history, base) == CountAt(y.history, base)
  {
    ActionKeepsSound(y, action);
    assert action in [action];
    var z := Perform(y, action);
    if z.log != y.log {
      var e := CommitFacts(y, action);
      assert min <= CountAt(y.history, |y.history| - 1) <= max;
      OneReplicaAtATime(e.before, action.usage, action.wl.spec);
      AppendKeepsChained(y, z, e, base, min, max);
    } else {
      QuietAction(y, action);
    }
  }

  lemma OneReplicaAtATime(current: int32, usage: int32, spec: Spec)
    requires INT32_MIN < spec.minReplicas && spec.maxReplicas < INT32_MAX && InBounds(current, spec)
    ensures var desired := ComputeDesiredReplicas(current, usage, spec);
            InBounds(desired, spec) && -1 <= desired - current <= 1
  {}

  lemma QuietAction(y: System, action: Action)
    requires Sound(y) && Perform(y, action).log == y.log && !action.OutsideWrite?
    ensures Perform(y, action).history == y.history
  {
    assert |Perform(y, action).log| == |y.log|;
  }

  lemma AppendKeepsChained(y: System, z: System, e: Replacement, base: nat, min: int32, max: int32)
    requires Chained(y, base, min, max)
    requires z.log == y.log + [e] && z.history == y.history + [Some(e.after)] && e.version == |y.history|
    requires e.before == CountAt(y.history, |y.history| - 1) && min <= e.after <= max
    requires e.after - e.before == (if e.reason == ScaledUp then 1 else -1)
    requires e.reason == ScaledUp || e.reason == ScaledDown
    ensures Chained(z, base, min, max)
    ensures CountAt(z.history, base) == CountAt(y.history, base)
  {
    forall v | base <= v < |z.history|
      ensures min <= CountAt(z.history, v) <= max
    {
      if v < |y.history| {
        assert min <= CountAt(y.history, v) <= max;
      }
    }
    assert z.log[..|z.log| - 1] == y.log;
  }

  /** An action that extends the log appends one version, computed by the rule from the version before it, and
      its one event reports just that. */
  lemma CommitFacts(y: System, action: Action) returns (e: Replacement)
    requires Sound(y) && Perform(y, action).log != y.log
    ensures var (z, last) := (Perform(y, action), |y.history| - 1);
            && z.log == y.log + [e] && z.history == y.history + [Some(e.after)] && e.version == last + 1
            && action.Adjust? && e.before == CountAt(y.history, last) && e.after != e.before
            && e.after == ComputeDesiredReplicas(e.before, action.usage, action.wl.spec)
            && e.reason == (if e.after < e.before then ScaledDown else ScaledUp)
            && AdjustmentOf(y, action.reconciler, action.usage, action.wl, action.fault).events
               == (var threshold := if e.reason == ScaledDown then action.wl.spec.low else action.wl.spec.high;
                   [Event(Normal, e.reason, Scaled(action.wl.spec.targetDeployment, e.before, e.after, action.usage,
                                                   threshold))])
  {
    e := Perform(y, action).log[|y.log|];
  }

  lemma {:induction false} AllKeepChained(y: System, schedule: seq<Action>, base: nat, min: int32, max: int32)
    requires INT32_MIN < min <= max < INT32_MAX
    requires Sound(y) && Chained(y, base, min, max) && ReconcilersOnly(schedule, min, max)
    ensures Sound(PerformAll(y, schedule)) && Chained(PerformAll(y, schedule), base, min, max)
    ensures CountAt(PerformAll(y, schedule).history, base) == CountAt(y.history, base)
    decreases |schedule|
  {
    if schedule != [] {
      assert schedule[0] in schedule && schedule[0] in [schedule[0]];
      ActionKeepsChained(y, schedule[0], base, min, max);
      AllKeepChained(Perform(y, schedule[0]), schedule[1..], base, min, max);
    }
  }

  /** What conservation says of a system that started from version `base` with an empty log. */
  ghost predicate Balanced(z: System, base: nat, initial: int32, min: int32, max: int32) {
    && |z.history| == base + 1 + |z.log|
    && CountAt(z.history, |z.history| - 1) == initial + CommitsOf(z.log, ScaledUp) - CommitsOf(z.log, ScaledDown)
    && (forall v :: base <= v < |z.history| ==> min <= CountAt(z.history, v) <= max)
    && (forall j, k :: 0 <= j < k < |z.log| && k == j + 1 ==> z.log[k].before == z.log[j].after)
    && (z.log != [] ==> z.log[0].before == initial)
  }

  lemma ChainedIsBalanced(z: System, base: nat, min: int32, max: int32)
    requires Sound(z) && Chained(z, base, min, max)
    ensures Balanced(z, base, CountAt(z.history, base), min, max)
  {
    forall j, k | 0 <= j < k < |z.log| && k == j + 1
      ensures z.log[k].before == z.log[j].after
    {
      assert Honest(z, z.log[j]) && Honest(z, z.log[k]);
    }
    if z.log != [] {
      assert Honest(z, z.log[0]);
    }
  }

  /** Conservation: with reconcilers that share the two bounds (their thresholds and usages may differ) and
      nobody else writing, the stored count is the initial one plus the scale-ups minus the scale-downs, it
      never leaves the bounds, and the scalings chain: each starts from the count the one before it left. */
  lemma Conservation(y: System, schedule: seq<Action>, min: int32, max: int32)
    requires INT32_MIN < min <= max < INT32_MAX
    requires Sound(y) && y.log == [] && min <= CountAt(y.history, |y.history| - 1) <= max
    requires ReconcilersOnly(schedule, min, max)
    ensures Balanced(PerformAll(y, schedule), |y.history| - 1, CountAt(y.history, |y.history| - 1), min, max)
  {
    var base := |y.history| - 1;
    assert Chained(y, base, min, max);
    AllKeepChained(y, schedule, base, min, max);
    ChainedIsBalanced(PerformAll(y, schedule), base, min, max);
  }
}
