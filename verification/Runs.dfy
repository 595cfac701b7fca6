/** Whole runs: reconciles interleaved with spec edits and with other writers of Deployments. */
module Runs {
  import opened Api
  import opened ReconcileStep
  import opened Sequences

  datatype Step =
    | Reconcile(f: Faults)
    | StaleReconcile(cached: Resource, f: Faults)              // on an older copy of the resource
    | EditSpec(spec: Spec)                                     // bumps the generation
    | OutsideWrite(deployments: map<string, Deployment>)       // anyone else creates, edits or deletes Deployments

  /** Versions identify contents: a copy is older exactly when its version is not the stored one. */
  predicate Older(s: State, cached: Resource) { cached.resourceVersion != s.wl.resourceVersion }

  function Next(s: State, step: Step): State {
    match step
    case Reconcile(f) => Reconciled(s, f)
    case StaleReconcile(cached, f) => if Older(s, cached) then ReconciledStale(s, cached, f) else s
    case EditSpec(spec) =>
      s.(wl := s.wl.(spec := spec, generation := s.wl.generation + 1, resourceVersion := s.wl.resourceVersion + 1))
    case OutsideWrite(deployments) => s.(deployments := deployments)
  }

  /** What a run is made of: an edit changes the spec, bumping generation and version and leaving the status; an
      outside write changes the Deployments only; a reconcile is one, on the stored resource or an older copy. */
  lemma StepLaw(s: State, step: Step)
    ensures var s' := Next(s, step);
            match step
            case Reconcile(f) => s' == Reconciled(s, f)
            case StaleReconcile(cached, f) =>
              s' == if cached.resourceVersion != s.wl.resourceVersion then ReconciledStale(s, cached, f) else s
            case EditSpec(spec) =>
              && s'.deployments == s.deployments && s'.events == s.events
              && s'.wl == Resource(spec, s.wl.generation + 1, s.wl.resourceVersion + 1, s.wl.status)
            case OutsideWrite(deployments) => s'.wl == s.wl && s'.deployments == deployments && s'.events == s.events
  {}

  function Run(s: State, steps: seq<Step>): State
    decreases |steps|
  {
    if steps == [] then s else Run(Next(s, steps[0]), steps[1..])
  }

  /** A reconcile that got as far as reading its resource. A conflict of its status write counts as a fault. */
  datatype Visit = Visit(read: Resource, deployments: map<string, Deployment>, f: Faults, exit: Exit) {
    predicate Persisted() { !f.statusFault }

    function Prior(): Reason { read.status.lastTransitionReason }
  }

  function Visits(s: State, step: Step): seq<Visit> {
    if step.Reconcile? && step.f.fetch.Found? then
      [Visit(s.wl, s.deployments, step.f, ExitOf(s.wl, s.deployments, step.f))]
    else if step.StaleReconcile? && step.f.fetch.Found? && Older(s, step.cached) then
      [Visit(step.cached, s.deployments, step.f.(statusFault := true), ExitOf(step.cached, s.deployments, step.f))]
    else []
  }

  function Trace(s: State, steps: seq<Step>): seq<Visit>
    decreases |steps|
  {
    if steps == [] then [] else Visits(s, steps[0]) + Trace(Next(s, steps[0]), steps[1..])
  }

  function Events(trace: seq<Visit>): seq<Event> {
    if trace == [] then [] else trace[0].exit.events + Events(trace[1..])
  }

  /** The events a run emits. */
  function Log(s: State, steps: seq<Step>): seq<Event> { Events(Trace(s, steps)) }

  /** The recorder's stream only grows, by exactly the run's log. */
  lemma {:induction false} StreamGrowsByLog(s: State, steps: seq<Step>)
    ensures Run(s, steps).events == s.events + Log(s, steps)
    decreases |steps|
  {
    if steps == [] {
    } else {
      var s' := Next(s, steps[0]);
      assert Run(s, steps) == Run(s', steps[1..]);
      StreamGrowsByLog(s', steps[1..]);
      LogUnfolds(s, steps);
      StepGrowsByLog(s, steps[0]);
      AppendIsAssociative(s.events, Events(Visits(s, steps[0])), Log(s', steps[1..]));
    }
  }

  lemma TwoReconciles(s: State, f: Faults, g: Faults)
    requires f.fetch.Found? && g.fetch.Found?
    ensures var (steps, s') := ([Reconcile(f), Reconcile(g)], Reconciled(s, f));
            && Run(s, steps) == Reconciled(s', g)
            && Trace(s, steps) == [Visits(s, Reconcile(f))[0], Visits(s', Reconcile(g))[0]]
            && Log(s, steps) == ExitOf(s.wl, s.deployments, f).events + ExitOf(s'.wl, s'.deployments, g).events
  {
    var (steps, s') := ([Reconcile(f), Reconcile(g)], Reconciled(s, f));
    assert steps[1..] == [Reconcile(g)] && [Reconcile(g)][1..] == [];
    assert Trace(s', [Reconcile(g)]) == Visits(s', Reconcile(g)) + [];
    assert Run(s, steps) == Run(s', [Reconcile(g)]);
    LogUnfolds(s, steps);
    SingleStep(s', Reconcile(g));
    EventsOfReconcile(s, f);
    EventsOfReconcile(s', g);
  }

  lemma StepGrowsByLog(s: State, step: Step)
    ensures Next(s, step).events == s.events + Events(Visits(s, step))
  {}

  lemma LogUnfolds(s: State, steps: seq<Step>)
    requires steps != []
    ensures Log(s, steps) == Events(Visits(s, steps[0])) + Log(Next(s, steps[0]), steps[1..])
  {
    EventsOfConcat(Visits(s, steps[0]), Trace(Next(s, steps[0]), steps[1..]));
  }

  lemma EventsOfReconcile(s: State, f: Faults)
    requires f.fetch.Found?
    ensures Events(Visits(s, Reconcile(f))) == ExitOf(s.wl, s.deployments, f).events
  {
    var v := Visits(s, Reconcile(f));
    assert v[1..] == [] && Events(v) == v[0].exit.events + [];
  }

  lemma SingleStep(s: State, step: Step)
    ensures Run(s, [step]) == Next(s, step) && Log(s, [step]) == Events(Visits(s, step))
  {
    assert [step][1..] == [];
    assert Trace(s, [step]) == Visits(s, step) + [];
  }

  lemma {:induction false} EventsOfConcat(a: seq<Visit>, b: seq<Visit>)
    ensures Events(a + b) == Events(a) + Events(b)
  {
    if a == [] {
      assert a + b == b;
    } else {
      assert (a + b)[0] == a[0] && (a + b)[1..] == a[1..] + b;
      EventsOfConcat(a[1..], b);
      AppendIsAssociative(a[0].exit.events, Events(a[1..]), Events(b));
    }
  }

  /** Running is compositional: any cut of a run is itself a run from where the first part ends. */
  lemma {:induction false} RunOfConcat(s: State, a: seq<Step>, b: seq<Step>)
    ensures Run(s, a + b) == Run(Run(s, a), b)
    ensures Trace(s, a + b) == Trace(s, a) + Trace(Run(s, a), b)
    decreases |a|
  {
    if a == [] {
      assert a + b == b;
    } else {
      var s' := Next(s, a[0]);
      assert (a + b)[0] == a[0] && (a + b)[1..] == a[1..] + b;
      assert Run(s, a + b) == Run(s', a[1..] + b);
      assert Trace(s, a + b) == Visits(s, a[0]) + Trace(s', a[1..] + b);
      RunOfConcat(s', a[1..], b);
      AppendIsAssociative(Visits(s, a[0]), Trace(s', a[1..]), Trace(Run(s, a), b));
    }
  }

  ghost predicate AllPersisted(trace: seq<Visit>) {
    forall v :: v in trace ==> v.Persisted()
  }

  /** Status writes that failed. Each was dropped, so the stored status missed that reconcile. */
  function FailedWrites(trace: seq<Visit>): nat {
    if trace == [] then 0 else (if trace[0].Persisted() then 0 else 1) + FailedWrites(trace[1..])
  }

  /** The visits whose status write succeeded. */
  function PersistedOf(trace: seq<Visit>): seq<Visit> {
    if trace == [] then []
    else (if trace[0].Persisted() then [trace[0]] else []) + PersistedOf(trace[1..])
  }

  lemma {:induction false} PersistedHasNoFailures(trace: seq<Visit>)
    requires AllPersisted(trace)
    ensures FailedWrites(trace) == 0 && PersistedOf(trace) == trace
  {
    if trace != [] {
      PersistedHasNoFailures(trace[1..]);
    }
  }
}
