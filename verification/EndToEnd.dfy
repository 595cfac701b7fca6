/** From the scraped text to the status schema: what the operator writes is always valid. */
module EndToEnd {
  import opened Api
  import opened Scaling
  import opened ReconcileStep
  import opened Runs
  import opened ReplicaControl
  import opened EventLedger
  import opened Text
  import opened Numerals
  import opened Sequences
  import opened MetricsParser
  import MetricsStub

  /** All that is asked of the float conversion: on [0, 1] it is monotone, and it is exact at both ends.
      Rounding to the nearest float64 before and after the multiplication has these properties. */
  ghost predicate Percentage(reader: FloatReader) {
    && reader.convert(0.0) == 0 && reader.convert(1.0) == 100
    && forall x: real, y: real :: 0.0 <= x <= y <= 1.0 ==> reader.convert(x) <= reader.convert(y)
  }

  /** If the line is a usage sample with a number, the number is in [0, 1]; one that is not written as a
      decimal literal reads as a percentage. */
  ghost predicate UnitLine(line: string, reader: FloatReader) {
    |Fields(line)| == 2 && Fields(line)[0] == KV_NAME ==>
      var token := Fields(line)[1];
      if ScanFloat(token).Some? then 0.0 <= ScanFloat(token).value.Value() <= 1.0
      else reader.other(token).Some? ==> 0 <= reader.other(token).value <= 100
  }

  /** Nothing else is asked of a text. */
  ghost predicate UnitUsages(text: string, reader: FloatReader) {
    forall line :: line in SplitLines(text) ==> UnitLine(line, reader)
  }

  ghost predicate Scraped(f: Faults, text: string, reader: FloatReader) {
    UnitUsages(text, reader) && (f.metrics.Ok? ==> ParseText(text, reader) == Ok(f.metrics.value))
  }

  lemma UnitSample(line: string, reader: FloatReader)
    requires Percentage(reader) && UnitLine(line, reader) && SampleOf(line, reader).Usage?
    ensures 0 <= SampleOf(line, reader).percent <= 100
  {
    var literal := ScanFloat(Fields(line)[1]);
    if literal.Some? {
      assert reader.convert(0.0) <= reader.convert(literal.value.Value()) <= reader.convert(1.0);
    }
  }

  /** What parses from such a text is a percentage, however many samples it holds and in whatever layout. */
  lemma ParsedUsageIsPercentage(text: string, reader: FloatReader)
    requires Percentage(reader) && UnitUsages(text, reader) && ParseText(text, reader).Ok?
    ensures 0 <= ParseText(text, reader).value.kvCacheUsagePercent <= 100
  {
    var samples := Samples(SplitLines(text), reader);
    forall i | 0 <= i < |samples| && samples[i].Usage?
      ensures 0 <= samples[i].percent <= 100
    {
      UnitSample(SplitLines(text)[i], reader);
    }
    SamplesMeaning(samples);
    LastUsage(samples, ParseText(text, reader).value.kvCacheUsagePercent);
  }

  lemma LastUsage(samples: seq<Sample>, percent: int32)
    requires LastDefined(0, Usages(samples), percent)
    requires forall i :: 0 <= i < |samples| && samples[i].Usage? ==> 0 <= samples[i].percent <= 100
    ensures 0 <= percent <= 100
  {
    if i :| 0 <= i < |samples| && Usages(samples)[i] == Some(percent) {
      assert samples[i] == Usage(percent);
    }
  }

  /** The stub's own text qualifies whenever its usage is in [0, 1]. */
  lemma StubTextQualifies(kv: Decimal, requests: int, reader: FloatReader)
    requires 0.0 <= kv.Value() <= 1.0
    ensures UnitUsages(MetricsStub.Render(kv, requests), reader)
  {
    var (l1, l2) := (MetricsStub.UsageLine(kv), MetricsStub.WaitingLine(requests));
    MetricsStub.NamesPrint();
    MetricsStub.ReprPrints(kv);
    MetricsStub.IntPrints(requests);
    MetricsStub.TwoFields(KV_NAME, Repr(kv).Text());
    MetricsStub.TwoFields(WAITING_NAME, IntText(requests));
    MetricsStub.TwoLines(l1, l2);
    ReprIsExact(kv);
    ScanFloatComplete(Repr(kv));
    assert UnitLine(l1, reader) && UnitLine(l2, reader) && UnitLine("", reader);
    ThreeLines(MetricsStub.Render(kv, requests), l1, l2, "", reader);
  }

  lemma ThreeLines(text: string, l1: string, l2: string, l3: string, reader: FloatReader)
    requires SplitLines(text) == [l1, l2, l3]
    requires UnitLine(l1, reader) && UnitLine(l2, reader) && UnitLine(l3, reader)
    ensures UnitUsages(text, reader)
  {}

  /** The declared range of the status fields; a zero DesiredReplicas is omitted from the object. */
  ghost predicate Schema(st: Status) {
    0 <= st.observedKVCacheUsagePercent <= 100 && (st.desiredReplicas == 0 || st.desiredReplicas >= 1)
  }

  /** The status that a reconcile on the copy `read` tries to write, whether or not the write succeeds. */
  function Attempted(read: Resource, deployments: map<string, Deployment>, f: Faults): Status {
    ApplyUpdate(read.status, ExitOf(read, deployments, f).update, read.generation, f.clock)
  }

  /** The reconcile decides to scale up from the largest int32. */
  ghost predicate WrapsAtCap(read: Resource, deployments: map<string, Deployment>, f: Faults) {
    var d := GetDeployment(deployments, read.spec.targetDeployment, f.getFault);
    && f.metrics.Ok? && d.Ok?
    && f.metrics.value.kvCacheUsagePercent > read.spec.high && EffectiveReplicas(d.value.replicas) == INT32_MAX
  }

  /** Every Deployment runs at least `least` replicas. */
  ghost predicate Populated(deployments: map<string, Deployment>, least: int32) {
    forall name :: name in deployments ==> least <= EffectiveReplicas(deployments[name].replicas)
  }

  /** For any validated bounds, in either order and the largest included, and any stored count: a reconcile with a
      percentage for usage attempts a valid status exactly when it does not scale up from the largest int32.
      There the count it asks the Deployment for, and tries to record, is the most negative one. */
  lemma AttemptIsValidIff(read: Resource, deployments: map<string, Deployment>, f: Faults)
    requires PositiveBounds(read.spec) && Populated(deployments, 0) && Schema(read.status)
    requires f.metrics.Ok? ==> 0 <= f.metrics.value.kvCacheUsagePercent <= 100
    ensures var st := Attempted(read, deployments, f);
            && (Schema(st) <==> !WrapsAtCap(read, deployments, f))
            && (WrapsAtCap(read, deployments, f) ==>
                  && st.desiredReplicas == INT32_MIN
                  && ExitOf(read, deployments, f).commit == (if f.updateFault.None? then Some(INT32_MIN) else None)
                  && (f.updateFault.Some? ==> st.lastTransitionReason == ScaleFailed))
  {
    assert Wrap32(INT32_MAX + 1) == INT32_MIN;
  }

  // ---------- Over runs ----------

  /** Bounds that leave room below the largest int32, in either order. */
  ghost predicate RoomyBounds(spec: Spec) {
    PositiveBounds(spec) && spec.minReplicas < INT32_MAX && spec.maxReplicas < INT32_MAX
  }

  ghost predicate GoodResource(wl: Resource) { RoomyBounds(wl.spec) && Schema(wl.status) }

  ghost predicate GoodDeployments(deployments: map<string, Deployment>) {
    && Populated(deployments, 1)
    && forall name :: name in deployments ==> EffectiveReplicas(deployments[name].replicas) < INT32_MAX
  }

  ghost predicate Good(s: State) { GoodResource(s.wl) && GoodDeployments(s.deployments) }

  /** What a run may hold: reconciles on scraped texts, on the stored resource or on older good copies of it, edits
      that pass validation below the largest int32, and outside writes that keep every count positive. */
  ghost predicate Allowed(step: Step, text: string, reader: FloatReader) {
    match step
    case Reconcile(f) => Scraped(f, text, reader)
    case StaleReconcile(cached, f) => GoodResource(cached) && Scraped(f, text, reader)
    case EditSpec(spec) => RoomyBounds(spec)
    case OutsideWrite(deployments) => GoodDeployments(deployments)
  }

  lemma AttemptIsValid(read: Resource, deployments: map<string, Deployment>, f: Faults, text: string,
                       reader: FloatReader)
    requires GoodResource(read) && GoodDeployments(deployments) && Percentage(reader) && Scraped(f, text, reader)
    ensures var st := Attempted(read, deployments, f);
            && Schema(st) && (read.status.desiredReplicas >= 1 ==> st.desiredReplicas >= 1)
            && (ExitOf(read, deployments, f).update.desired.Some? ==> st.desiredReplicas >= 1)
    ensures var exit := ExitOf(read, deployments, f);
            exit.commit.Some? ==> read.spec.targetDeployment in deployments && 1 <= exit.commit.value < INT32_MAX
  {
    if f.metrics.Ok? {
      ParsedUsageIsPercentage(text, reader);
    }
    AttemptIsValidIff(read, deployments, f);
  }

  lemma StepKeepsGood(s: State, step: Step, text: string, reader: FloatReader)
    requires Good(s) && Percentage(reader) && Allowed(step, text, reader)
    ensures Good(Next(s, step))
    ensures s.wl.status.desiredReplicas >= 1 ==> Next(s, step).wl.status.desiredReplicas >= 1
  {
    if step.Reconcile? {
      AttemptIsValid(s.wl, s.deployments, step.f, text, reader);
    } else if step.StaleReconcile? {
      AttemptIsValid(step.cached, s.deployments, step.f, text, reader);
    }
  }

  lemma {:induction false} RunKeepsGood(s: State, steps: seq<Step>, texts: seq<string>, reader: FloatReader)
    requires Good(s) && Percentage(reader)
    requires |texts| == |steps| && forall i :: 0 <= i < |steps| ==> Allowed(steps[i], texts[i], reader)
    ensures Good(Run(s, steps))
    ensures s.wl.status.desiredReplicas >= 1 ==> Run(s, steps).wl.status.desiredReplicas >= 1
    decreases |steps|
  {
    if steps != [] {
      StepKeepsGood(s, steps[0], texts[0], reader);
      RunKeepsGood(Next(s, steps[0]), steps[1..], texts[1..], reader);
    }
  }

  /** Over every such run each status the operator stores or attempts to write is valid, and once DesiredReplicas
      was set it stays at least one. */
  lemma EveryAttemptIsValid(s: State, steps: seq<Step>, texts: seq<string>, f: Faults, text: string,
                            reader: FloatReader)
    requires Good(s) && Percentage(reader) && Scraped(f, text, reader)
    requires |texts| == |steps| && forall i :: 0 <= i < |steps| ==> Allowed(steps[i], texts[i], reader)
    ensures var now := Run(s, steps);
            var attempt := Attempted(now.wl, now.deployments, f);
            && Schema(now.wl.status) && Schema(attempt)
            && (s.wl.status.desiredReplicas >= 1 ==> now.wl.status.desiredReplicas >= 1)
            && (now.wl.status.desiredReplicas >= 1 ==> attempt.desiredReplicas >= 1)
            && (ExitOf(now.wl, now.deployments, f).update.desired.Some? ==> attempt.desiredReplicas >= 1)
  {
    RunKeepsGood(s, steps, texts, reader);
    AttemptIsValid(Run(s, steps).wl, Run(s, steps).deployments, f, text, reader);
  }

  // ---------- At the cap, with a server that validates ----------

  /** The server stores neither a negative count nor a status outside the schema. */
  ghost predicate Validates(s: State, f: Faults) {
    && (var commit := ExitOf(s.wl, s.deployments, f).commit; commit.Some? ==> commit.value >= 0)
    && (!Schema(Attempted(s.wl, s.deployments, f)) ==> f.statusFault)
  }

  /** Pressure on a Deployment that already runs the most replicas there can be. */
  ghost predicate CapPressure(s: State, f: Faults) {
    f.fetch.Found? && WrapsAtCap(s.wl, s.deployments, f) && Validates(s, f)
  }

  /** There every reconcile fails to scale, and warns of it again: as its status is refused, the failure is never
      recorded, so the repetition is never noticed. */
  lemma {:induction false} CapWarnsEveryTime(s: State, fs: seq<Faults>)
    requires s.wl.status.lastTransitionReason != ScaleFailed
    requires forall f :: f in fs ==> CapPressure(s, f)
    ensures var s' := Run(s, Reconciles(fs));
            s'.wl == s.wl && s'.deployments == s.deployments
    ensures Warnings(Log(s, Reconciles(fs)), ScaleFailed) == |fs|
    decreases |fs|
  {
    if fs != [] {
      assert fs[0] in fs && CapPressure(s, fs[0]);
      var s' := Reconciled(s, fs[0]);
      CapReconcile(s, fs[0]);
      assert Reconciles(fs)[1..] == Reconciles(fs[1..]);
      forall f | f in fs[1..]
        ensures CapPressure(s', f)
      {
        assert f in fs && CapPressure(s, f);
      }
      CapWarnsEveryTime(s', fs[1..]);
      LogUnfolds(s, Reconciles(fs));
      CountsOfConcat(Events(Visits(s, Reconcile(fs[0]))), Log(s', Reconciles(fs[1..])), ScaleFailed);
    }
  }

  lemma CapReconcile(s: State, f: Faults)
    requires s.wl.status.lastTransitionReason != ScaleFailed && CapPressure(s, f)
    ensures Reconciled(s, f).wl == s.wl && Reconciled(s, f).deployments == s.deployments
    ensures Warnings(Events(Visits(s, Reconcile(f))), ScaleFailed) == 1
  {
    assert Wrap32(INT32_MAX + 1) == INT32_MIN;
    VisitCounts(s.wl, s.deployments, f, ScaleFailed);
    EventsOfReconcile(s, f);
  }
}
