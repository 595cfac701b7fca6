/** The hysteresis band limits flapping: each reversal of direction is paid for by movement of the
    observed usage across the whole band. */
module Flapping {
  import opened Api
  import opened Scaling
  import opened ReconcileStep
  import opened Runs
  import opened Sequences
  import opened ReplicaControl
  import opened EventLedger

  predicate Scale(r: Reason) { r.ScaledUp? || r.ScaledDown? }

  function Direction(before: int32, after: int32): Reason { if after < before then ScaledDown else ScaledUp }

  /** Changes of direction between successive scale events of a log, when the one before it was `last`. */
  function Reversals(last: Option<Reason>, log: seq<Event>): nat
    decreases |log|
  {
    if log == [] then 0
    else if !Scale(log[0].reason) then Reversals(last, log[1..])
    else One(last.Some? && last.value != log[0].reason) + Reversals(Some(log[0].reason), log[1..])
  }

  /** Total variation of the successfully fetched usages, when the one before them was `last`. */
  function Variation(last: Option<int32>, fs: seq<Faults>): nat
    decreases |fs|
  {
    if fs == [] then 0
    else if fs[0].fetch.Found? && fs[0].metrics.Ok? then
      var u := fs[0].metrics.value.kvCacheUsagePercent;
      (if last.Some? then Abs(u - last.value) else 0) + Variation(Some(u), fs[1..])
    else Variation(last, fs[1..])
  }

  /** The distance from any usage that scales down to any usage that scales up. It is high - low + 2,
      except that an inverted band (low above high) still has distance one. */
  function Band(spec: Spec): nat { Max(spec.high - spec.low + 2, 1) }

  // ---------- From the log to the count ----------

  function CountReversals(spec: Spec, c: int32, last: Option<Reason>, fs: seq<Faults>): nat
    decreases |fs|
  {
    if fs == [] then 0
    else
      var c' := NextCount(spec, c, fs[0]);
      if c' == c then CountReversals(spec, c, last, fs[1..])
      else One(last.Some? && last.value != Direction(c, c')) + CountReversals(spec, c', Some(Direction(c, c')), fs[1..])
  }

  lemma {:induction false} ReversalsSkip(a: seq<Event>, b: seq<Event>, last: Option<Reason>)
    requires forall e :: e in a ==> !Scale(e.reason)
    ensures Reversals(last, a + b) == Reversals(last, b)
    decreases |a|
  {
    if a == [] {
      assert a + b == b;
    } else {
      assert a[0] in a;
      assert (a + b)[1..] == a[1..] + b;
      ReversalsSkip(a[1..], b, last);
    }
  }

  /** A reconcile's events end in one scale event in the direction the count moved, or hold none. */
  lemma VisitReversals(s: State, f: Faults, last: Option<Reason>, rest: seq<Event>)
    requires HasTarget(s)
    ensures var (c, c') := (Count(s), NextCount(s.wl.spec, Count(s), f));
            Reversals(last, Events(Visits(s, Reconcile(f))) + rest)
            == if c' == c then Reversals(last, rest)
               else One(last.Some? && last.value != Direction(c, c')) + Reversals(Some(Direction(c, c')), rest)
  {
    if !f.fetch.Found? {
      assert [] + rest == rest;
    } else {
      var before, announced := SplitEvents(s, f);
      AppendIsAssociative(before, announced, rest);
      ReversalsSkip(before, announced + rest, last);
      OutcomeIsDirection(s, f);
      if announced != [] && Scale(announced[0].reason) {
        assert (announced + rest)[0] == announced[0] && (announced + rest)[1..] == rest;
      } else {
        ReversalsSkip(announced, rest, last);
      }
    }
  }

  lemma SplitEvents(s: State, f: Faults) returns (before: seq<Event>, announced: seq<Event>)
    requires f.fetch.Found?
    ensures Events(Visits(s, Reconcile(f))) == before + announced
    ensures forall e :: e in before ==> e.reason == Recovered
    ensures |announced| <= 1
    ensures var now := ExitOf(s.wl, s.deployments, f).update.reason;
            if Scale(now) then announced != [] && announced[0].reason == now
            else forall e :: e in announced ==> !Scale(e.reason)
  {
    var v := Visits(s, Reconcile(f));
    assert Events(v) == v[0].exit.events;
    var prior := s.wl.status.lastTransitionReason;
    var u := v[0].exit.update;
    var scaled := EventsOfVisit(s.wl, s.deployments, f);
    before := RecoveredIf(prior == MetricsUnavailable && u.reason != MetricsUnavailable, MetricsUnavailable)
              + RecoveredIf(prior == TargetDeploymentNotFound && u.reason != TargetDeploymentNotFound
                            && u.reason != MetricsUnavailable, TargetDeploymentNotFound);
    announced := Announced(prior, u, scaled);
  }

  /** A reconcile's outcome is a scale exactly when the count moved, in that direction. */
  lemma OutcomeIsDirection(s: State, f: Faults)
    requires HasTarget(s) && f.fetch.Found?
    ensures var u := ExitOf(s.wl, s.deployments, f).update;
            var (c, c') := (Count(s), NextCount(s.wl.spec, Count(s), f));
            if c' == c then !Scale(u.reason) else u.reason == Direction(c, c')
  {}

  lemma {:induction false} LogReversals(s: State, fs: seq<Faults>, last: Option<Reason>)
    requires HasTarget(s)
    ensures Reversals(last, Log(s, Reconciles(fs))) == CountReversals(s.wl.spec, Count(s), last, fs)
    decreases |fs|
  {
    if fs != [] {
      var s' := Reconciled(s, fs[0]);
      var (c, c') := (Count(s), NextCount(s.wl.spec, Count(s), fs[0]));
      assert Reconciles(fs)[1..] == Reconciles(fs[1..]);
      LogUnfolds(s, Reconciles(fs));
      VisitReversals(s, fs[0], last, Log(s', Reconciles(fs[1..])));
      ReconcileCount(s, fs[0]);
      LogReversals(s', fs[1..], if c' == c then last else Some(Direction(c, c')));
    }
  }

  // ---------- The bound ----------

  /** The side of the band that last moved the count. A move clamps, so its direction need not match. */
  datatype Side = Unmoved | High | Low

  /** How far the usage `a` is from that side. */
  function Slack(spec: Spec, side: Side, a: Option<int32>): nat {
    if side.Unmoved? || a.None? then 0
    else if side.High? then Max(0, spec.high + 1 - a.value)
    else Max(0, a.value - Min(spec.low - 1, spec.high))
  }

  /** Where one side leaves the count: at the clamp, or on the way to it in that side's direction. From there
      the same side never reverses it. */
  ghost predicate Settling(spec: Spec, c: int32, last: Option<Reason>, side: Side) {
    match side
    case Unmoved => last.None?
    case High => last.Some? && (c == spec.maxReplicas || (last.value.ScaledUp? && c <= spec.maxReplicas))
    case Low => last.Some? && (c == spec.minReplicas || (last.value.ScaledDown? && c >= spec.minReplicas))
  }

  function SideOf(spec: Spec, u: int32): Side {
    if u > spec.high then High else if u < spec.low then Low else Unmoved
  }

  /** The same count of reversals, each charged the band width. */
  function Cost(spec: Spec, c: int32, last: Option<Reason>, fs: seq<Faults>): nat
    decreases |fs|
  {
    if fs == [] then 0
    else
      var c' := NextCount(spec, c, fs[0]);
      if c' == c then Cost(spec, c, last, fs[1..])
      else (if last.Some? && last.value != Direction(c, c') then Band(spec) else 0)
           + Cost(spec, c', Some(Direction(c, c')), fs[1..])
  }

  lemma {:induction false} CostIsProduct(spec: Spec, c: int32, last: Option<Reason>, fs: seq<Faults>)
    ensures Cost(spec, c, last, fs) == CountReversals(spec, c, last, fs) * Band(spec)
    decreases |fs|
  {
    if fs != [] {
      var c' := NextCount(spec, c, fs[0]);
      CostIsProduct(spec, c', if c' == c then last else Some(Direction(c, c')), fs[1..]);
      if c' != c {
        Distribute(One(last.Some? && last.value != Direction(c, c')),
                   CountReversals(spec, c', Some(Direction(c, c')), fs[1..]), Band(spec));
      }
    }
  }

  lemma Distribute(x: nat, y: nat, w: nat)
    requires x <= 1
    ensures (x + y) * w == (if x == 1 then w else 0) + y * w
  {}

  lemma SmallProduct(x: nat, w: nat)
    requires x * w < w
    ensures x == 0
  {}

  /** Moving the usage to `u` pays for the slack it takes away, and for a whole band when it changes side. */
  lemma UsagePays(spec: Spec, side: Side, a: int32, u: int32)
    ensures Slack(spec, side, Some(u)) <= Abs(u - a) + Slack(spec, side, Some(a))
    ensures var now := SideOf(spec, u);
            !side.Unmoved? && !now.Unmoved? && side != now ==> Band(spec) <= Abs(u - a) + Slack(spec, side, Some(a))
  {}

  /** The reconcile scales off an end of int32. */
  ghost predicate Wraps(spec: Spec, c: int32, f: Faults) {
    Effective(f) && match SideOf(spec, Usage(f))
                    case High => c == INT32_MAX
                    case Low => c == INT32_MIN
                    case Unmoved => false
  }

  ghost predicate NoneWraps(spec: Spec, c: int32, fs: seq<Faults>)
    decreases |fs|
  {
    fs == [] || (!Wraps(spec, c, fs[0]) && NoneWraps(spec, NextCount(spec, c, fs[0]), fs[1..]))
  }

  /** A move settles the count on its side, and reverses the last one only if that was on the other side. */
  lemma MoveSettles(spec: Spec, c: int32, last: Option<Reason>, side: Side, f: Faults)
    requires Settling(spec, c, last, side) && !Wraps(spec, c, f) && NextCount(spec, c, f) != c
    ensures var (c', now) := (NextCount(spec, c, f), SideOf(spec, Usage(f)));
            && !now.Unmoved? && Settling(spec, c', Some(Direction(c, c')), now)
            && Slack(spec, now, Some(Usage(f))) == 0
            && (last.Some? && last.value != Direction(c, c') ==> !side.Unmoved? && side != now)
  {}

  lemma {:induction false} FlapFrom(spec: Spec, c: int32, last: Option<Reason>, side: Side, a: Option<int32>,
                                    fs: seq<Faults>)
    requires NoneWraps(spec, c, fs) && Settling(spec, c, last, side)
    requires (last.Some? ==> Scale(last.value)) && (!side.Unmoved? ==> a.Some?)
    ensures Cost(spec, c, last, fs) <= Variation(a, fs) + Slack(spec, side, a)
    decreases |fs|
  {
    if fs != [] {
      var (f, rest) := (fs[0], fs[1..]);
      var c' := NextCount(spec, c, f);
      if !(f.fetch.Found? && f.metrics.Ok?) {
        FlapFrom(spec, c, last, side, a, rest);
      } else {
        var u := f.metrics.value.kvCacheUsagePercent;
        if a.Some? {
          UsagePays(spec, side, a.value, u);
        }
        if c' == c {
          FlapFrom(spec, c, last, side, Some(u), rest);
        } else {
          MoveSettles(spec, c, last, side, f);
          FlapFrom(spec, c', Some(Direction(c, c')), SideOf(spec, u), Some(u), rest);
        }
      }
    }
  }

  ghost predicate Bounded(s: State, fs: seq<Faults>)
    requires HasTarget(s)
  {
    Reversals(None, Log(s, Reconciles(fs))) * Band(s.wl.spec) <= Variation(None, fs)
  }

  /** Over any run of this controller alone, whatever fails, whatever the bounds and thresholds and wherever the
      count starts: if no scaling runs off an end of int32, direction reversals times the band width never exceed
      the usage's total variation. */
  lemma FlapBoundUnlessWrapped(s: State, fs: seq<Faults>)
    requires HasTarget(s) && NoneWraps(s.wl.spec, Count(s), fs)
    ensures Bounded(s, fs)
  {
    LogReversals(s, fs, None);
    CostIsProduct(s.wl.spec, Count(s), None, fs);
    FlapFrom(s.wl.spec, Count(s), None, Unmoved, None, fs);
  }

  /** Bounds that are off the ends of int32, in either order. */
  ghost predicate OpenBounds(spec: Spec) {
    INT32_MIN < spec.minReplicas < INT32_MAX && INT32_MIN < spec.maxReplicas < INT32_MAX
  }

  lemma FlapBound(s: State, fs: seq<Faults>)
    requires HasTarget(s) && OpenBounds(s.wl.spec) && INT32_MIN < Count(s) < INT32_MAX
    ensures Bounded(s, fs)
  {
    RoomyNeverWraps(s.wl.spec, Count(s), fs);
    FlapBoundUnlessWrapped(s, fs);
  }

  // ---------- With a server that refuses negative counts ----------

  /** No reconcile stores a negative count: an update that asks for one fails. */
  ghost predicate NegativesRefused(spec: Spec, c: int32, fs: seq<Faults>)
    decreases |fs|
  {
    fs == [] || (NextCount(spec, c, fs[0]) >= 0 && NegativesRefused(spec, NextCount(spec, c, fs[0]), fs[1..]))
  }

  /** Then the bound holds for every spec, MaxReplicas at 2^31-1 included, from every count that can be stored. */
  lemma FlapBoundWhenNegativesRefused(s: State, fs: seq<Faults>)
    requires HasTarget(s) && Count(s) >= 0 && NegativesRefused(s.wl.spec, Count(s), fs)
    ensures Bounded(s, fs)
  {
    RefusedNeverWraps(s.wl.spec, Count(s), fs);
    FlapBoundUnlessWrapped(s, fs);
  }

  lemma {:induction false} RefusedNeverWraps(spec: Spec, c: int32, fs: seq<Faults>)
    requires c >= 0 && NegativesRefused(spec, c, fs)
    ensures NoneWraps(spec, c, fs)
    decreases |fs|
  {
    if fs != [] {
      assert Wrap32(INT32_MAX + 1) == INT32_MIN;
      RefusedNeverWraps(spec, NextCount(spec, c, fs[0]), fs[1..]);
    }
  }

  // ---------- With a server that stores whatever it is asked to ----------

  /** The usages that exist on each side of the band cannot bring the count to that side's end of int32. */
  ghost predicate Roomy(spec: Spec, c: int32) {
    && (spec.high < INT32_MAX ==>
          spec.maxReplicas < INT32_MAX && c < INT32_MAX && (INT32_MIN < spec.low ==> spec.minReplicas < INT32_MAX))
    && (INT32_MIN < spec.low ==> INT32_MIN < c && INT32_MIN < spec.minReplicas)
    && (INT32_MIN < spec.low && spec.high < INT32_MAX ==> INT32_MIN < spec.maxReplicas)
  }

  lemma {:induction false} RoomyNeverWraps(spec: Spec, c: int32, fs: seq<Faults>)
    requires Roomy(spec, c)
    ensures NoneWraps(spec, c, fs)
    decreases |fs|
  {
    if fs != [] {
      RoomyNeverWraps(spec, NextCount(spec, c, fs[0]), fs[1..]);
    }
  }

  /** For every pair of bounds that passes validation, in either order and up to 2^31-1, and any thresholds: if
      the server stores whatever it is asked to, the flapping bound holds over all runs exactly when the spec and
      the start leave room, or when the one wrap there can be lands on the clamp and stays. */
  lemma FlapBoundHoldsIff(s: State)
    requires HasTarget(s) && PositiveBounds(s.wl.spec)
    ensures (forall fs :: Bounded(s, fs)) <==> Roomy(s.wl.spec, Count(s)) || WrapsOntoMin(s.wl.spec, Count(s))
  {
    var (spec, c) := (s.wl.spec, Count(s));
    if Roomy(spec, c) || WrapsOntoMin(spec, c) {
      forall fs
        ensures Bounded(s, fs)
      {
        if Roomy(spec, c) {
          RoomyNeverWraps(spec, c, fs);
          FlapBoundUnlessWrapped(s, fs);
        } else {
          LogReversals(s, fs, None);
          WrapOntoMinStays(spec, fs);
        }
      }
    } else {
      var fs := WrapsBreakTheBound(s);
    }
  }

  /** The start is the bottom of int32 and MinReplicas its top, with no usage that scales up. */
  ghost predicate WrapsOntoMin(spec: Spec, c: int32) {
    c == INT32_MIN && spec.minReplicas == INT32_MAX && spec.high == INT32_MAX
  }

  lemma {:induction false} WrapOntoMinStays(spec: Spec, fs: seq<Faults>)
    requires spec.minReplicas == INT32_MAX && spec.high == INT32_MAX
    ensures CountReversals(spec, INT32_MIN, None, fs) == 0
    ensures forall last :: CountReversals(spec, INT32_MAX, last, fs) == 0
    decreases |fs|
  {
    if fs != [] {
      assert Wrap32(INT32_MIN - 1) == INT32_MAX;
      WrapOntoMinStays(spec, fs[1..]);
    }
  }

  /** Where neither holds, a run breaks it; where the bounds are in order, even one of constant usage. */
  lemma WrapsBreakTheBound(s: State) returns (fs: seq<Faults>)
    requires HasTarget(s) && PositiveBounds(s.wl.spec)
    requires !Roomy(s.wl.spec, Count(s)) && !WrapsOntoMin(s.wl.spec, Count(s))
    ensures !Bounded(s, fs)
    ensures s.wl.spec.minReplicas <= s.wl.spec.maxReplicas ==> Variation(None, fs) == 0
  {
    fs := WrappingRun(s.wl.spec, Count(s));
    LogReversals(s, fs, None);
    ProductExceeds(CountReversals(s.wl.spec, Count(s), None, fs), Band(s.wl.spec), Variation(None, fs));
  }

  lemma ProductExceeds(n: nat, w: nat, v: nat)
    requires w >= 1 && ((n > 0 && v == 0) || (n == 2 && v == w))
    ensures n * w > v
  {
    if n == 2 {
      assert n * w == w + w;
    }
  }

  lemma WrappingRun(spec: Spec, c: int32) returns (fs: seq<Faults>)
    requires PositiveBounds(spec) && !Roomy(spec, c) && !WrapsOntoMin(spec, c)
    ensures var n := CountReversals(spec, c, None, fs);
            || (n > 0 && Variation(None, fs) == 0)
            || (n == 2 && Variation(None, fs) == Band(spec) && spec.minReplicas > spec.maxReplicas)
  {
    if spec.high < INT32_MAX && (spec.maxReplicas == INT32_MAX || c == INT32_MAX) {
      fs := Repeated(INT32_MAX, INT32_MAX - c + 2);
      ConstantUsage(None, INT32_MAX, INT32_MAX - c + 2);
      ClimbsAndWraps(spec, c, None, INT32_MAX);
    } else if INT32_MIN < spec.low && c == INT32_MIN && spec.minReplicas < INT32_MAX {
      fs := Repeated(INT32_MIN, 2);
      ConstantUsage(None, INT32_MIN, 2);
      assert Wrap32(INT32_MIN - 1) == INT32_MAX;
      TwoSteps(spec, c, None, INT32_MIN);
    } else {
      fs := UpToMinAndOff(spec, c);
    }
  }

  /** With MinReplicas at the top of int32, above MaxReplicas, one low usage takes the count there, and high
      usage takes it off the end and back: two reversals for one band. */
  lemma UpToMinAndOff(spec: Spec, c: int32) returns (fs: seq<Faults>)
    requires 1 <= spec.maxReplicas < spec.minReplicas == INT32_MAX && c < INT32_MAX
    requires spec.high < INT32_MAX && INT32_MIN < spec.low
    ensures CountReversals(spec, c, None, fs) == 2 && Variation(None, fs) == Band(spec)
  {
    var (u, v) := (Min(spec.low - 1, spec.high), spec.high + 1);
    fs := [Observed(u)] + Repeated(v, 2);
    assert fs[1..] == Repeated(v, 2) && Repeated(v, 2)[1..] == Repeated(v, 1) && Repeated(v, 1)[1..] == Repeated(v, 0);
    assert Wrap32(INT32_MIN - 1) == INT32_MAX && Wrap32(INT32_MAX + 1) == INT32_MIN;
    assert NextCount(spec, c, Observed(u)) == INT32_MAX && NextCount(spec, INT32_MAX, Observed(v)) == INT32_MIN;
    assert NextCount(spec, INT32_MIN, Observed(v)) == INT32_MIN + 1;
    assert CountReversals(spec, INT32_MIN, Some(ScaledDown), Repeated(v, 1)) == 1;
    assert CountReversals(spec, INT32_MAX, Some(ScaledUp), Repeated(v, 2)) == 2;
    ConstantUsage(Some(v), v, 1);
  }

  function Repeated(u: int32, n: nat): seq<Faults> { if n == 0 then [] else [Observed(u)] + Repeated(u, n - 1) }

  lemma {:induction false} ConstantUsage(last: Option<int32>, u: int32, n: nat)
    requires last.None? || last == Some(u)
    ensures Variation(last, Repeated(u, n)) == 0
    decreases n
  {
    if n > 0 {
      assert Repeated(u, n)[1..] == Repeated(u, n - 1);
      ConstantUsage(Some(u), u, n - 1);
    }
  }

  lemma {:induction false} ClimbsAndWraps(spec: Spec, c: int32, last: Option<Reason>, u: int32)
    requires PositiveBounds(spec) && spec.high < u && (spec.maxReplicas == INT32_MAX || c == INT32_MAX)
    ensures CountReversals(spec, c, last, Repeated(u, INT32_MAX - c + 2)) > 0
    decreases INT32_MAX - c
  {
    if c == INT32_MAX {
      assert Wrap32(INT32_MAX + 1) == INT32_MIN;
      TwoSteps(spec, c, last, u);
    } else {
      var n := INT32_MAX - c + 2;
      assert Repeated(u, n)[1..] == Repeated(u, n - 1);
      assert NextCount(spec, c, Observed(u)) == c + 1;
      ClimbsAndWraps(spec, c + 1, Some(ScaledUp), u);
    }
  }

  /** A step off an end of int32, and the next step under the same usage, which turns back. */
  lemma TwoSteps(spec: Spec, c: int32, last: Option<Reason>, u: int32)
    requires var c1 := NextCount(spec, c, Observed(u));
             var c2 := NextCount(spec, c1, Observed(u));
             c1 != c && c2 != c1 && Direction(c, c1) != Direction(c1, c2)
    ensures CountReversals(spec, c, last, Repeated(u, 2)) > 0
  {
    assert Repeated(u, 2)[1..] == Repeated(u, 1) && Repeated(u, 1)[1..] == Repeated(u, 0);
  }

  function Observed(u: int32): Faults {
    Faults(Found, Ok(Metrics(u, 0)), None, None, false, Clock(0, 0, 0))
  }

  /** In particular, usage that stays inside the band's width never makes the count reverse. */
  lemma NoFlappingInsideTheBand(s: State, fs: seq<Faults>)
    requires HasTarget(s) && NoneWraps(s.wl.spec, Count(s), fs)
    requires Variation(None, fs) < Band(s.wl.spec)
    ensures Reversals(None, Log(s, Reconciles(fs))) == 0
  {
    FlapBoundUnlessWrapped(s, fs);
    SmallProduct(Reversals(None, Log(s, Reconciles(fs))), Band(s.wl.spec));
  }

  // ---------- Tightness ----------

  /** `n` reconciles whose usage alternates between the nearest values outside the band. */
  function Swings(spec: Spec, n: nat, up: bool): seq<Faults>
    requires spec.high < INT32_MAX && INT32_MIN < spec.low
  {
    if n == 0 then [] else [Observed(if up then spec.high + 1 else spec.low - 1)] + Swings(spec, n - 1, !up)
  }

  /** The bound is attained: usage that swings just across the band reverses the count every time. */
  lemma FlapBoundIsTight(s: State, n: nat)
    requires HasTarget(s) && SafeBounds(s.wl.spec) && s.wl.spec.minReplicas < s.wl.spec.maxReplicas
    requires Count(s) == s.wl.spec.minReplicas
    requires INT32_MIN < s.wl.spec.low <= s.wl.spec.high < INT32_MAX
    ensures var fs := Swings(s.wl.spec, n + 1, true);
            Reversals(None, Log(s, Reconciles(fs))) == n && Variation(None, fs) == n * Band(s.wl.spec)
  {
    var spec := s.wl.spec;
    var fs := Swings(spec, n + 1, true);
    LogReversals(s, fs, None);
    assert fs[1..] == Swings(spec, n, false);
    assert Usage(fs[0]) == spec.high + 1 && NextCount(spec, Count(s), fs[0]) == spec.minReplicas + 1;
    assert CountReversals(spec, Count(s), None, fs)
        == CountReversals(spec, spec.minReplicas + 1, Some(ScaledUp), fs[1..]);
    SwingsReverse(spec, n, false);
  }

  lemma {:induction false} SwingsReverse(spec: Spec, n: nat, up: bool)
    requires SafeBounds(spec) && spec.minReplicas < spec.maxReplicas
    requires INT32_MIN < spec.low <= spec.high < INT32_MAX
    ensures var c := if up then spec.minReplicas else spec.minReplicas + 1;
            CountReversals(spec, c, Some(if up then ScaledDown else ScaledUp), Swings(spec, n, up)) == n
    ensures Variation(Some(if up then spec.low - 1 else spec.high + 1), Swings(spec, n, up)) == n * Band(spec)
    decreases n
  {
    if n > 0 {
      assert Swings(spec, n, up)[1..] == Swings(spec, n - 1, !up);
      SwingsReverse(spec, n - 1, !up);
      Distribute(1, n - 1, Band(spec));
    }
  }
}
