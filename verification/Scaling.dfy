/** The hysteresis-band scaling rule in int32 arithmetic, and exactly how far it meets its promises. */
module Scaling {
  import opened Api

  function ComputeDesiredReplicas(current: int32, usage: int32, spec: Spec): int32 {
    if usage > spec.high then
      var desired := Wrap32(current + 1);
      if desired > spec.maxReplicas then spec.maxReplicas else desired
    else if usage < spec.low then
      var desired := Wrap32(current - 1);
      if desired < spec.minReplicas then spec.minReplicas else desired
    else
      current
  }

  /** The same rule over unbounded integers: what the rule means when nothing wraps. */
  function IdealReplicas(current: int, usage: int, spec: Spec): int {
    if usage > spec.high then Min(current + 1, spec.maxReplicas)
    else if usage < spec.low then Max(current - 1, spec.minReplicas)
    else current
  }

  function Min(x: int, y: int): int { if x <= y then x else y }

  function Max(x: int, y: int): int { if x >= y then x else y }

  /** All that the resource's validation asks of the two replica bounds: nothing checks their order. */
  ghost predicate PositiveBounds(spec: Spec) { 1 <= spec.minReplicas && 1 <= spec.maxReplicas }

  ghost predicate OrderedBounds(spec: Spec) { 1 <= spec.minReplicas <= spec.maxReplicas }

  ghost predicate InBounds(count: int, spec: Spec) { spec.minReplicas <= count <= spec.maxReplicas }

  /** The machine rule is the ideal rule except when a step runs off an end of int32. */
  lemma AgreesWithIdealIff(current: int32, usage: int32, spec: Spec)
    requires PositiveBounds(spec)
    ensures ComputeDesiredReplicas(current, usage, spec) == IdealReplicas(current, usage, spec)
       <==> !(usage > spec.high && current == INT32_MAX)
            && !(usage <= spec.high && usage < spec.low && current == INT32_MIN && spec.minReplicas != INT32_MAX)
  {
    if usage > spec.high && current == INT32_MAX {
      assert Wrap32(current + 1) == INT32_MIN;
    } else if usage < spec.low && current == INT32_MIN {
      assert Wrap32(current - 1) == INT32_MAX;
    }
  }

  /** Exactly when one decision lands inside the configured bounds, whatever count it starts from.
      Each branch clamps on one side only, so a count far outside the other bound stays outside. */
  lemma LandsInBoundsIff(current: int32, usage: int32, spec: Spec)
    requires OrderedBounds(spec)
    ensures InBounds(ComputeDesiredReplicas(current, usage, spec), spec)
       <==> if usage > spec.high then spec.minReplicas - 1 <= current < INT32_MAX
            else if usage < spec.low then INT32_MIN < current <= spec.maxReplicas + 1
                                          || (current == INT32_MIN && spec.maxReplicas == INT32_MAX)
            else InBounds(current, spec)
  {
    if usage > spec.high && current == INT32_MAX {
      assert Wrap32(current + 1) == INT32_MIN;
    } else if usage < spec.low && current == INT32_MIN {
      assert Wrap32(current - 1) == INT32_MAX;
    }
  }

  /** With the largest legal MaxReplicas the cap never fires: scaling up at the cap wraps to the most
      negative count. */
  lemma CapWrapsAtInt32Max()
    ensures var spec := Spec("vllm", 80, 25, 1, INT32_MAX);
            OrderedBounds(spec) && InBounds(INT32_MAX, spec)
            && ComputeDesiredReplicas(INT32_MAX, 85, spec) == INT32_MIN
  {
    assert Wrap32(INT32_MAX + 1) == INT32_MIN;
  }

  /** From inside bounds the rule is monotone in both the count and the usage. */
  lemma Monotone(c: int32, u: int32, c': int32, u': int32, spec: Spec)
    requires spec.maxReplicas < INT32_MAX && INT32_MIN < spec.minReplicas
    requires InBounds(c, spec) && InBounds(c', spec)
    requires c <= c' && u <= u'
    ensures ComputeDesiredReplicas(c, u, spec) <= ComputeDesiredReplicas(c', u', spec)
  {}
}
