/** The API types of the operator: the WorkloadLifecycle resource, the Deployment it scales,
    the event vocabulary, and the machine integers they are written in. */
module Api {
  datatype Option<+T> = None | Some(value: T)

  datatype Result<+T, +E> = Ok(value: T) | Err(error: E)

  const INT32_MIN := -0x8000_0000
  const INT32_MAX := 0x7FFF_FFFF

  type int32 = x: int | INT32_MIN <= x <= INT32_MAX

  /** Two's-complement truncation to 32 bits: Go's conversion to int32 and its int32 `+` and `-`. */
  function Wrap32(x: int): (r: int32)
    ensures INT32_MIN <= x <= INT32_MAX ==> r == x
    ensures (x - r) % 0x1_0000_0000 == 0
  {
    (x + 0x8000_0000) % 0x1_0000_0000 - 0x8000_0000
  }

  datatype Spec = Spec(
    targetDeployment: string,
    high: int32,          // KVCacheThresholdPercent
    low: int32,           // KVCacheScaleDownThresholdPercent
    minReplicas: int32,
    maxReplicas: int32)

  /** One vocabulary for LastTransitionReason, condition reasons and event reasons.
      Unset is the empty string of a resource that was never reconciled. */
  datatype Reason =
    | Unset
    | MetricsUnavailable
    | TargetDeploymentNotFound
    | Holding
    | ScaledUp
    | ScaledDown
    | ScaleFailed
    | Recovered

  datatype ConditionType = Available | Degraded | OtherCondition(name: string)

  datatype ConditionStatus = ConditionTrue | ConditionFalse | ConditionUnknown

  datatype Condition = Condition(
    kind: ConditionType,
    status: ConditionStatus,
    reason: Reason,
    message: string,
    observedGeneration: int,
    lastTransitionTime: int)

  datatype Status = Status(
    conditions: seq<Condition>,
    observedKVCacheUsagePercent: int32,
    desiredReplicas: int32,
    lastScaleTime: Option<int>,
    lastTransitionReason: Reason)

  /** The WorkloadLifecycle as the API server stores it. */
  datatype Resource = Resource(spec: Spec, generation: int, resourceVersion: nat, status: Status)

  /** The part of a Deployment the operator reads and writes. */
  datatype Deployment = Deployment(replicas: Option<int32>, resourceVersion: nat)

  /** A Deployment whose replicas field is nil runs one replica. */
  function EffectiveReplicas(replicas: Option<int32>): int32 {
    if replicas.Some? then replicas.value else 1
  }

  datatype Metrics = Metrics(kvCacheUsagePercent: int32, numRequestsWaiting: int32)

  datatype EventType = Normal | Warning

  /** What an event's message says, without its formatting. */
  datatype Detail =
    | ErrorText(text: string)
    | RecoveredFrom(prior: Reason)
    | Scaled(target: string, before: int32, after: int32, usage: int32, threshold: int32)

  datatype Event = Event(kind: EventType, reason: Reason, detail: Detail)
}
