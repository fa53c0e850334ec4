/** Proxy nodes as the control plane knows them, and the classification of their health. */
module Nodes {
  import opened Prelude
  import opened Bandwidth

  const U32_MAX := 0xFFFF_FFFF
  type u32 = x: int | 0 <= x <= U32_MAX

  datatype NodeState = Starting | Healthy | Degraded | Draining | Offline {
    predicate Live() {
      Starting? || Healthy? || Degraded?
    }

    predicate Selectable() {
      Healthy? || Degraded?
    }
  }

  /** A row of the registry; the heartbeat is stored in whole seconds. */
  datatype Node = Node(
    id: string,
    address: string,
    state: NodeState,
    lastHeartbeat: Option<int>,
    maxConnections: u32,
    activeConnections: nat,
    bandwidthLimit: u64,
    latencyMs: u32)
  {
    predicate Selectable() {
      state.Selectable()
    }

    /** The row as a reader gets it: the stored count is cut down to 32 bits. */
    function AsRead(): (r: Node)
      ensures r == this.(activeConnections := r.activeConnections)
      ensures r.activeConnections < 0x1_0000_0000 && (activeConnections - r.activeConnections) % 0x1_0000_0000 == 0
    {
      this.(activeConnections := activeConnections % (U32_MAX + 1))
    }

    function AvailableCapacity(): nat {
      if maxConnections <= activeConnections then 0 else maxConnections - activeConnections
    }

    function BandwidthUtilization(): real {
      var ratio := Utilization(activeConnections, maxConnections);
      if ratio > 1.0 then 1.0 else ratio
    }
  }

  function Utilization(active: nat, max: nat): real {
    if max == 0 then 1.0 else active as real / max as real
  }

  datatype HealthPolicy = HealthPolicy(offlineTimeout: real, degradedThreshold: real)

  const DEFAULT_POLICY := HealthPolicy(30.0, 0.9)

  /** The state a node moves to when it reports its load. */
  function Reclassify(current: NodeState, active: nat, max: nat, policy: HealthPolicy): NodeState {
    if current.Draining? || current.Offline? then current
    else if Utilization(active, max) >= policy.degradedThreshold then Degraded
    else Healthy
  }

  /** Silence since the recorded beat; a beat in the future counts as no silence. */
  predicate IsStale(lastHeartbeat: Option<int>, now: real, policy: HealthPolicy) {
    lastHeartbeat.Some?
    && var elapsed := now - lastHeartbeat.value as real;
       (if elapsed < 0.0 then 0.0 else elapsed) >= policy.offlineTimeout
  }

  /** By default silence of thirty seconds is stale, and nine tenths of the slots are a degraded load. */
  lemma Defaults(beat: int, now: real, active: nat, max: nat)
    requires beat as real <= now
    ensures IsStale(Some(beat), now, DEFAULT_POLICY) <==> now - beat as real >= 30.0
    ensures Reclassify(Healthy, active, max, DEFAULT_POLICY) == Degraded <==> max == 0 || 10 * active >= 9 * max
  {
    if max > 0 {
      var u := active as real / max as real;
      assert u * max as real == active as real;
      assert u >= 0.9 <==> u * max as real >= 0.9 * max as real;
    }
  }

  /**
  A beat at time `at` is recorded as its whole second.  Silence of the full timeout is always seen as
  stale, and whatever is seen as stale has been silent for more than the timeout less one second.
  */
  lemma StalenessToTheSecond(at: real, now: real, policy: HealthPolicy)
    requires at <= now
    ensures now - at >= policy.offlineTimeout ==> IsStale(Some(at.Floor), now, policy)
    ensures IsStale(Some(at.Floor), now, policy) ==> now - at > policy.offlineTimeout - 1.0
  {
    assert at.Floor as real <= at < at.Floor as real + 1.0;
  }
}
