/** Whole runs of the control plane, each service operation taken as one atomic event at its time. */
module Lifecycle {
  import opened Prelude
  import opened Nodes
  import opened Registry
  import opened Routing

  datatype Op =
    | Register(req: RegisterRequest)
    | Beat(hb: Heartbeat)
    | Drain(id: string)
    | Adjust(id: string, delta: int)
    | Sweep
  {
    predicate IsBeatOf(id: string) {
      Beat? && hb.id == id
    }

    predicate IsRegisterOf(id: string) {
      Register? && req.id == id
    }
  }

  datatype Event = Event(at: real, op: Op)

  /** Record the beat, then reclassify from the state read before it. */
  function BeatOnce(t: Table, hb: Heartbeat, now: real, policy: HealthPolicy): Table {
    if hb.id !in t then t
    else
      var state, max := t[hb.id].state, t[hb.id].maxConnections;
      var applied := ApplyHeartbeat(t, hb, now);
      var next := Reclassify(state, hb.activeConnections, max, policy);
      if next != state then SetState(applied, hb.id, next) else applied
  }

  predicate Overdue(n: Node, now: real, policy: HealthPolicy) {
    n.state.Live() && IsStale(n.lastHeartbeat, now, policy)
  }

  function SweepOnce(t: Table, now: real, policy: HealthPolicy): Table {
    map id | id in t :: if Overdue(t[id], now, policy) then t[id].(state := Offline) else t[id]
  }

  function Apply(t: Table, e: Event, policy: HealthPolicy): Table {
    match e.op
    case Register(req) => Upsert(t, req)
    case Beat(hb) => BeatOnce(t, hb, e.at, policy)
    case Drain(id) => SetState(t, id, Draining)
    case Adjust(id, delta) => AdjustActive(t, id, delta)
    case Sweep => SweepOnce(t, e.at, policy)
  }

  function Run(t: Table, events: seq<Event>, policy: HealthPolicy): Table {
    if events == [] then t
    else Apply(Run(t, events[..|events| - 1], policy), events[|events| - 1], policy)
  }

  predicate SelectableIn(t: Table, id: string) {
    id in t && t[id].Selectable()
  }

  predicate InState(t: Table, id: string, state: NodeState) {
    id in t && t[id].state == state
  }

  lemma {:induction false} RunAppends(t: Table, first: seq<Event>, second: seq<Event>, policy: HealthPolicy)
    ensures Run(t, first + second, policy) == Run(Run(t, first, policy), second, policy)
  {
    if second == [] {
      assert first + second == first;
    } else {
      var n := |second| - 1;
      RunAppends(t, first, second[..n], policy);
      assert (first + second)[..|first| + n] == first + second[..n];
    }
  }

  lemma RunStep(events: seq<Event>, e: Event, policy: HealthPolicy)
    ensures Run(map[], events + [e], policy) == Apply(Run(map[], events, policy), e, policy)
  {
    assert (events + [e])[..|events|] == events;
  }

  /** Rows stay filed under their own ids. */
  lemma ApplyKeepsKeyed(t: Table, e: Event, policy: HealthPolicy)
    requires Keyed(t)
    ensures Keyed(Apply(t, e, policy))
  {
  }

  // ----- provenance -----

  function LastRegister(events: seq<Event>, id: string): Option<RegisterRequest> {
    if events == [] then None
    else
      var op := events[|events| - 1].op;
      if op.IsRegisterOf(id) then Some(op.req) else LastRegister(events[..|events| - 1], id)
  }

  /** The last beat of `id` that found it registered, with its time. */
  function LastBeat(events: seq<Event>, id: string): (beat: Option<(real, Heartbeat)>)
    ensures beat.Some? ==> LastRegister(events, id).Some?
  {
    if events == [] then None
    else
      var prefix, e := events[..|events| - 1], events[|events| - 1];
      if e.op.IsBeatOf(id) && LastRegister(prefix, id).Some? then Some((e.at, e.op.hb)) else LastBeat(prefix, id)
  }

  /** The load reported by the last beat, with the adjustments made since, none of which goes below zero. */
  function Load(events: seq<Event>, id: string): nat {
    if events == [] then 0
    else
      var prefix, op := events[..|events| - 1], events[|events| - 1].op;
      if LastRegister(prefix, id).None? then 0
      else if op.IsBeatOf(id) then op.hb.activeConnections
      else if op.Adjust? && op.id == id && Load(prefix, id) + op.delta <= 0 then 0
      else if op.Adjust? && op.id == id then Load(prefix, id) + op.delta
      else Load(prefix, id)
  }

  /** The row that the reports add up to, its state aside. */
  function Reported(events: seq<Event>, id: string, state: NodeState): Option<Node> {
    var reg, beat := LastRegister(events, id), LastBeat(events, id);
    if reg.None? then None
    else Some(Node(id, reg.value.address, state,
                   if beat.None? then None else Some(beat.value.0.Floor),
                   reg.value.maxConnections, Load(events, id), reg.value.bandwidthLimit,
                   if beat.None? then 0 else beat.value.1.latencyMs))
  }

  function RowOf(t: Table, id: string): Option<Node> {
    if id in t then Some(t[id]) else None
  }

  function StateOf(t: Table, id: string): NodeState {
    if id in t then t[id].state else Starting
  }

  lemma ReportedStep(t: Table, events: seq<Event>, policy: HealthPolicy, id: string)
    requires events != [] && RowOf(t, id) == Reported(events[..|events| - 1], id, StateOf(t, id))
    ensures var t' := Apply(t, events[|events| - 1], policy);
            RowOf(t', id) == Reported(events, id, StateOf(t', id))
  {
    hide Reclassify, Overdue;
  }

  /**
  Over all runs the row of a node is made of what was last reported about it: its configuration by its
  last registration, its beat and latency by its last heartbeat, which a registration does not erase.
  */
  lemma {:induction false} RowIsWhatWasReported(events: seq<Event>, policy: HealthPolicy, id: string)
    ensures var t := Run(map[], events, policy);
            RowOf(t, id) == Reported(events, id, StateOf(t, id))
  {
    hide Apply;
    if events != [] {
      RowIsWhatWasReported(events[..|events| - 1], policy, id);
      ReportedStep(Run(map[], events[..|events| - 1], policy), events, policy, id);
    }
  }

  predicate Concerns(op: Op, id: string) {
    || op.Sweep? || op.IsRegisterOf(id) || op.IsBeatOf(id)
    || ((op.Drain? || op.Adjust?) && op.id == id)
  }

  function Concerning(events: seq<Event>, id: string): seq<Event> {
    if events == [] then []
    else
      var prefix, e := events[..|events| - 1], events[|events| - 1];
      Concerning(prefix, id) + if Concerns(e.op, id) then [e] else []
  }

  lemma ApplyToRow(t: Table, u: Table, e: Event, policy: HealthPolicy, id: string)
    ensures Concerns(e.op, id) && RowOf(t, id) == RowOf(u, id) ==>
              RowOf(Apply(t, e, policy), id) == RowOf(Apply(u, e, policy), id)
    ensures !Concerns(e.op, id) ==> RowOf(Apply(t, e, policy), id) == RowOf(t, id)
  {
    hide Reclassify, IsStale;
  }

  /** Nodes do not interfere: a row is the same without the events of all other nodes. */
  lemma {:induction false} OthersDoNotMatter(events: seq<Event>, policy: HealthPolicy, id: string)
    ensures RowOf(Run(map[], events, policy), id) == RowOf(Run(map[], Concerning(events, id), policy), id)
  {
    hide Apply, Concerns, RowOf;
    if events != [] {
      var prefix, e := events[..|events| - 1], events[|events| - 1];
      var kept := Concerning(prefix, id);
      OthersDoNotMatter(prefix, policy, id);
      ApplyToRow(Run(map[], prefix, policy), Run(map[], kept, policy), e, policy, id);
      assert (kept + [e])[..|kept|] == kept && kept + [] == kept;
    }
  }

  // ----- the state machine -----

  /** Every edge the operations can take a node along. */
  predicate Edge(from: NodeState, to: NodeState) {
    || from == to
    || (from.Live() && (to.Healthy? || to.Degraded? || to.Offline?))
    || to.Draining?
    || (from.Offline? && to.Starting?)
  }

  lemma EveryEventFollowsEdges(t: Table, e: Event, policy: HealthPolicy, id: string)
    requires id in t
    ensures id in Apply(t, e, policy) && Edge(t[id].state, Apply(t, e, policy)[id].state)
    ensures t[id].state.Offline? && !e.op.IsRegisterOf(id) ==>
              Apply(t, e, policy)[id].state.Offline? || Apply(t, e, policy)[id].state.Draining?
    ensures Apply(t, e, policy)[id].Selectable() && !t[id].Selectable() ==>
              t[id].state.Starting? && e.op.IsBeatOf(id)
  {
  }

  /** Taken one at a time, the operations never let a draining node go. */
  lemma {:induction false} DrainingForever(t: Table, events: seq<Event>, policy: HealthPolicy, id: string)
    requires InState(t, id, Draining)
    ensures InState(Run(t, events, policy), id, Draining)
  {
    if events != [] {
      var prefix := events[..|events| - 1];
      DrainingForever(t, prefix, policy, id);
      EveryEventFollowsEdges(Run(t, prefix, policy), events[|events| - 1], policy, id);
    }
  }

  /** Without a heartbeat no run makes a node selectable. */
  lemma {:induction false} SelectableNeedsBeat(t: Table, events: seq<Event>, policy: HealthPolicy, id: string)
    requires !SelectableIn(t, id)
    requires forall i :: 0 <= i < |events| ==> !events[i].op.IsBeatOf(id)
    ensures !SelectableIn(Run(t, events, policy), id)
  {
    if events != [] {
      var prefix := events[..|events| - 1];
      SelectableNeedsBeat(t, prefix, policy, id);
      var before := Run(t, prefix, policy);
      if id in before {
        EveryEventFollowsEdges(before, events[|events| - 1], policy, id);
      }
    }
  }

  // ----- failover -----

  /** Any beat on record was made at a time no later than `h`, and selectable nodes have one. */
  ghost predicate BeatsBy(t: Table, id: string, h: real) {
    id in t ==>
      && (t[id].lastHeartbeat.Some? ==> t[id].lastHeartbeat.value as real <= h)
      && (t[id].Selectable() ==> t[id].lastHeartbeat.Some?)
  }

  lemma {:induction false} RunKeepsBeatsBy(t: Table, events: seq<Event>, policy: HealthPolicy, id: string, h: real)
    requires BeatsBy(t, id, h)
    requires forall i :: 0 <= i < |events| && events[i].op.IsBeatOf(id) ==> events[i].at <= h
    ensures BeatsBy(Run(t, events, policy), id, h)
  {
    if events != [] {
      RunKeepsBeatsBy(t, events[..|events| - 1], policy, id, h);
    }
  }

  /** Between `from` and `to` no stretch of length `gap` is without a sweep. */
  ghost predicate SweptEvery(events: seq<Event>, gap: real, from: real, to: real) {
    forall u :: from <= u && u + gap <= to ==> SweptWithin(events, u, gap)
  }

  /** There is a sweep at `u` or up to `gap` later. */
  ghost predicate SweptWithin(events: seq<Event>, u: real, gap: real) {
    exists k :: 0 <= k < |events| && events[k].op.Sweep? && u <= events[k].at <= u + gap
  }

  ghost predicate InOrder(events: seq<Event>) {
    forall i, j :: 0 <= i < j < |events| ==> events[i].at <= events[j].at
  }

  lemma SweepDisqualifies(t: Table, policy: HealthPolicy, id: string, h: real, at: real)
    requires BeatsBy(t, id, h) && h + policy.offlineTimeout <= at
    ensures !SelectableIn(SweepOnce(t, at, policy), id)
  {
  }

  /**
  Failover: with sweeps at most `gap` apart, a node heard last at `h` is not selectable at any time
  from h + timeout + gap on, whatever is registered, drained or adjusted meanwhile.  With a timeout of
  zero that holds at any later instant; at h + gap itself the one sweep may have come before the beat.
  */
  lemma FailoverBound(events: seq<Event>, policy: HealthPolicy, id: string, h: real, gap: real, now: real)
    requires policy.offlineTimeout >= 0.0 && InOrder(events)
    requires forall i :: 0 <= i < |events| && events[i].op.IsBeatOf(id) ==> events[i].at <= h
    requires SweptEvery(events, gap, h, now)
    requires h + policy.offlineTimeout + gap <= now && h + gap < now
    ensures !SelectableIn(Run(map[], events, policy), id)
  {
    var due := if policy.offlineTimeout > 0.0 then h + policy.offlineTimeout else now - gap;
    assert SweptWithin(events, due, gap);
    var k :| 0 <= k < |events| && events[k].op.Sweep? && due <= events[k].at;
    SweptForGood(events, policy, id, h, k);
  }

  /** A sweep of a node that is due by then, and is not heard any more, settles the matter. */
  lemma SweptForGood(events: seq<Event>, policy: HealthPolicy, id: string, h: real, k: nat)
    requires InOrder(events) && k < |events| && events[k].op.Sweep?
    requires h < events[k].at && h + policy.offlineTimeout <= events[k].at
    requires forall i :: 0 <= i < |events| && events[i].op.IsBeatOf(id) ==> events[i].at <= h
    ensures !SelectableIn(Run(map[], events, policy), id)
  {
    var before, after := events[..k], events[k + 1..];
    var t := Run(map[], before, policy);
    RunKeepsBeatsBy(map[], before, policy, id, h);
    var swept := SweepOnce(t, events[k].at, policy);
    SweepDisqualifies(t, policy, id, h, events[k].at);
    assert events[..k + 1][..k] == before && Run(map[], events[..k + 1], policy) == swept;
    hide Run, SelectableIn, SweepOnce, BeatsBy;
    forall i | 0 <= i < |after|
      ensures !after[i].op.IsBeatOf(id)
    {
      assert after[i] == events[k + 1 + i] && events[k].at <= events[k + 1 + i].at;
    }
    SelectableNeedsBeat(swept, after, policy, id);
    assert events == events[..k + 1] + after;
    RunAppends(map[], events[..k + 1], after, policy);
  }

  /** The edge case: swept and then heard within one instant, with a timeout of zero. */
  lemma ZeroTimeoutAtTheEdge() returns (events: seq<Event>, policy: HealthPolicy)
    ensures policy.offlineTimeout == 0.0 && InOrder(events) && SweptEvery(events, 0.0, 0.0, 0.0)
    ensures SelectableIn(Run(map[], events, policy), "n")
  {
    policy := HealthPolicy(0.0, 0.9);
    var e0 := Event(0.0, Register(RegisterRequest("n", "", 10, 1)));
    var e1, e2 := Event(0.0, Sweep), Event(0.0, Beat(Heartbeat("n", 0, 0)));
    events := [e0] + [e1] + [e2];
    assert events[1].op.Sweep?;
    assert Run(map[], [], policy) == map[] && [] + [e0] == [e0];
    RunStep([], e0, policy);
    RunStep([e0], e1, policy);
    RunStep([e0] + [e1], e2, policy);
  }

  /** `n` sweeps, `gap` apart. */
  function Sweeps(first: real, gap: real, n: nat): (sweeps: seq<Event>)
    ensures |sweeps| == n
    decreases n
  {
    if n == 0 then [] else [Event(first, Sweep)] + Sweeps(first + gap, gap, n - 1)
  }

  function LastOf(first: real, gap: real, n: nat): real
    decreases n
  {
    if n <= 1 then first else LastOf(first + gap, gap, n - 1)
  }

  lemma {:induction false} SweepsAre(first: real, gap: real, n: nat)
    requires gap > 0.0
    ensures var sweeps := Sweeps(first, gap, n);
            && InOrder(sweeps) && first <= LastOf(first, gap, n)
            && forall i :: 0 <= i < |sweeps| ==> sweeps[i].op.Sweep? && first <= sweeps[i].at <= LastOf(first, gap, n)
    decreases n
  {
    if n > 0 {
      SweepsAre(first + gap, gap, n - 1);
      var rest := Sweeps(first + gap, gap, n - 1);
      if n > 1 {
        assert LastOf(first, gap, n) == LastOf(first + gap, gap, n - 1);
      }
      forall i, j | 0 <= i < j < n
        ensures Sweeps(first, gap, n)[i].at <= Sweeps(first, gap, n)[j].at
      {
        assert Sweeps(first, gap, n)[j] == rest[j - 1];
      }
    }
  }

  /** Every stretch of length `gap` between them has one of them in it. */
  lemma {:induction false} SweepsCover(first: real, gap: real, n: nat, u: real)
    requires gap > 0.0 && n > 0 && first <= u + gap && u <= LastOf(first, gap, n)
    ensures SweptWithin(Sweeps(first, gap, n), u, gap)
    decreases n
  {
    var sweeps := Sweeps(first, gap, n);
    if u <= first {
      assert sweeps[0].op.Sweep? && u <= sweeps[0].at <= u + gap;
    } else {
      SweepsCover(first + gap, gap, n - 1, u);
      var rest := Sweeps(first + gap, gap, n - 1);
      var k :| 0 <= k < |rest| && rest[k].op.Sweep? && u <= rest[k].at <= u + gap;
      assert sweeps[k + 1] == rest[k];
    }
  }

  lemma {:induction false} LastOfIs(first: real, gap: real, k: nat)
    ensures LastOf(first, gap, k + 1) == first + k as real * gap
    decreases k
  {
    if k > 0 {
      LastOfIs(first + gap, gap, k - 1);
      assert k as real * gap == (k - 1) as real * gap + gap;
    }
  }

  /** Sweeps that end at `last` and begin within `gap` of `from`. */
  lemma SweepsUpTo(from: real, gap: real, last: real) returns (first: real, n: nat)
    requires gap > 0.0 && from <= last
    ensures n > 0 && from <= first <= from + gap && LastOf(first, gap, n) == last
  {
    var q := (last - from) / gap;
    assert q * gap == last - from && q >= 0.0;
    var k := q.Floor;
    var r := q - k as real;
    assert 0.0 <= r < 1.0;
    first, n := last - k as real * gap, k + 1;
    assert first - from == r * gap;
    Scaled(r, gap);
    LastOfIs(first, gap, k);
  }

  lemma Scaled(r: real, gap: real)
    requires 0.0 <= r <= 1.0 && gap > 0.0
    ensures 0.0 <= r * gap <= gap
  {
  }

  lemma {:induction false} FreshNodeIsKept(t: Table, sweeps: seq<Event>, policy: HealthPolicy, id: string)
    requires id in t
    requires forall i :: 0 <= i < |sweeps| ==>
               sweeps[i].op.Sweep? && !IsStale(t[id].lastHeartbeat, sweeps[i].at, policy)
    ensures RowOf(Run(t, sweeps, policy), id) == Some(t[id])
  {
    hide IsStale;
    if sweeps != [] {
      FreshNodeIsKept(t, sweeps[..|sweeps| - 1], policy, id);
    }
  }

  /**
  The bound is the least one: with any timeout and any gap there are runs that meet all the conditions
  and have the node selectable as little as you like before it.
  */
  lemma FailoverBoundIsLeast(policy: HealthPolicy, id: string, h: int, gap: real, e: real) returns (events: seq<Event>)
    requires gap > 0.0 && 0.0 < e <= policy.offlineTimeout
    ensures InOrder(events) && forall i :: 0 <= i < |events| && events[i].op.IsBeatOf(id) ==> events[i].at <= h as real
    ensures SweptEvery(events, gap, h as real, h as real + policy.offlineTimeout + gap - e)
    ensures SelectableIn(Run(map[], events, policy), id)
  {
    var from, last := h as real, h as real + policy.offlineTimeout - e;
    var first, n := SweepsUpTo(from, gap, last);
    var sweeps := Sweeps(first, gap, n);
    SweepsAre(first, gap, n);
    var e0 := Event(from, Register(RegisterRequest(id, "", 1, 1)));
    var e1 := Event(from, Beat(Heartbeat(id, 0, 0)));
    events := [e0, e1] + sweeps;
    CoveredFrom([e0, e1], first, gap, n, from, last);
    assert h as real + policy.offlineTimeout + gap - e == last + gap;
    assert forall i :: 0 <= i < |sweeps| ==> !IsStale(Some(h), sweeps[i].at, policy);
    hide SweptEvery, Sweeps, LastOf, Run, IsStale;
    OneBeat(policy, id, h, e0, e1);
    var t := Run(map[], [e0, e1], policy);
    FreshNodeIsKept(t, sweeps, policy, id);
    RunAppends(map[], [e0, e1], sweeps, policy);
  }

  lemma CoveredFrom(before: seq<Event>, first: real, gap: real, n: nat, from: real, last: real)
    requires gap > 0.0 && n > 0 && first <= from + gap && last == LastOf(first, gap, n)
    ensures SweptEvery(before + Sweeps(first, gap, n), gap, from, last + gap)
  {
    hide SweptWithin;
    forall u | from <= u && u + gap <= last + gap
      ensures SweptWithin(before + Sweeps(first, gap, n), u, gap)
    {
      SweepsCover(first, gap, n, u);
      AlsoAfter(before, Sweeps(first, gap, n), u, gap);
    }
  }

  lemma AlsoAfter(before: seq<Event>, events: seq<Event>, u: real, gap: real)
    requires SweptWithin(events, u, gap)
    ensures SweptWithin(before + events, u, gap)
  {
    var k :| 0 <= k < |events| && events[k].op.Sweep? && u <= events[k].at <= u + gap;
    assert (before + events)[|before| + k] == events[k];
  }

  lemma OneBeat(policy: HealthPolicy, id: string, h: int, e0: Event, e1: Event)
    requires e0 == Event(h as real, Register(RegisterRequest(id, "", 1, 1)))
    requires e1 == Event(h as real, Beat(Heartbeat(id, 0, 0)))
    ensures var t := Run(map[], [e0, e1], policy);
            SelectableIn(t, id) && t[id].lastHeartbeat == Some(h)
  {
    assert Run(map[], [], policy) == map[] && [] + [e0] == [e0] && [e0] + [e1] == [e0, e1];
    RunStep([], e0, policy);
    RunStep([e0], e1, policy);
  }

  // ----- coming back from offline -----

  ghost predicate DrainedIn(events: seq<Event>, id: string) {
    exists k :: 0 <= k < |events| && events[k].op == Drain(id)
  }

  /** Some sweep of the run finds the given beat stale. */
  ghost predicate StaleSweepIn(events: seq<Event>, beat: Option<int>, policy: HealthPolicy) {
    exists k :: 0 <= k < |events| && events[k].op.Sweep? && IsStale(beat, events[k].at, policy)
  }

  /** Neither a beat nor a registration of `id`. */
  ghost predicate QuietFor(events: seq<Event>, id: string) {
    forall k :: 0 <= k < |events| ==> !events[k].op.IsBeatOf(id) && !events[k].op.IsRegisterOf(id)
  }

  /** A starting node waits for its beat: it keeps the old one on record, and only a drain or a sweep can move it. */
  lemma {:induction false} WaitingForBeat(t: Table, mid: seq<Event>, policy: HealthPolicy, id: string)
    requires InState(t, id, Starting) && QuietFor(mid, id)
    ensures var u, beat := Run(t, mid, policy), t[id].lastHeartbeat;
            && id in u && u[id].lastHeartbeat == beat
            && (u[id].state.Draining? <==> DrainedIn(mid, id))
            && (u[id].state.Offline? <==> !DrainedIn(mid, id) && StaleSweepIn(mid, beat, policy))
            && (u[id].state.Starting? <==> !DrainedIn(mid, id) && !StaleSweepIn(mid, beat, policy))
  {
    hide IsStale, Reclassify;
    if mid != [] {
      var n := |mid| - 1;
      WaitingForBeat(t, mid[..n], policy, id);
      LastOrBefore(mid, policy, id, t[id].lastHeartbeat);
    }
  }

  lemma LastOrBefore(mid: seq<Event>, policy: HealthPolicy, id: string, beat: Option<int>)
    requires mid != []
    ensures var n := |mid| - 1;
            && (DrainedIn(mid, id) <==> DrainedIn(mid[..n], id) || mid[n].op == Drain(id))
            && (StaleSweepIn(mid, beat, policy)
                <==> StaleSweepIn(mid[..n], beat, policy) || (mid[n].op.Sweep? && IsStale(beat, mid[n].at, policy)))
  {
    hide IsStale;
    var n := |mid| - 1;
    if DrainedIn(mid[..n], id) {
      var k :| 0 <= k < n && mid[..n][k].op == Drain(id);
      assert mid[k].op == Drain(id);
    }
    if DrainedIn(mid, id) && mid[n].op != Drain(id) {
      var k :| 0 <= k < |mid| && mid[k].op == Drain(id);
      assert mid[..n][k].op == Drain(id);
    }
    if StaleSweepIn(mid[..n], beat, policy) {
      var k :| 0 <= k < n && mid[..n][k].op.Sweep? && IsStale(beat, mid[..n][k].at, policy);
      assert mid[k].op.Sweep?;
    }
    if StaleSweepIn(mid, beat, policy) && !(mid[n].op.Sweep? && IsStale(beat, mid[n].at, policy)) {
      var k :| 0 <= k < |mid| && mid[k].op.Sweep? && IsStale(beat, mid[k].at, policy);
      assert mid[..n][k].op.Sweep?;
    }
  }

  /**
  A node that registers when it is offline, starting or new is selectable after its next beat, whatever
  else happens in between, exactly when it is not drained meanwhile and no sweep finds the beat stale
  that it made in its earlier life: registering does not erase that one.
  */
  lemma RevivesIffNoStaleSweep(
    t: Table, policy: HealthPolicy, req: RegisterRequest, at: real, mid: seq<Event>, hb: Heartbeat, beatAt: real)
    requires req.id in t ==> t[req.id].state.Offline? || t[req.id].state.Starting?
    requires hb.id == req.id && QuietFor(mid, req.id)
    ensures var before := Run(Apply(t, Event(at, Register(req)), policy), mid, policy);
            var beat := if req.id in t then t[req.id].lastHeartbeat else None;
            SelectableIn(Apply(before, Event(beatAt, Beat(hb)), policy), req.id)
            <==> !DrainedIn(mid, req.id) && !StaleSweepIn(mid, beat, policy)
  {
    hide IsStale, Utilization, Run, DrainedIn, StaleSweepIn, QuietFor;
    WaitingForBeat(Apply(t, Event(at, Register(req)), policy), mid, policy, req.id);
  }

  /** The row of a node that was heard at the beginning. */
  function Once(state: NodeState): Node {
    Node("n", "", state, Some(0), 10, 0, 1, 0)
  }

  lemma SweptOffline() returns (events: seq<Event>)
    ensures |events| == 3 && Run(map[], events, DEFAULT_POLICY) == map["n" := Once(Offline)]
  {
    var e0, e1 := Event(0.0, Register(RegisterRequest("n", "", 10, 1))), Event(0.0, Beat(Heartbeat("n", 0, 0)));
    assert Run(map[], [], DEFAULT_POLICY) == map[] && [] + [e0] == [e0];
    hide Run;
    RunStep([], e0, DEFAULT_POLICY);
    RunStep([e0], e1, DEFAULT_POLICY);
    assert Run(map[], [e0] + [e1], DEFAULT_POLICY) == map["n" := Once(Healthy)];
    events := [e0] + [e1] + [Event(30.0, Sweep)];
    RunStep([e0] + [e1], Event(30.0, Sweep), DEFAULT_POLICY);
  }

  /** And a revival is undone: a node swept offline registers, is swept before it beats, and stays offline. */
  lemma RevivalIsUndoneInSomeRun() returns (events: seq<Event>)
    ensures |events| == 6 && events[3].op.IsRegisterOf("n") && events[5].op.IsBeatOf("n")
    ensures InState(Run(map[], events[..3], DEFAULT_POLICY), "n", Offline)
    ensures InState(Run(map[], events, DEFAULT_POLICY), "n", Offline)
  {
    hide Run;
    var first := SweptOffline();
    var e3, e4 := Event(31.0, Register(RegisterRequest("n", "", 10, 1))), Event(32.0, Sweep);
    var e5 := Event(33.0, Beat(Heartbeat("n", 0, 0)));
    events := first + [e3] + [e4] + [e5];
    assert events[..3] == first;
    RunStep(first, e3, DEFAULT_POLICY);
    assert Run(map[], first + [e3], DEFAULT_POLICY) == map["n" := Once(Starting)];
    RunStep(first + [e3], e4, DEFAULT_POLICY);
    assert Run(map[], first + [e3] + [e4], DEFAULT_POLICY) == map["n" := Once(Offline)];
    RunStep(first + [e3] + [e4], e5, DEFAULT_POLICY);
  }

  /** An offline node stays offline through any number of beats, sweeps and adjustments. */
  lemma {:induction false} OfflineNeedsRegister(t: Table, events: seq<Event>, policy: HealthPolicy, id: string)
    requires InState(t, id, Offline)
    requires forall i :: 0 <= i < |events| ==> !events[i].op.IsRegisterOf(id)
    ensures InState(Run(t, events, policy), id, Offline) || InState(Run(t, events, policy), id, Draining)
    ensures (forall i :: 0 <= i < |events| ==> events[i].op != Drain(id)) ==>
              InState(Run(t, events, policy), id, Offline)
  {
    if events != [] {
      var prefix := events[..|events| - 1];
      OfflineNeedsRegister(t, prefix, policy, id);
      EveryEventFollowsEdges(Run(t, prefix, policy), events[|events| - 1], policy, id);
    }
  }

  // ----- sweeps -----

  /** The live nodes that have been silent too long. */
  function OverdueIds(t: Table, now: real, policy: HealthPolicy): set<string> {
    set id | id in t && Overdue(t[id], now, policy)
  }

  /** A sweep turns exactly the overdue nodes offline, and leaves nothing for a second one to do. */
  lemma SweepIsExact(t: Table, now: real, policy: HealthPolicy)
    ensures var s := SweepOnce(t, now, policy);
            && s.Keys == t.Keys
            && (forall id :: id in t ==> s[id] == t[id].(state := s[id].state))
            && (forall id :: id in t ==> (s[id].state != t[id].state <==> id in OverdueIds(t, now, policy)))
            && (forall id :: id in OverdueIds(t, now, policy) ==> s[id].state.Offline?)
            && OverdueIds(s, now, policy) == {} && SweepOnce(s, now, policy) == s
  {
    var s := SweepOnce(t, now, policy);
    assert forall id :: id in s ==> !Overdue(s[id], now, policy);
  }

  /**
  Over all runs, a sweep marks exactly the starting, healthy and degraded nodes whose last beat, cut
  down to its second, is the timeout or more ago; a beat in the future is no time ago, and one that
  never beat is never marked.  So every such node silent for the timeout is marked, and none that has
  not been silent for more than the timeout less a second.
  */
  lemma SilenceIsMarked(events: seq<Event>, policy: HealthPolicy, id: string, now: real)
    requires id in Run(map[], events, policy)
    ensures var t, beat := Run(map[], events, policy), LastBeat(events, id);
            var live := t[id].state.Starting? || t[id].state.Healthy? || t[id].state.Degraded?;
            var marked := SweepOnce(t, now, policy)[id] != t[id];
            && (marked ==> SweepOnce(t, now, policy)[id] == t[id].(state := Offline))
            && (marked <==> live && beat.Some? && SilentFor(beat.value.0, now) >= policy.offlineTimeout)
            && (live && beat.Some? && beat.value.0 <= now && now - beat.value.0 >= policy.offlineTimeout ==> marked)
            && (marked && beat.value.0 <= now ==> now - beat.value.0 > policy.offlineTimeout - 1.0)
  {
    hide IsStale, Run, LastBeat, LastRegister, Load;
    RowIsWhatWasReported(events, policy, id);
    var beat := LastBeat(events, id);
    if beat.Some? {
      StaleIs(beat.value.0, now, policy);
      if beat.value.0 <= now {
        StalenessToTheSecond(beat.value.0, now, policy);
      }
    } else {
      NeverStale(now, policy);
    }
  }

  /** The time since the second of a beat. */
  function SilentFor(at: real, now: real): real {
    if now < at.Floor as real then 0.0 else now - at.Floor as real
  }

  lemma StaleIs(at: real, now: real, policy: HealthPolicy)
    ensures IsStale(Some(at.Floor), now, policy) <==> SilentFor(at, now) >= policy.offlineTimeout
  {
  }

  lemma NeverStale(now: real, policy: HealthPolicy)
    ensures !IsStale(None, now, policy)
  {
  }

  // ----- healthy nodes are preferred -----

  /** Since `id` was last registered or adjusted, a heartbeat of it has completed. */
  predicate Settled(events: seq<Event>, id: string) {
    events != []
    && var prefix, op := events[..|events| - 1], events[|events| - 1].op;
       if op.IsBeatOf(id) then true
       else if op.IsRegisterOf(id) || (op.Adjust? && op.id == id) then false
       else Settled(prefix, id)
  }

  /** What settling buys: the state of the node agrees with the load it reported. */
  lemma {:induction false} SettledIsClassified(events: seq<Event>, policy: HealthPolicy, id: string)
    requires Settled(events, id)
    ensures var t := Run(map[], events, policy);
            id in t ==> && t[id].activeConnections <= U32_MAX
                        && Classified(t[id], policy.degradedThreshold)
  {
    hide Utilization, Overloaded;
    var prefix, op := events[..|events| - 1], events[|events| - 1].op;
    if op.IsBeatOf(id) {
      var before := Run(map[], prefix, policy);
      if id in before {
        UtilizationIs(op.hb.activeConnections, before[id].maxConnections, policy.degradedThreshold);
      }
    } else {
      SettledIsClassified(prefix, policy, id);
    }
  }

  /**
  Under any policy, as long as the listing holds a settled healthy node, the selector does not return a
  settled degraded one.
  */
  lemma SettledHealthyBeatsDegraded(
    events: seq<Event>, policy: HealthPolicy, nodes: seq<Node>, healthy: nat)
    requires IsListing(nodes, Run(map[], events, policy))
    requires healthy < |nodes| && nodes[healthy].state.Healthy? && Settled(events, nodes[healthy].id)
    ensures var best := Select(nodes, DEFAULT_WEIGHTS);
            best.Some? && (best.value.state.Degraded? ==> !Settled(events, best.value.id))
  {
    hide Run, Settled, Classified, Select, Outranks, Ascending;
    SettledIsClassified(events, policy, nodes[healthy].id);
    SelectedIsNotOutranked(nodes, healthy);
    var best := Select(nodes, DEFAULT_WEIGHTS).value;
    if best.state.Degraded? && Settled(events, best.id) {
      SettledIsClassified(events, policy, best.id);
      ClassifiedOutranks(nodes[healthy], best, policy.degradedThreshold);
    }
  }

  function Served(state: NodeState, at: int, active: nat, latencyMs: u32, id: string): Node {
    Node(id, "", state, Some(at), 10, active, 1, latencyMs)
  }

  /** Two nodes with ten slots each report a load. */
  lemma ReportedRun(low: Heartbeat, high: Heartbeat) returns (events: seq<Event>)
    requires low.id == "a" && high.id == "b" && low.activeConnections <= 8 && high.activeConnections >= 9
    ensures var a := Served(Healthy, 1, low.activeConnections, low.latencyMs, "a");
            var b := Served(Degraded, 3, high.activeConnections, high.latencyMs, "b");
            Run(map[], events, DEFAULT_POLICY) == map["a" := a, "b" := b]
    ensures Settled(events, "a") && Settled(events, "b")
  {
    var e0, e1 := Event(0.0, Register(RegisterRequest("a", "", 10, 1))), Event(1.0, Beat(low));
    var e2, e3 := Event(2.0, Register(RegisterRequest("b", "", 10, 1))), Event(3.0, Beat(high));
    var a := Served(Healthy, 1, low.activeConnections, low.latencyMs, "a");
    assert Run(map[], [], DEFAULT_POLICY) == map[] && [] + [e0] == [e0];
    SettledOn([e0], e1, "a");
    SettledOn([e0] + [e1], e2, "a");
    SettledOn([e0] + [e1] + [e2], e3, "a");
    SettledOn([e0] + [e1] + [e2], e3, "b");
    Tenths(low.activeConnections);
    Tenths(high.activeConnections);
    hide Run, Settled, Utilization;
    RunStep([], e0, DEFAULT_POLICY);
    RunStep([e0], e1, DEFAULT_POLICY);
    assert Run(map[], [e0] + [e1], DEFAULT_POLICY) == map["a" := a];
    RunStep([e0] + [e1], e2, DEFAULT_POLICY);
    RunStep([e0] + [e1] + [e2], e3, DEFAULT_POLICY);
    events := [e0] + [e1] + [e2] + [e3];
  }

  /** And then the load of one of them is adjusted. */
  lemma AdjustedRun(low: Heartbeat, high: Heartbeat, id: string, delta: int) returns (events: seq<Event>)
    requires low.id == "a" && high.id == "b" && (id == "a" || id == "b")
    requires low.activeConnections <= 8 && high.activeConnections >= 9
    ensures var a := Served(Healthy, 1, low.activeConnections, low.latencyMs, "a");
            var b := Served(Degraded, 3, high.activeConnections, high.latencyMs, "b");
            Run(map[], events, DEFAULT_POLICY) == AdjustActive(map["a" := a, "b" := b], id, delta)
    ensures id == "b" ==> Settled(events, "a")
    ensures id == "a" ==> Settled(events, "b")
  {
    hide Run, Settled;
    var reported := ReportedRun(low, high);
    var e := Event(4.0, Adjust(id, delta));
    SettledOn(reported, e, "a");
    SettledOn(reported, e, "b");
    RunStep(reported, e, DEFAULT_POLICY);
    events := reported + [e];
  }

  lemma SettledOn(events: seq<Event>, e: Event, id: string)
    ensures e.op.IsBeatOf(id) ==> Settled(events + [e], id)
    ensures !e.op.IsRegisterOf(id) && !(e.op.Adjust? && e.op.id == id) && Settled(events, id) ==>
              Settled(events + [e], id)
  {
    assert (events + [e])[..|events|] == events;
  }

  lemma Tenths(active: nat)
    ensures active <= 8 ==> Utilization(active, 10) < 0.9
    ensures active >= 9 ==> Utilization(active, 10) >= 0.9
  {
  }

  lemma Scores(n: Node)
    requires n.maxConnections == 10
    ensures n.state.Healthy? && n.activeConnections == 5 && n.latencyMs == 9 ==> Score(n, DEFAULT_WEIGHTS) == 247.5
    ensures n.state.Healthy? && n.activeConnections == 10 && n.latencyMs == 9 ==> Score(n, DEFAULT_WEIGHTS) == 110.0
    ensures n.state.Degraded? && n.activeConnections == 0 && n.latencyMs == 0 ==> Score(n, DEFAULT_WEIGHTS) == 400.0
    ensures n.state.Degraded? && n.activeConnections == 9 && n.latencyMs == 0 ==> Score(n, DEFAULT_WEIGHTS) == 121.0
  {
  }

  lemma TwoRows(t: Table, a: Node, b: Node)
    requires a.id == "a" && b.id == "b" && t == map["a" := a, "b" := b]
    requires a.Selectable() && b.Selectable() && a.AsRead() == a && b.AsRead() == b
    requires Score(a, DEFAULT_WEIGHTS) < Score(b, DEFAULT_WEIGHTS)
    ensures IsListing([a, b], t) && Select([a, b], DEFAULT_WEIGHTS) == Some(b)
  {
    hide Score;
    SelectIsLastBest([a, b], DEFAULT_WEIGHTS, 1);
    var ids := IdsOf([a, b]);
    assert ids == ["a", "b"] && ids[0] == "a" && ids[1] == "b";
    assert IdLess("a", "b");
  }

  /**
  Both nodes have to be settled.  A degraded node whose load is adjusted away keeps its state but gains
  score, and is selected ahead of a settled healthy one.
  */
  lemma AdjustedDegradedBeatsHealthy() returns (events: seq<Event>, nodes: seq<Node>)
    ensures IsListing(nodes, Run(map[], events, DEFAULT_POLICY))
    ensures |nodes| == 2 && nodes[0].state.Healthy? && Settled(events, nodes[0].id)
    ensures Select(nodes, DEFAULT_WEIGHTS) == Some(nodes[1]) && nodes[1].state.Degraded?
  {
    hide Run, Select, Settled, IsListing, Score;
    events := AdjustedRun(Heartbeat("a", 5, 9), Heartbeat("b", 10, 0), "b", -10);
    var a, b := Served(Healthy, 1, 5, 9, "a"), Served(Degraded, 3, 0, 0, "b");
    nodes := [a, b];
    Scores(a);
    Scores(b);
    TwoRows(Run(map[], events, DEFAULT_POLICY), a, b);
  }

  /**
  And a healthy node whose load is adjusted up to its ceiling keeps its state but loses score, and a
  settled degraded one is selected ahead of it.
  */
  lemma SettledDegradedBeatsAdjusted() returns (events: seq<Event>, nodes: seq<Node>)
    ensures IsListing(nodes, Run(map[], events, DEFAULT_POLICY))
    ensures |nodes| == 2 && nodes[0].state.Healthy?
    ensures Select(nodes, DEFAULT_WEIGHTS) == Some(nodes[1]) && nodes[1].state.Degraded? && Settled(events, nodes[1].id)
  {
    hide Run, Select, Settled, IsListing, Score;
    events := AdjustedRun(Heartbeat("a", 5, 9), Heartbeat("b", 9, 0), "a", 5);
    var a, b := Served(Healthy, 1, 10, 9, "a"), Served(Degraded, 3, 9, 0, "b");
    nodes := [a, b];
    Scores(a);
    Scores(b);
    TwoRows(Run(map[], events, DEFAULT_POLICY), a, b);
  }
}
