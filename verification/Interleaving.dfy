/**
The control plane with its operations interleaved.  A heartbeat reads the row, records the beat and
then perhaps writes a state; a sweep lists the table and then marks rows one by one.  Each of these
repository calls is a step, and any number of heartbeats and sweeps are under way at once.
*/
module Interleaving {
  import opened Prelude
  import opened Nodes
  import opened Registry
  import opened Lifecycle

  /** An operation under way, by what it has read so far. */
  datatype Task =
    | BeatStart(hb: Heartbeat)
    | BeatRead(hb: Heartbeat, state: NodeState, max: u32)
    | BeatApplied(hb: Heartbeat, next: NodeState)
    | SweepStart(now: real)
    | Sweeping(pending: set<string>)

  datatype World = World(table: Table, tasks: map<nat, Task>) {
    function Put(task: nat, t: Task): World {
      this.(tasks := tasks[task := t])
    }

    function End(task: nat): World {
      this.(tasks := tasks - {task})
    }
  }

  datatype Step =
    | Register(req: RegisterRequest)
    | SetDraining(id: string)
    | Adjust(id: string, delta: int)
    | Begin(task: nat, work: Task)
    | BeatGet(task: nat)
    | BeatApply(task: nat, now: real)
    | BeatSet(task: nat)
    | SweepList(task: nat)
    | SweepMark(task: nat, id: string)
    | Abandon(task: nat)

  /** The state a heartbeat that has read `state` and `max` will write. */
  function Target(hb: Heartbeat, state: NodeState, max: u32, policy: HealthPolicy): NodeState {
    Reclassify(state, hb.activeConnections, max, policy)
  }

  /** One repository call, or nothing where it is not due. */
  function Next(w: World, step: Step, policy: HealthPolicy): Option<World> {
    match step
    case Register(req) => Some(w.(table := Upsert(w.table, req)))
    case SetDraining(id) => Some(w.(table := SetState(w.table, id, Draining)))
    case Adjust(id, delta) => Some(w.(table := AdjustActive(w.table, id, delta)))
    case Begin(task, work) =>
      if task !in w.tasks && (work.BeatStart? || work.SweepStart?) then Some(w.Put(task, work)) else None
    case BeatGet(task) =>
      if task in w.tasks && w.tasks[task].BeatStart? then
        var hb := w.tasks[task].hb;
        if hb.id !in w.table then Some(w.End(task))
        else Some(w.Put(task, BeatRead(hb, w.table[hb.id].state, w.table[hb.id].maxConnections)))
      else None
    case BeatApply(task, now) =>
      if task in w.tasks && w.tasks[task].BeatRead? then
        var BeatRead(hb, state, max) := w.tasks[task];
        var applied := w.(table := ApplyHeartbeat(w.table, hb, now));
        var next := Target(hb, state, max, policy);
        if next != state then Some(applied.Put(task, BeatApplied(hb, next))) else Some(applied.End(task))
      else None
    case BeatSet(task) =>
      if task in w.tasks && w.tasks[task].BeatApplied? then
        var BeatApplied(hb, next) := w.tasks[task];
        Some(w.(table := SetState(w.table, hb.id, next)).End(task))
      else None
    case SweepList(task) =>
      if task in w.tasks && w.tasks[task].SweepStart?
      then Some(w.Put(task, Sweeping(OverdueIds(w.table, w.tasks[task].now, policy)))) else None
    case SweepMark(task, id) =>
      if task in w.tasks && w.tasks[task].Sweeping? && id in w.tasks[task].pending
      then Some(w.(table := SetState(w.table, id, Offline)).Put(task, Sweeping(w.tasks[task].pending - {id})))
      else None
    case Abandon(task) =>
      if task in w.tasks then Some(w.End(task)) else None
  }

  function Exec(w: World, steps: seq<Step>, policy: HealthPolicy): Option<World> {
    if steps == [] then Some(w)
    else
      var before := Exec(w, steps[..|steps| - 1], policy);
      if before.None? then None else Next(before.value, steps[|steps| - 1], policy)
  }

  const EMPTY := World(map[], map[])

  // ----- nothing is selected unheard -----

  /** A heartbeat only ever writes one of the two states that make its node selectable. */
  ghost predicate Decided(w: World) {
    forall k :: k in w.tasks && w.tasks[k].BeatApplied? ==> w.tasks[k].next.Selectable()
  }

  /** Heartbeats under way found their row, and those that recorded their beat left it there. */
  ghost predicate Heard(w: World) {
    && Decided(w)
    && (forall id :: id in w.table && w.table[id].Selectable() ==> w.table[id].lastHeartbeat.Some?)
    && (forall k :: k in w.tasks && (w.tasks[k].BeatRead? || w.tasks[k].BeatApplied?) ==> w.tasks[k].hb.id in w.table)
    && (forall k :: k in w.tasks && w.tasks[k].BeatApplied? ==> w.table[w.tasks[k].hb.id].lastHeartbeat.Some?)
  }

  lemma StepKeepsHeard(w: World, step: Step, policy: HealthPolicy)
    requires Heard(w) && Next(w, step, policy).Some?
    ensures Heard(Next(w, step, policy).value)
  {
    hide Utilization;
  }

  /** In every reachable world a selectable node has had a beat recorded. */
  lemma SelectableMeansHeard(steps: seq<Step>, policy: HealthPolicy, id: string)
    requires Exec(EMPTY, steps, policy).Some?
    ensures var t := Exec(EMPTY, steps, policy).value.table;
            SelectableIn(t, id) ==> t[id].lastHeartbeat.Some?
    ensures Decided(Exec(EMPTY, steps, policy).value)
  {
    RunKeepsHeard(steps, policy);
  }

  lemma {:induction false} RunKeepsHeard(steps: seq<Step>, policy: HealthPolicy)
    requires Exec(EMPTY, steps, policy).Some?
    ensures Heard(Exec(EMPTY, steps, policy).value)
  {
    if steps != [] {
      var prefix := steps[..|steps| - 1];
      RunKeepsHeard(prefix, policy);
      StepKeepsHeard(Exec(EMPTY, prefix, policy).value, steps[|steps| - 1], policy);
    }
  }

  // ----- draining -----

  /** A heartbeat of the node is under way that will write a state other than the one it read. */
  ghost predicate OverwritePending(w: World, id: string, policy: HealthPolicy) {
    exists k :: k in w.tasks && WillOverwrite(w.tasks[k], id, policy)
  }

  predicate WillOverwrite(t: Task, id: string, policy: HealthPolicy) {
    match t
    case BeatRead(hb, state, max) => hb.id == id && Target(hb, state, max, policy) != state
    case BeatApplied(hb, _) => hb.id == id
    case _ => false
  }

  /** A sweep is under way that has yet to mark the node. */
  ghost predicate MarkPending(w: World, id: string) {
    exists k :: k in w.tasks && w.tasks[k].Sweeping? && id in w.tasks[k].pending
  }

  /** The run never registers the node while it is offline. */
  ghost predicate NoRevival(w: World, steps: seq<Step>, policy: HealthPolicy, id: string) {
    steps != [] ==>
      && NoRevival(w, steps[..|steps| - 1], policy, id)
      && var before := Exec(w, steps[..|steps| - 1], policy);
         var step := steps[|steps| - 1];
         before.Some? && step.Register? && step.req.id == id ==> !InState(before.value.table, id, Offline)
  }

  /** Out of service for good: drained or offline, with no heartbeat about to say otherwise. */
  ghost predicate Retired(w: World, id: string, policy: HealthPolicy) {
    && (InState(w.table, id, Draining) || InState(w.table, id, Offline))
    && !OverwritePending(w, id, policy)
  }

  lemma StepKeepsRetired(w: World, step: Step, policy: HealthPolicy, id: string)
    requires Retired(w, id, policy) && Next(w, step, policy).Some?
    requires step.Register? && step.req.id == id ==> !InState(w.table, id, Offline)
    ensures Retired(Next(w, step, policy).value, id, policy)
    ensures InState(w.table, id, Draining) && !MarkPending(w, id) ==>
              var v := Next(w, step, policy).value;
              InState(v.table, id, Draining) && !MarkPending(v, id)
  {
    hide Utilization;
    var v := Next(w, step, policy).value;
    forall k | k in v.tasks
      ensures !WillOverwrite(v.tasks[k], id, policy)
    {
      assert k in w.tasks ==> !WillOverwrite(w.tasks[k], id, policy);
    }
    if step.BeatSet? {
      assert !WillOverwrite(w.tasks[step.task], id, policy);
    }
  }

  /**
  Once a node is draining and no heartbeat is about to overwrite that, no interleaving makes it
  selectable again unless it is registered while offline; and with no sweep about to mark it, it
  stays draining.
  */
  lemma {:induction false} DrainIsStable(w: World, steps: seq<Step>, policy: HealthPolicy, id: string)
    requires Exec(w, steps, policy).Some?
    requires Retired(w, id, policy) && NoRevival(w, steps, policy, id)
    ensures Retired(Exec(w, steps, policy).value, id, policy)
    ensures !SelectableIn(Exec(w, steps, policy).value.table, id)
    ensures InState(w.table, id, Draining) && !MarkPending(w, id) ==>
              var v := Exec(w, steps, policy).value;
              InState(v.table, id, Draining) && !MarkPending(v, id)
  {
    if steps != [] {
      var prefix := steps[..|steps| - 1];
      DrainIsStable(w, prefix, policy, id);
      StepKeepsRetired(Exec(w, prefix, policy).value, steps[|steps| - 1], policy, id);
    }
  }

  /** An undisturbed drain needs no proviso about registrations at all. */
  lemma {:induction false} UndisturbedDrainIsForever(w: World, steps: seq<Step>, policy: HealthPolicy, id: string)
    requires Exec(w, steps, policy).Some?
    requires InState(w.table, id, Draining) && !OverwritePending(w, id, policy) && !MarkPending(w, id)
    ensures var v := Exec(w, steps, policy).value;
            InState(v.table, id, Draining) && !OverwritePending(v, id, policy) && !MarkPending(v, id)
  {
    if steps != [] {
      var prefix := steps[..|steps| - 1];
      UndisturbedDrainIsForever(w, prefix, policy, id);
      StepKeepsRetired(Exec(w, prefix, policy).value, steps[|steps| - 1], policy, id);
    }
  }

  lemma ExecAppend(w: World, steps: seq<Step>, step: Step, policy: HealthPolicy)
    requires Exec(w, steps, policy).Some?
    ensures Exec(w, steps + [step], policy) == Next(Exec(w, steps, policy).value, step, policy)
  {
    assert (steps + [step])[..|steps|] == steps;
  }

  lemma NoRevivalAppend(w: World, steps: seq<Step>, step: Step, policy: HealthPolicy, id: string)
    requires NoRevival(w, steps, policy, id) && !step.Register?
    ensures NoRevival(w, steps + [step], policy, id)
  {
    assert (steps + [step])[..|steps|] == steps;
  }

  /** A heartbeat that will write, one call from doing so. */
  predicate AboutToWrite(w: World, id: string, k: nat) {
    && id in w.table && k in w.tasks && w.tasks[k].BeatApplied?
    && w.tasks[k].hb.id == id && w.tasks[k].next.Selectable()
  }

  lemma OverwriteComesNearer(w: World, policy: HealthPolicy, id: string, k: nat)
    requires id in w.table && k in w.tasks && w.tasks[k].BeatRead? && WillOverwrite(w.tasks[k], id, policy)
    ensures var v := Next(w, BeatApply(k, 0.0), policy);
            v.Some? && AboutToWrite(v.value, id, k)
  {
    hide Utilization;
  }

  lemma OverwriteIsWritten(w: World, policy: HealthPolicy, id: string, k: nat)
    requires AboutToWrite(w, id, k)
    ensures var v := Next(w, BeatSet(k), policy);
            v.Some? && SelectableIn(v.value.table, id)
  {
  }

  /** The heartbeat that would overwrite a drain needs at most two calls to do so. */
  lemma OverwriteHappens(w: World, policy: HealthPolicy, id: string, k: nat) returns (steps: seq<Step>)
    requires Decided(w) && id in w.table && k in w.tasks && WillOverwrite(w.tasks[k], id, policy)
    ensures |steps| <= 2 && NoRevival(w, steps, policy, id) && Exec(w, steps, policy).Some?
    ensures SelectableIn(Exec(w, steps, policy).value.table, id)
  {
    steps := [];
    assert Exec(w, steps, policy) == Some(w) && NoRevival(w, steps, policy, id);
    hide Exec, Next, NoRevival;
    if w.tasks[k].BeatRead? {
      OverwriteComesNearer(w, policy, id, k);
      ExecAppend(w, steps, BeatApply(k, 0.0), policy);
      NoRevivalAppend(w, steps, BeatApply(k, 0.0), policy, id);
      steps := steps + [BeatApply(k, 0.0)];
    }
    OverwriteIsWritten(Exec(w, steps, policy).value, policy, id, k);
    ExecAppend(w, steps, BeatSet(k), policy);
    NoRevivalAppend(w, steps, BeatSet(k), policy, id);
    steps := steps + [BeatSet(k)];
  }

  /** The exact condition under which a drain can be lost without the node being registered anew. */
  lemma DrainCanBeLostIff(w: World, policy: HealthPolicy, id: string)
    requires Decided(w) && InState(w.table, id, Draining)
    ensures (exists steps :: && NoRevival(w, steps, policy, id) && Exec(w, steps, policy).Some?
                             && SelectableIn(Exec(w, steps, policy).value.table, id))
            <==> OverwritePending(w, id, policy)
  {
    if OverwritePending(w, id, policy) {
      var k :| k in w.tasks && WillOverwrite(w.tasks[k], id, policy);
      var steps := OverwriteHappens(w, policy, id, k);
    } else {
      forall steps | NoRevival(w, steps, policy, id) && Exec(w, steps, policy).Some?
        ensures !SelectableIn(Exec(w, steps, policy).value.table, id)
      {
        DrainIsStable(w, steps, policy, id);
      }
    }
  }

  /** And the condition does arise: a first heartbeat reads its row just before the drain. */
  lemma DrainIsLostInSomeRun(policy: HealthPolicy, id: string) returns (steps: seq<Step>)
    ensures Exec(EMPTY, steps, policy).Some?
    ensures InState(Exec(EMPTY, steps, policy).value.table, id, Draining)
    ensures OverwritePending(Exec(EMPTY, steps, policy).value, id, policy)
  {
    hide Utilization;
    var hb := Heartbeat(id, 0, 0);
    var r := Step.Register(RegisterRequest(id, "", 1, 1));
    assert Exec(EMPTY, [], policy) == Some(EMPTY);
    ExecAppend(EMPTY, [], r, policy);
    steps := [r];
    assert [] + [r] == steps;
    ExecAppend(EMPTY, steps, Begin(0, BeatStart(hb)), policy);
    steps := steps + [Begin(0, BeatStart(hb))];
    ExecAppend(EMPTY, steps, BeatGet(0), policy);
    steps := steps + [BeatGet(0)];
    ExecAppend(EMPTY, steps, SetDraining(id), policy);
    steps := steps + [SetDraining(id)];
    var w := Exec(EMPTY, steps, policy).value;
    assert 0 in w.tasks && w.tasks[0] == BeatRead(hb, Starting, 1);
    assert WillOverwrite(w.tasks[0], id, policy);
  }

  /** A drain can end at all only if a heartbeat is about to overwrite it or a sweep to mark the node. */
  lemma DrainCanEndIff(w: World, policy: HealthPolicy, id: string)
    requires Decided(w) && InState(w.table, id, Draining)
    ensures (exists steps :: Exec(w, steps, policy).Some? && !InState(Exec(w, steps, policy).value.table, id, Draining))
            <==> OverwritePending(w, id, policy) || MarkPending(w, id)
  {
    if OverwritePending(w, id, policy) {
      var k :| k in w.tasks && WillOverwrite(w.tasks[k], id, policy);
      var steps := OverwriteHappens(w, policy, id, k);
    } else if MarkPending(w, id) {
      var k :| k in w.tasks && w.tasks[k].Sweeping? && id in w.tasks[k].pending;
      assert Exec(w, [], policy) == Some(w);
      ExecAppend(w, [], SweepMark(k, id), policy);
      assert Exec(w, [] + [SweepMark(k, id)], policy).Some?;
    } else {
      forall steps | Exec(w, steps, policy).Some?
        ensures InState(Exec(w, steps, policy).value.table, id, Draining)
      {
        UndisturbedDrainIsForever(w, steps, policy, id);
      }
    }
  }

  /** Uninterrupted, the calls of a heartbeat add up to the atomic operation. */
  lemma UninterruptedBeatIsAtomic(w: World, policy: HealthPolicy, k: nat, hb: Heartbeat, now: real)
    returns (steps: seq<Step>)
    requires k !in w.tasks
    ensures Exec(w, steps, policy) == Some(World(BeatOnce(w.table, hb, now, policy), w.tasks))
  {
    hide Utilization;
    assert Exec(w, [], policy) == Some(w);
    steps := [Begin(k, BeatStart(hb))];
    ExecAppend(w, [], Begin(k, BeatStart(hb)), policy);
    assert [] + [Begin(k, BeatStart(hb))] == steps;
    ExecAppend(w, steps, BeatGet(k), policy);
    steps := steps + [BeatGet(k)];
    assert w.Put(k, BeatStart(hb)).End(k).tasks == w.tasks;
    if hb.id in w.table {
      var state, max := w.table[hb.id].state, w.table[hb.id].maxConnections;
      var v := Exec(w, steps, policy).value;
      assert v.table == w.table && v.tasks == w.tasks[k := BeatRead(hb, state, max)];
      ExecAppend(w, steps, BeatApply(k, now), policy);
      steps := steps + [BeatApply(k, now)];
      if Target(hb, state, max, policy) != state {
        ExecAppend(w, steps, BeatSet(k), policy);
        steps := steps + [BeatSet(k)];
      }
      assert Exec(w, steps, policy).value.tasks == w.tasks;
    }
  }

  // ----- sweeping -----

  /** The table with the given nodes marked. */
  function Offlined(t: Table, ids: set<string>): Table {
    map id | id in t :: if id in ids then t[id].(state := Offline) else t[id]
  }

  /** Every pending mark, one call each. */
  lemma {:induction false} MarkAll(w: World, policy: HealthPolicy, k: nat, ids: set<string>) returns (steps: seq<Step>)
    requires k in w.tasks && w.tasks[k] == Sweeping(ids)
    ensures Exec(w, steps, policy) == Some(World(Offlined(w.table, ids), w.tasks[k := Sweeping({})]))
    decreases |ids|
  {
    if ids == {} {
      steps := [];
      assert Offlined(w.table, {}) == w.table && w.tasks[k := Sweeping({})] == w.tasks;
    } else {
      var id :| id in ids;
      var v := Next(w, SweepMark(k, id), policy).value;
      var rest := MarkAll(v, policy, k, ids - {id});
      steps := [SweepMark(k, id)] + rest;
      ExecPrepend(w, SweepMark(k, id), rest, policy);
      assert Offlined(SetState(w.table, id, Offline), ids - {id}) == Offlined(w.table, ids);
      assert w.tasks[k := Sweeping(ids - {id})][k := Sweeping({})] == w.tasks[k := Sweeping({})];
    }
  }

  lemma {:induction false} ExecPrepend(w: World, step: Step, rest: seq<Step>, policy: HealthPolicy)
    requires Next(w, step, policy).Some?
    ensures Exec(w, [step] + rest, policy) == Exec(Next(w, step, policy).value, rest, policy)
  {
    hide Next;
    if rest == [] {
      assert [step] + rest == [step] && [step][..0] == [];
      assert Exec(w, [], policy) == Some(w);
    } else {
      var n := |rest| - 1;
      ExecPrepend(w, step, rest[..n], policy);
      assert ([step] + rest)[..n + 1] == [step] + rest[..n];
    }
  }

  /** Uninterrupted, the calls of a sweep add up to the atomic operation. */
  lemma UninterruptedSweepIsAtomic(w: World, policy: HealthPolicy, k: nat, now: real) returns (steps: seq<Step>)
    requires k !in w.tasks
    ensures Exec(w, steps, policy) == Some(World(SweepOnce(w.table, now, policy), w.tasks))
  {
    hide Overdue;
    var ids := OverdueIds(w.table, now, policy);
    var begun := w.Put(k, SweepStart(now));
    var listed := begun.Put(k, Sweeping(ids));
    assert Next(w, Begin(k, SweepStart(now)), policy) == Some(begun);
    assert Next(begun, SweepList(k), policy) == Some(listed);
    var marks := MarkAll(listed, policy, k, ids);
    assert Offlined(w.table, ids) == SweepOnce(w.table, now, policy);
    var done := Exec(listed, marks, policy).value;
    assert (w.tasks[k := SweepStart(now)][k := Sweeping(ids)][k := Sweeping({})]) - {k} == w.tasks;
    ExecAppend(listed, marks, Abandon(k), policy);
    hide Exec, Next;
    ExecPrepend(begun, SweepList(k), marks + [Abandon(k)], policy);
    ExecPrepend(w, Begin(k, SweepStart(now)), [SweepList(k)] + (marks + [Abandon(k)]), policy);
    steps := [Begin(k, SweepStart(now))] + ([SweepList(k)] + (marks + [Abandon(k)]));
  }

  /**
  The node has been heard no earlier than second `beat`, is not offline, and no sweep that has begun but
  not listed will find that beat stale.
  */
  ghost predicate HeardSince(w: World, policy: HealthPolicy, id: string, beat: int) {
    && Decided(w) && id in w.table && !w.table[id].state.Offline?
    && w.table[id].lastHeartbeat.Some? && w.table[id].lastHeartbeat.value >= beat
    && forall k :: k in w.tasks && w.tasks[k].SweepStart? ==> !IsStale(Some(beat), w.tasks[k].now, policy)
  }

  /** Beats are made no earlier than second `beat`, and sweeps begun before silence since then is stale. */
  ghost predicate Timely(steps: seq<Step>, policy: HealthPolicy, beat: int) {
    forall i :: 0 <= i < |steps| ==>
      && (steps[i].BeatApply? ==> steps[i].now.Floor >= beat)
      && (steps[i].Begin? && steps[i].work.SweepStart? ==> !IsStale(Some(beat), steps[i].work.now, policy))
  }

  lemma LaterIsFresher(policy: HealthPolicy, beat: int, later: int, now: real)
    requires beat <= later && !IsStale(Some(beat), now, policy)
    ensures !IsStale(Some(later), now, policy)
  {
  }

  lemma StepKeepsHeardSince(w: World, step: Step, policy: HealthPolicy, id: string, beat: int)
    requires HeardSince(w, policy, id, beat) && !MarkPending(w, id)
    requires Timely([step], policy, beat) && Next(w, step, policy).Some?
    ensures var v := Next(w, step, policy).value;
            HeardSince(v, policy, id, beat) && !MarkPending(v, id)
  {
    assert [step][0] == step;
    if step.SweepList? {
      LaterIsFresher(policy, beat, w.table[id].lastHeartbeat.value, w.tasks[step.task].now);
    }
    hide IsStale, Utilization;
    var v := Next(w, step, policy).value;
    forall k | k in v.tasks && v.tasks[k].Sweeping?
      ensures id !in v.tasks[k].pending
    {
      assert k in w.tasks && w.tasks[k].Sweeping? ==> id !in w.tasks[k].pending;
    }
  }

  lemma {:induction false} RunKeepsHeardSince(
    w: World, steps: seq<Step>, policy: HealthPolicy, id: string, beat: int)
    requires HeardSince(w, policy, id, beat) && !MarkPending(w, id)
    requires Timely(steps, policy, beat) && Exec(w, steps, policy).Some?
    ensures var v := Exec(w, steps, policy).value;
            HeardSince(v, policy, id, beat) && !MarkPending(v, id)
  {
    hide Next, HeardSince, MarkPending, IsStale;
    if steps != [] {
      var n := |steps| - 1;
      RunKeepsHeardSince(w, steps[..n], policy, id, beat);
      assert [steps[n]][0] == steps[n];
      StepKeepsHeardSince(Exec(w, steps[..n], policy).value, steps[n], policy, id, beat);
    }
  }

  /**
  The exact condition under which a node that has just been heard can be marked offline before it is
  silent for the timeout: a sweep that listed it earlier has yet to mark it.
  */
  lemma HeardCanBeMarkedIff(w: World, policy: HealthPolicy, id: string, beat: int)
    requires HeardSince(w, policy, id, beat)
    ensures (exists steps :: && Timely(steps, policy, beat) && Exec(w, steps, policy).Some?
                             && InState(Exec(w, steps, policy).value.table, id, Offline))
            <==> MarkPending(w, id)
  {
    if MarkPending(w, id) {
      var k :| k in w.tasks && w.tasks[k].Sweeping? && id in w.tasks[k].pending;
      assert Exec(w, [], policy) == Some(w);
      ExecAppend(w, [], SweepMark(k, id), policy);
      var steps := [] + [SweepMark(k, id)];
      assert Timely(steps, policy, beat);
      assert InState(Exec(w, steps, policy).value.table, id, Offline);
    } else {
      forall steps | Timely(steps, policy, beat) && Exec(w, steps, policy).Some?
        ensures !InState(Exec(w, steps, policy).value.table, id, Offline)
      {
        RunKeepsHeardSince(w, steps, policy, id, beat);
      }
    }
  }

  lemma {:induction false} ExecConcat(w: World, first: seq<Step>, second: seq<Step>, policy: HealthPolicy)
    requires Exec(w, first, policy).Some?
    ensures Exec(w, first + second, policy) == Exec(Exec(w, first, policy).value, second, policy)
  {
    hide Next;
    if second == [] {
      assert first + second == first;
    } else {
      var n := |second| - 1;
      ExecConcat(w, first, second[..n], policy);
      assert (first + second)[..|first| + n] == first + second[..n];
    }
  }

  function HeardAt(id: string, beat: int): Node {
    Node(id, "", Healthy, Some(beat), 1, 0, 1, 0)
  }

  lemma BeatsOf(id: string)
    ensures var new', hb := HeardAt(id, 0).(state := Starting, lastHeartbeat := None), Heartbeat(id, 0, 0);
            && BeatOnce(map[id := new'], hb, 0.0, DEFAULT_POLICY) == map[id := HeardAt(id, 0)]
            && BeatOnce(map[id := HeardAt(id, 0)], hb, 30.0, DEFAULT_POLICY) == map[id := HeardAt(id, 30)]
    ensures OverdueIds(map[id := HeardAt(id, 0)], 30.0, DEFAULT_POLICY) == {id}
  {
  }

  /** A node that was heard at the beginning and never since. */
  lemma SilentNode(id: string) returns (steps: seq<Step>)
    ensures Exec(EMPTY, steps, DEFAULT_POLICY) == Some(World(map[id := HeardAt(id, 0)], map[]))
  {
    var r := Step.Register(RegisterRequest(id, "", 1, 1));
    var w := World(map[id := HeardAt(id, 0).(state := Starting, lastHeartbeat := None)], map[]);
    assert Exec(EMPTY, [], DEFAULT_POLICY) == Some(EMPTY) && [] + [r] == [r];
    ExecAppend(EMPTY, [], r, DEFAULT_POLICY);
    assert Exec(EMPTY, [r], DEFAULT_POLICY) == Some(w);
    hide Exec, Next, BeatOnce;
    BeatsOf(id);
    var beat := UninterruptedBeatIsAtomic(w, DEFAULT_POLICY, 0, Heartbeat(id, 0, 0), 0.0);
    ExecConcat(EMPTY, [r], beat, DEFAULT_POLICY);
    steps := [r] + beat;
  }

  /** And it does arise: a sweep lists a silent node, and the node beats before it is marked. */
  lemma HeardIsMarkedInSomeRun(id: string) returns (steps: seq<Step>)
    ensures Exec(EMPTY, steps, DEFAULT_POLICY).Some?
    ensures var w := Exec(EMPTY, steps, DEFAULT_POLICY).value;
            HeardSince(w, DEFAULT_POLICY, id, 30) && MarkPending(w, id)
  {
    hide Exec, BeatOnce, OverdueIds;
    BeatsOf(id);
    var silent := SilentNode(id);
    var w := World(map[id := HeardAt(id, 0)], map[1 := Sweeping({id})]);
    ExecAppend(EMPTY, silent, Begin(1, SweepStart(30.0)), DEFAULT_POLICY);
    ExecAppend(EMPTY, silent + [Begin(1, SweepStart(30.0))], SweepList(1), DEFAULT_POLICY);
    var listed := silent + [Begin(1, SweepStart(30.0))] + [SweepList(1)];
    assert map[][1 := SweepStart(30.0)][1 := Sweeping({id})] == w.tasks;
    assert Exec(EMPTY, listed, DEFAULT_POLICY) == Some(w);
    hide Next;
    var again := UninterruptedBeatIsAtomic(w, DEFAULT_POLICY, 2, Heartbeat(id, 0, 0), 30.0);
    ExecConcat(EMPTY, listed, again, DEFAULT_POLICY);
    steps := listed + again;
    assert 1 in w.tasks && w.tasks[1].Sweeping? && id in w.tasks[1].pending;
  }

  // ----- the atomic runs are among the interleaved ones -----

  lemma EventIsSteps(t: Table, e: Event, policy: HealthPolicy) returns (steps: seq<Step>)
    ensures Exec(World(t, map[]), steps, policy) == Some(World(Apply(t, e, policy), map[]))
  {
    var w := World(t, map[]);
    assert Exec(w, [], policy) == Some(w);
    hide Exec, BeatOnce, SweepOnce;
    match e.op {
      case Register(req) =>
        steps := [] + [Step.Register(req)];
        ExecAppend(w, [], Step.Register(req), policy);
      case Beat(hb) => steps := UninterruptedBeatIsAtomic(w, policy, 0, hb, e.at);
      case Drain(id) =>
        steps := [] + [SetDraining(id)];
        ExecAppend(w, [], SetDraining(id), policy);
      case Adjust(id, delta) =>
        steps := [] + [Step.Adjust(id, delta)];
        ExecAppend(w, [], Step.Adjust(id, delta), policy);
      case Sweep => steps := UninterruptedSweepIsAtomic(w, policy, 0, e.at);
    }
  }

  /** Every run of whole operations is a run of their calls: interleaving only adds runs. */
  lemma {:induction false} AtomicRunsEmbed(events: seq<Event>, policy: HealthPolicy) returns (steps: seq<Step>)
    ensures Exec(EMPTY, steps, policy) == Some(World(Run(map[], events, policy), map[]))
  {
    if events == [] {
      steps := [];
    } else {
      hide Exec, Next, Apply;
      var n := |events| - 1;
      var first := AtomicRunsEmbed(events[..n], policy);
      var rest := EventIsSteps(Run(map[], events[..n], policy), events[n], policy);
      ExecConcat(EMPTY, first, rest, policy);
      steps := first + rest;
    }
  }

  /** Operations can break off between two calls: all that are under way may come to nothing more. */
  lemma {:induction false} AllCanBreakOff(w: World, policy: HealthPolicy) returns (steps: seq<Step>)
    ensures Exec(w, steps, policy) == Some(World(w.table, map[]))
    decreases |w.tasks|
  {
    if k :| k in w.tasks {
      assert w.tasks.Keys == (w.tasks - {k}).Keys + {k};
      assert Next(w, Abandon(k), policy) == Some(w.End(k));
      hide Next, Exec;
      var rest := AllCanBreakOff(w.End(k), policy);
      ExecPrepend(w, Abandon(k), rest, policy);
      steps := [Abandon(k)] + rest;
    } else {
      steps := [];
      assert w.tasks == map[];
    }
  }
}
