/**
Connection slots of a server over all interleavings of its tasks: the semaphore, the count of active
connections that the node reports and drains by, and the semaphore handles that the gateway drains by.
*/
module Connections {
  import opened Prelude
  import opened Nodes

  /** The life of one accepted connection's task. */
  datatype Phase =
    | Waiting    // spawned, wants a permit
    | Permitted  // holds a permit, has not looked at the shutdown flag
    | Cleared    // saw no shutdown, has not been counted yet
    | Serving    // counted, the handler runs
    | Served     // the handler has returned, still counted
    | Leaving    // no longer counted, still holds the permit
    | Released   // permit returned, still holds its semaphore handle
    | Finished
  {
    predicate Counted() {
      Serving? || Served?
    }

    predicate Holding() {
      Permitted? || Cleared? || Serving? || Served? || Leaving?
    }
  }

  /**
  `active` and `handles` are the modification orders of two atomic counters, every value each has held
  with the present one last: the 32-bit count of connections and the count of semaphore handles.  Both
  are loaded relaxed, so a load may answer with any entry not older than its task has seen: `looked`
  for the node's drain loop, `reported` for its heartbeats, `held` for the loop that accepts and
  then drains at the gateway, which sees its own increments.
  */
  datatype Server = Server(
    max: nat, permits: nat, cancelled: bool, accepting: bool, left: bool, tasks: seq<Phase>,
    active: seq<u32>, looked: nat, reported: nat, handles: seq<nat>, held: nat)

  function Start(max: nat): Server {
    Server(max, max, false, true, false, [], [0], 0, 0, [1], 0)
  }

  datatype Step =
    | Accept
    | Cancel
    | StopAccepting
    | Acquire(i: nat)
    | Check(i: nat)
    | Begin(i: nat)
    | Return(i: nat)
    | Uncount(i: nat)
    | ReturnPermit(i: nat)
    | DropHandle(i: nat)
    | Report(index: nat)        // a heartbeat loads the count of connections
    | Look(index: nat)          // the node's drain loop loads it, and leaves on zero
    | CountHandles(index: nat)  // the gateway's loads the count of handles, and leaves on its own alone
  {
    predicate OfTask() {
      Acquire? || Check? || Begin? || Return? || Uncount? || ReturnPermit? || DropHandle?
    }
  }

  function Last<T>(s: seq<T>): T
    requires s != []
  {
    s[|s| - 1]
  }

  /** 32-bit increment and decrement. */
  function Inc(n: u32): u32 {
    if n == U32_MAX then 0 else n + 1
  }

  function Dec(n: u32): u32 {
    if n == 0 then U32_MAX else n - 1
  }

  predicate At(s: Server, i: nat, phase: Phase) {
    i < |s.tasks| && s.tasks[i] == phase
  }

  function Move(s: Server, i: nat, phase: Phase): Server
    requires i < |s.tasks|
  {
    s.(tasks := s.tasks[i := phase])
  }

  function TaskNext(s: Server, step: Step): Option<Server>
    requires s.active != [] && s.handles != []
  {
    match step
    case Acquire(i) =>
      if At(s, i, Waiting) && s.permits > 0 then Some(Move(s.(permits := s.permits - 1), i, Permitted)) else None
    case Check(i) =>
      if At(s, i, Permitted) then Some(Move(s, i, if s.cancelled then Leaving else Cleared)) else None
    case Begin(i) =>
      if At(s, i, Cleared) then Some(Move(s.(active := s.active + [Inc(Last(s.active))]), i, Serving)) else None
    case Return(i) => if At(s, i, Serving) then Some(Move(s, i, Served)) else None
    case Uncount(i) =>
      if At(s, i, Served) then Some(Move(s.(active := s.active + [Dec(Last(s.active))]), i, Leaving)) else None
    case ReturnPermit(i) =>
      if At(s, i, Leaving) then Some(Move(s.(permits := s.permits + 1), i, Released)) else None
    case DropHandle(i) =>
      if At(s, i, Released) && Last(s.handles) > 0
      then Some(Move(s.(handles := s.handles + [Last(s.handles) - 1]), i, Finished)) else None
    case _ => None
  }

  function ServerNext(s: Server, step: Step): Option<Server>
    requires s.active != [] && s.handles != []
  {
    match step
    case Accept =>
      if s.accepting
      then Some(s.(handles := s.handles + [Last(s.handles) + 1], held := |s.handles|, tasks := s.tasks + [Waiting]))
      else None
    case Cancel => Some(s.(cancelled := true))
    case StopAccepting => if s.cancelled then Some(s.(accepting := false)) else None
    case Report(index) => if s.reported <= index < |s.active| then Some(s.(reported := index)) else None
    case Look(index) =>
      if !s.accepting && !s.left && s.looked <= index < |s.active|
      then Some(s.(looked := index, left := s.active[index] == 0)) else None
    case CountHandles(index) =>
      if !s.accepting && !s.left && s.held <= index < |s.handles|
      then Some(s.(held := index, left := s.handles[index] <= 1)) else None
    case _ => None
  }

  function Next(s: Server, step: Step): Option<Server> {
    if s.active == [] || s.handles == [] then None
    else if step.OfTask() then TaskNext(s, step)
    else ServerNext(s, step)
  }

  function Exec(s: Server, steps: seq<Step>): Option<Server> {
    if steps == [] then Some(s)
    else
      var before := Exec(s, steps[..|steps| - 1]);
      if before.None? then None else Next(before.value, steps[|steps| - 1])
  }

  // ----- counting tasks -----

  function Count(tasks: seq<Phase>, p: Phase -> bool): nat {
    if tasks == [] then 0
    else Count(tasks[..|tasks| - 1], p) + if p(tasks[|tasks| - 1]) then 1 else 0
  }

  lemma {:induction false} CountMove(tasks: seq<Phase>, i: nat, phase: Phase, p: Phase -> bool)
    requires i < |tasks|
    ensures Count(tasks[i := phase], p)
            == Count(tasks, p) - (if p(tasks[i]) then 1 else 0) + (if p(phase) then 1 else 0)
  {
    var n := |tasks| - 1;
    if i < n {
      CountMove(tasks[..n], i, phase, p);
      assert tasks[i := phase][..n] == tasks[..n][i := phase];
    } else {
      assert tasks[i := phase][..n] == tasks[..n];
    }
  }

  lemma {:induction false} CountZero(tasks: seq<Phase>, p: Phase -> bool)
    ensures Count(tasks, p) == 0 <==> forall i :: 0 <= i < |tasks| ==> !p(tasks[i])
  {
    if tasks != [] {
      CountZero(tasks[..|tasks| - 1], p);
    }
  }

  lemma {:induction false} CountWithin(tasks: seq<Phase>, p: Phase -> bool, q: Phase -> bool)
    requires forall x :: p(x) ==> q(x)
    ensures Count(tasks, p) <= Count(tasks, q)
  {
    if tasks != [] {
      CountWithin(tasks[..|tasks| - 1], p, q);
    }
  }

  const IS_COUNTED: Phase -> bool := (x: Phase) => x.Counted()
  const IS_HOLDING: Phase -> bool := (x: Phase) => x.Holding()
  const IS_ALIVE: Phase -> bool := (x: Phase) => x != Finished

  /** What 32 bits keep of a count. */
  function Low32(n: nat): u32 {
    n % 0x1_0000_0000
  }

  lemma Wraps(n: nat)
    ensures Inc(Low32(n)) == Low32(n + 1) && Dec(Low32(n + 1)) == Low32(n)
    ensures Low32(n) <= n && (n <= U32_MAX ==> Low32(n) == n)
  {
  }

  ghost predicate Inv(s: Server) {
    && s.permits + Count(s.tasks, IS_HOLDING) == s.max
    && (!s.accepting ==> s.cancelled)
    && ActiveInv(s) && HandlesInv(s)
  }

  ghost predicate ActiveInv(s: Server) {
    && s.active != [] && s.active[0] == 0 && s.looked < |s.active| && s.reported < |s.active|
    && Last(s.active) == Low32(Count(s.tasks, IS_COUNTED))
    && (forall i :: 0 <= i < |s.active| ==> s.active[i] <= s.max)
  }

  /** The accepting loop has seen all increments, so from there on the count of handles only falls. */
  ghost predicate HandlesInv(s: Server) {
    && s.handles != [] && s.held < |s.handles|
    && Last(s.handles) == 1 + Count(s.tasks, IS_ALIVE)
    && (forall i, j :: s.held <= i <= j < |s.handles| ==> s.handles[j] <= s.handles[i])
  }

  function One(b: bool): nat {
    if b then 1 else 0
  }

  lemma MoveCounts(s: Server, i: nat, phase: Phase)
    requires i < |s.tasks|
    ensures var t := Move(s, i, phase).tasks;
            var x := s.tasks[i];
            && Count(t, IS_COUNTED) == Count(s.tasks, IS_COUNTED) - One(x.Counted()) + One(phase.Counted())
            && Count(t, IS_HOLDING) == Count(s.tasks, IS_HOLDING) - One(x.Holding()) + One(phase.Holding())
            && Count(t, IS_ALIVE) == Count(s.tasks, IS_ALIVE) - One(x != Finished) + One(phase != Finished)
  {
    CountMove(s.tasks, i, phase, IS_COUNTED);
    CountMove(s.tasks, i, phase, IS_HOLDING);
    CountMove(s.tasks, i, phase, IS_ALIVE);
  }

  lemma TaskKeepsInv(s: Server, step: Step)
    requires Inv(s) && step.OfTask() && Next(s, step).Some?
    ensures Inv(Next(s, step).value) && Next(s, step).value.max == s.max
  {
    hide Count, Low32, Inc, Dec;
    var v := Next(s, step).value;
    MoveCounts(s, step.i, v.tasks[step.i]);
    CountWithin(v.tasks, IS_COUNTED, IS_HOLDING);
    assert v.tasks == s.tasks[step.i := v.tasks[step.i]];
    if step.Begin? {
      Wraps(Count(s.tasks, IS_COUNTED));
    }
    Wraps(Count(v.tasks, IS_COUNTED));
  }

  lemma ServerKeepsInv(s: Server, step: Step)
    requires Inv(s) && !step.OfTask() && Next(s, step).Some?
    ensures Inv(Next(s, step).value) && Next(s, step).value.max == s.max
  {
    hide Count;
    if step.Accept? {
      AcceptCounts(s.tasks);
    }
  }

  lemma StepKeepsInv(s: Server, step: Step)
    requires Inv(s) && Next(s, step).Some?
    ensures Inv(Next(s, step).value) && Next(s, step).value.max == s.max
  {
    hide *;
    if step.OfTask() {
      TaskKeepsInv(s, step);
    } else {
      ServerKeepsInv(s, step);
    }
  }

  lemma AcceptCounts(tasks: seq<Phase>)
    ensures Count(tasks + [Waiting], IS_COUNTED) == Count(tasks, IS_COUNTED)
    ensures Count(tasks + [Waiting], IS_HOLDING) == Count(tasks, IS_HOLDING)
    ensures Count(tasks + [Waiting], IS_ALIVE) == Count(tasks, IS_ALIVE) + 1
  {
    assert (tasks + [Waiting])[..|tasks|] == tasks;
  }

  lemma {:induction false} ExecKeepsInv(s: Server, steps: seq<Step>)
    requires Inv(s) && Exec(s, steps).Some?
    ensures Inv(Exec(s, steps).value) && Exec(s, steps).value.max == s.max
  {
    hide Inv, Next;
    if steps != [] {
      var prefix := steps[..|steps| - 1];
      ExecKeepsInv(s, prefix);
      StepKeepsInv(Exec(s, prefix).value, steps[|steps| - 1]);
    }
  }

  lemma RunKeepsInv(max: nat, steps: seq<Step>)
    requires Exec(Start(max), steps).Some?
    ensures Inv(Exec(Start(max), steps).value) && Exec(Start(max), steps).value.max == max
  {
    ExecKeepsInv(Start(max), steps);
  }

  /**
  In every interleaving the counter is the number of tasks being served, as far as 32 bits go, and within
  the configured ceiling; so are the permits out.
  */
  lemma LoadIsExact(max: nat, steps: seq<Step>)
    requires Exec(Start(max), steps).Some?
    ensures var s := Exec(Start(max), steps).value;
            && Count(s.tasks, IS_COUNTED) <= Count(s.tasks, IS_HOLDING) <= max
            && s.active != [] && Last(s.active) <= max
            && Last(s.active) == Count(s.tasks, IS_COUNTED) % 0x1_0000_0000
            && (max <= U32_MAX ==> Last(s.active) == Count(s.tasks, IS_COUNTED))
  {
    hide Count, Exec;
    RunKeepsInv(max, steps);
    Wraps(Count(Exec(Start(max), steps).value.tasks, IS_COUNTED));
    CountWithin(Exec(Start(max), steps).value.tasks, IS_COUNTED, IS_HOLDING);
  }

  /** Every value of the count was the number of tasks being served when it was the newest. */
  lemma {:induction false} LoadWasExact(max: nat, steps: seq<Step>, i: nat) returns (k: nat)
    requires Exec(Start(max), steps).Some? && i < |Exec(Start(max), steps).value.active|
    ensures k <= |steps| && Exec(Start(max), steps[..k]).Some?
    ensures var then' := Exec(Start(max), steps[..k]).value;
            && |then'.active| == i + 1
            && Exec(Start(max), steps).value.active[i] == Low32(Count(then'.tasks, IS_COUNTED))
  {
    assert steps[..|steps|] == steps;
    RunKeepsInv(max, steps);
    var s := Exec(Start(max), steps).value;
    if i == |s.active| - 1 {
      k := |steps|;
    } else {
      var prefix := steps[..|steps| - 1];
      ActiveGrows(Exec(Start(max), prefix).value, steps[|steps| - 1]);
      RunKeepsInv(max, prefix);
      k := LoadWasExact(max, prefix, i);
      assert prefix[..k] == steps[..k];
    }
  }

  lemma ActiveGrows(s: Server, step: Step)
    requires Next(s, step).Some?
    ensures s.active <= Next(s, step).value.active && |Next(s, step).value.active| <= |s.active| + 1
  {
  }

  /**
  What a heartbeat reports is within the ceiling, and it was the number of tasks being served at some
  point of the run, one at which the count was no older than at the report before.
  */
  lemma ReportedLoadWasExact(max: nat, steps: seq<Step>, index: nat) returns (k: nat)
    requires Exec(Start(max), steps).Some? && Next(Exec(Start(max), steps).value, Report(index)).Some?
    ensures var s := Exec(Start(max), steps).value;
            && s.active[index] <= max
            && k <= |steps| && Exec(Start(max), steps[..k]).Some?
            && var then' := Exec(Start(max), steps[..k]).value;
               && s.reported < |then'.active|
               && s.active[index] == Count(then'.tasks, IS_COUNTED) % 0x1_0000_0000
               && (max <= U32_MAX ==> s.active[index] == Count(then'.tasks, IS_COUNTED))
  {
    hide Count, Exec;
    RunKeepsInv(max, steps);
    k := LoadWasExact(max, steps, index);
    LoadIsExact(max, steps[..k]);
  }

  // ----- leaving the drain loop -----

  /** A load on which the node's drain loop leaves. */
  predicate NodeLeaves(s: Server, index: nat) {
    Next(s, Look(index)).Some? && Next(s, Look(index)).value.left
  }

  /** A load on which the gateway's drain loop leaves. */
  predicate GatewayLeaves(s: Server, index: nat) {
    Next(s, CountHandles(index)).Some? && Next(s, CountHandles(index)).value.left
  }

  ghost predicate AllFinished(s: Server) {
    forall i :: 0 <= i < |s.tasks| ==> s.tasks[i].Finished?
  }

  lemma {:induction false} FinishedForGood(s: Server, steps: seq<Step>)
    requires !s.accepting && AllFinished(s) && Exec(s, steps).Some?
    ensures !Exec(s, steps).value.accepting && Exec(s, steps).value.tasks == s.tasks
  {
    hide Next, AllFinished;
    if steps != [] {
      var prefix := steps[..|steps| - 1];
      FinishedForGood(s, prefix);
      SameTasks(s, Exec(s, prefix).value);
      FinishedOneStep(Exec(s, prefix).value, steps[|steps| - 1]);
    }
  }

  lemma FinishedOneStep(s: Server, step: Step)
    requires !s.accepting && AllFinished(s) && Next(s, step).Some?
    ensures !Next(s, step).value.accepting && Next(s, step).value.tasks == s.tasks
  {
  }

  /**
  However stale the load, when the gateway's drain loop leaves, every task has finished, and none will
  ever start.
  */
  lemma GatewayDrainIsComplete(max: nat, steps: seq<Step>, index: nat, more: seq<Step>)
    requires Exec(Start(max), steps).Some? && GatewayLeaves(Exec(Start(max), steps).value, index)
    requires Exec(Next(Exec(Start(max), steps).value, CountHandles(index)).value, more).Some?
    ensures AllFinished(Exec(Start(max), steps).value)
    ensures AllFinished(Exec(Next(Exec(Start(max), steps).value, CountHandles(index)).value, more).value)
  {
    RunKeepsInv(max, steps);
    var s := Exec(Start(max), steps).value;
    assert Last(s.handles) <= s.handles[index];
    CountZero(s.tasks, IS_ALIVE);
    FinishedForGood(Next(s, CountHandles(index)).value, more);
  }

  ghost predicate AnyAt(s: Server, phase: Phase) {
    exists i :: 0 <= i < |s.tasks| && s.tasks[i] == phase
  }

  /** Some handler is running, or will be in some continuation of the run. */
  ghost predicate MayServe(s: Server) {
    exists more :: Exec(s, more).Some? && AnyAt(Exec(s, more).value, Serving)
  }

  lemma NoneServesOneStep(s: Server, step: Step)
    requires s.cancelled && !s.accepting && !AnyAt(s, Cleared) && !AnyAt(s, Serving) && Next(s, step).Some?
    ensures var v := Next(s, step).value;
            v.cancelled && !v.accepting && !AnyAt(v, Cleared) && !AnyAt(v, Serving)
  {
    var v := Next(s, step).value;
    assert |v.tasks| == |s.tasks|;
    forall i | 0 <= i < |v.tasks|
      ensures !v.tasks[i].Cleared? && !v.tasks[i].Serving?
    {
      assert !s.tasks[i].Cleared? && !s.tasks[i].Serving?;
    }
  }

  lemma {:induction false} NoneServes(s: Server, steps: seq<Step>)
    requires s.cancelled && !s.accepting && !AnyAt(s, Cleared) && !AnyAt(s, Serving) && Exec(s, steps).Some?
    ensures var v := Exec(s, steps).value;
            v.cancelled && !v.accepting && !AnyAt(v, Cleared) && !AnyAt(v, Serving)
  {
    hide Next, AnyAt;
    if steps != [] {
      NoneServes(s, steps[..|steps| - 1]);
      NoneServesOneStep(Exec(s, steps[..|steps| - 1]).value, steps[|steps| - 1]);
    }
  }

  lemma ClearedMayServe(s: Server, i: nat)
    requires s.active != [] && s.handles != [] && i < |s.tasks| && s.tasks[i] == Cleared
    ensures MayServe(s)
  {
    assert Exec(s, []) == Some(s);
    ExecAppend(s, [], Begin(i));
    hide Exec;
    var v := Exec(s, [] + [Begin(i)]).value;
    assert v.tasks[i] == Serving;
    assert AnyAt(v, Serving);
  }

  lemma ServingServes(s: Server)
    requires AnyAt(s, Serving)
    ensures MayServe(s)
  {
    hide AnyAt;
    assert Exec(s, []) == Some(s);
    assert AnyAt(Exec(s, []).value, Serving);
  }

  /** After the shutdown a handler runs or may still start exactly when a task is serving or cleared to. */
  lemma MayServeIff(s: Server)
    requires s.cancelled && !s.accepting && s.active != [] && s.handles != []
    ensures MayServe(s) <==> AnyAt(s, Cleared) || AnyAt(s, Serving)
  {
    hide Exec, Next;
    if AnyAt(s, Serving) {
      ServingServes(s);
    } else if i :| 0 <= i < |s.tasks| && s.tasks[i] == Cleared {
      ClearedMayServe(s, i);
    } else {
      forall more | Exec(s, more).Some?
        ensures !AnyAt(Exec(s, more).value, Serving)
      {
        NoneServes(s, more);
      }
    }
  }

  /** A zero among the values the node's drain loop may still be answered with. */
  ghost predicate ZeroUnseen(s: Server) {
    exists i :: s.looked <= i < |s.active| && s.active[i] == 0
  }

  /**
  The node's drain loop may leave with a handler running or still to start exactly when the count
  stood at zero at some point not older than the loop has seen and a task is serving or cleared to
  serve.  Before the first look that point is there from the beginning.
  */
  lemma NodeDrainMissesIff(max: nat, steps: seq<Step>)
    requires Exec(Start(max), steps).Some?
    requires !Exec(Start(max), steps).value.accepting && !Exec(Start(max), steps).value.left
    ensures var s := Exec(Start(max), steps).value;
            && ((exists index :: NodeLeaves(s, index) && MayServe(Next(s, Look(index)).value))
                <==> ZeroUnseen(s) && (AnyAt(s, Cleared) || AnyAt(s, Serving)))
            && (s.looked == 0 ==> ZeroUnseen(s))
  {
    RunKeepsInv(max, steps);
    var s := Exec(Start(max), steps).value;
    hide Count, Exec, MayServe, AnyAt;
    forall index | NodeLeaves(s, index)
      ensures MayServe(Next(s, Look(index)).value) <==> AnyAt(s, Cleared) || AnyAt(s, Serving)
    {
      var v := Next(s, Look(index)).value;
      SameTasks(s, v);
      MayServeIff(v);
    }
    if i :| s.looked <= i < |s.active| && s.active[i] == 0 {
      assert NodeLeaves(s, i);
    }
  }

  lemma ZeroMeansNone(s: Server)
    requires Inv(s) && s.max <= U32_MAX && Last(s.active) == 0
    ensures !AnyAt(s, Serving) && !AnyAt(s, Served)
  {
    CountZero(s.tasks, IS_COUNTED);
    CountedFits(s);
  }

  /** If the load is fresh, no handler is running then, but one may still start if a task was cleared to. */
  lemma FreshLookMissesIff(max: nat, steps: seq<Step>)
    requires max <= U32_MAX && Exec(Start(max), steps).Some?
    requires var s := Exec(Start(max), steps).value; s.active != [] && NodeLeaves(s, |s.active| - 1)
    ensures var s := Exec(Start(max), steps).value;
            && !AnyAt(s, Serving) && !AnyAt(s, Served)
            && (MayServe(Next(s, Look(|s.active| - 1)).value) <==> AnyAt(s, Cleared))
  {
    hide *;
    RunKeepsInv(max, steps);
    FreshLook(Exec(Start(max), steps).value);
  }

  lemma FreshLook(s: Server)
    requires Inv(s) && s.max <= U32_MAX && s.active != [] && NodeLeaves(s, |s.active| - 1)
    ensures !AnyAt(s, Serving) && !AnyAt(s, Served)
    ensures MayServe(Next(s, Look(|s.active| - 1)).value) <==> AnyAt(s, Cleared)
  {
    hide Count, MayServe, AnyAt, IS_COUNTED, IS_HOLDING, IS_ALIVE;
    var v := Next(s, Look(|s.active| - 1)).value;
    assert v == s.(looked := |s.active| - 1, left := true);
    hide Next;
    ZeroMeansNone(s);
    SameTasks(s, v);
    MayServeIff(v);
  }

  lemma SameTasks(s: Server, v: Server)
    requires v.tasks == s.tasks
    ensures forall phase :: AnyAt(v, phase) <==> AnyAt(s, phase)
    ensures AllFinished(v) <==> AllFinished(s)
  {
  }

  lemma ExecAppend(s: Server, steps: seq<Step>, step: Step)
    requires Exec(s, steps).Some?
    ensures Exec(s, steps + [step]) == Next(Exec(s, steps).value, step)
  {
    assert (steps + [step])[..|steps|] == steps;
  }

  lemma FirstAccepted()
    ensures Next(Start(1), Accept) == Some(Server(1, 1, false, true, false, [Waiting], [0], 0, 0, [1, 2], 1))
  {
    assert [] + [Waiting] == [Waiting] && [1] + [2] == [1, 2];
  }

  lemma FirstMoves(s: Server, step: Step, phase: Phase)
    requires |s.tasks| == 1 && s.active != [] && s.handles != [] && !s.cancelled
    requires || (s.tasks[0] == Waiting && s.permits == 1 && step == Acquire(0) && phase == Permitted)
             || (s.tasks[0] == Permitted && s.permits == 0 && step == Check(0) && phase == Cleared)
    ensures Next(s, step) == Some(s.(permits := 0, tasks := [phase]))
  {
    assert s.tasks[0 := phase] == [phase];
  }

  /** One connection is accepted, gets its permit and sees no shutdown. */
  lemma OneCleared() returns (steps: seq<Step>)
    ensures Exec(Start(1), steps) == Some(Server(1, 0, false, true, false, [Cleared], [0], 0, 0, [1, 2], 1))
  {
    var s0 := Start(1);
    var s1 := Server(1, 1, false, true, false, [Waiting], [0], 0, 0, [1, 2], 1);
    assert Exec(s0, []) == Some(s0) && [] + [Accept] == [Accept];
    hide Exec, Next;
    FirstAccepted();
    ExecAppend(s0, [], Accept);
    FirstMoves(s1, Acquire(0), Permitted);
    ExecAppend(s0, [Accept], Acquire(0));
    FirstMoves(s1.(permits := 0, tasks := [Permitted]), Check(0), Cleared);
    ExecAppend(s0, [Accept] + [Acquire(0)], Check(0));
    steps := [Accept] + [Acquire(0)] + [Check(0)];
  }

  /** It happens with fresh loads: shutdown falls between a task's look at the flag and its being counted. */
  lemma NodeDrainMissesSome() returns (steps: seq<Step>)
    ensures Exec(Start(1), steps).Some?
    ensures var s := Exec(Start(1), steps).value;
            s.active == [0] && NodeLeaves(s, 0) && AnyAt(s, Cleared)
  {
    steps := OneCleared();
    hide Exec;
    ExecAppend(Start(1), steps, Cancel);
    steps := steps + [Cancel];
    ExecAppend(Start(1), steps, StopAccepting);
    steps := steps + [StopAccepting];
    assert Exec(Start(1), steps).value.tasks[0] == Cleared;
  }

  /** And with stale ones while a handler runs: the loop has not looked yet and misses the increment. */
  lemma StaleLookMissesServing() returns (steps: seq<Step>)
    ensures Exec(Start(1), steps).Some?
    ensures var s := Exec(Start(1), steps).value;
            s.active == [0, 1] && NodeLeaves(s, 0) && !NodeLeaves(s, 1) && AnyAt(s, Serving) && !AnyAt(s, Cleared)
  {
    steps := OneCleared();
    hide Exec;
    ExecAppend(Start(1), steps, Begin(0));
    steps := steps + [Begin(0)];
    ExecAppend(Start(1), steps, Cancel);
    steps := steps + [Cancel];
    ExecAppend(Start(1), steps, StopAccepting);
    steps := steps + [StopAccepting];
    assert Exec(Start(1), steps).value.tasks[0] == Serving;
  }

  // ----- progress -----

  /** Upper bound on the steps a task has left. */
  function Rank(p: Phase): nat {
    match p
    case Waiting => 7
    case Permitted => 6
    case Cleared => 5
    case Serving => 4
    case Served => 3
    case Leaving => 2
    case Released => 1
    case Finished => 0
  }

  function Work(tasks: seq<Phase>): nat {
    if tasks == [] then 0 else Work(tasks[..|tasks| - 1]) + Rank(tasks[|tasks| - 1])
  }

  lemma {:induction false} WorkMove(tasks: seq<Phase>, i: nat, phase: Phase)
    requires i < |tasks|
    ensures Work(tasks[i := phase]) == Work(tasks) - Rank(tasks[i]) + Rank(phase)
  {
    var n := |tasks| - 1;
    if i < n {
      WorkMove(tasks[..n], i, phase);
      assert tasks[i := phase][..n] == tasks[..n][i := phase];
    } else {
      assert tasks[i := phase][..n] == tasks[..n];
    }
  }

  /** The step a task in this phase takes next. */
  function StepFor(p: Phase, i: nat): Step
    requires p != Finished
  {
    match p
    case Waiting => Acquire(i)
    case Permitted => Check(i)
    case Cleared => Begin(i)
    case Serving => Return(i)
    case Served => Uncount(i)
    case Leaving => ReturnPermit(i)
    case Released => DropHandle(i)
  }

  function After(p: Phase, cancelled: bool): Phase {
    match p
    case Waiting => Permitted
    case Permitted => if cancelled then Leaving else Cleared
    case Cleared => Serving
    case Serving => Served
    case Served => Leaving
    case Leaving => Released
    case Released => Finished
    case Finished => Finished
  }

  /** Nothing but tasks, permits and the two counters differs. */
  predicate OnlyTasks(s: Server, v: Server) {
    v == s.(permits := v.permits, tasks := v.tasks, active := v.active, handles := v.handles)
  }

  /** A task that has not finished can always take its next step, unless it waits for a permit. */
  lemma TaskCanStep(s: Server, i: nat)
    requires Inv(s) && i < |s.tasks| && s.tasks[i] != Finished && (s.tasks[i] == Waiting ==> s.permits > 0)
    ensures var n := Next(s, StepFor(s.tasks[i], i));
            && n.Some? && Inv(n.value) && OnlyTasks(s, n.value)
            && n.value.tasks == s.tasks[i := After(s.tasks[i], s.cancelled)]
            && Work(n.value.tasks) < Work(s.tasks)
  {
    hide Count, Work;
    WorkMove(s.tasks, i, After(s.tasks[i], s.cancelled));
    assert s.tasks[i] == Released ==> Last(s.handles) > 0;
    var n := Next(s, StepFor(s.tasks[i], i));
    assert n.Some?;
    hide Next, Inv;
    StepKeepsInv(s, StepFor(s.tasks[i], i));
  }

  /** With all permits out, some task holds one. */
  lemma SomeHolds(s: Server) returns (i: nat)
    requires Inv(s) && s.max > 0 && s.permits == 0
    ensures i < |s.tasks| && s.tasks[i].Holding()
  {
    CountZero(s.tasks, IS_HOLDING);
    i :| 0 <= i < |s.tasks| && IS_HOLDING(s.tasks[i]);
  }

  /** From `s`, after `done`, all tasks can be run to their end. */
  lemma {:induction false} TasksCanFinish(s: Server, done: seq<Step>) returns (steps: seq<Step>)
    requires s.max > 0 && Inv(s) && Exec(s, done).Some?
    ensures Exec(s, steps).Some? && OnlyTasks(Exec(s, done).value, Exec(s, steps).value)
    ensures AllFinished(Exec(s, steps).value)
    decreases Work(Exec(s, done).value.tasks)
  {
    hide Inv, Next, Work, Exec;
    var v := Exec(s, done).value;
    ExecKeepsInv(s, done);
    if i :| 0 <= i < |v.tasks| && v.tasks[i] != Finished {
      var j: nat := i;
      if v.tasks[i] == Waiting && v.permits == 0 {
        j := SomeHolds(v);
      }
      TaskCanStep(v, j);
      ExecAppend(s, done, StepFor(v.tasks[j], j));
      steps := TasksCanFinish(s, done + [StepFor(v.tasks[j], j)]);
    } else {
      steps := done;
    }
  }

  /** A task that waits is served in some continuation of the run. */
  ghost predicate WillServe(s: Server, i: nat, more: seq<Step>) {
    Exec(s, more).Some? && At(Exec(s, more).value, i, Serving)
  }

  /** From `s`, after `done`, a permit can be freed without touching a task that waits for one. */
  lemma {:induction false} PermitCanBeFreed(s: Server, done: seq<Step>, i: nat) returns (steps: seq<Step>)
    requires s.max > 0 && Inv(s) && Exec(s, done).Some? && OnlyTasks(s, Exec(s, done).value)
    requires At(Exec(s, done).value, i, Waiting)
    ensures Exec(s, steps).Some? && OnlyTasks(s, Exec(s, steps).value)
    ensures At(Exec(s, steps).value, i, Waiting) && Exec(s, steps).value.permits > 0
    decreases Work(Exec(s, done).value.tasks)
  {
    hide Inv, Next, Work, Exec;
    var v := Exec(s, done).value;
    ExecKeepsInv(s, done);
    if v.permits > 0 {
      steps := done;
    } else {
      var j := SomeHolds(v);
      TaskCanStep(v, j);
      ExecAppend(s, done, StepFor(v.tasks[j], j));
      steps := PermitCanBeFreed(s, done + [StepFor(v.tasks[j], j)], i);
    }
  }

  lemma WaitingCanBeServed(s: Server, i: nat) returns (more: seq<Step>)
    requires Inv(s) && s.max > 0 && !s.cancelled && At(s, i, Waiting)
    ensures WillServe(s, i, more)
  {
    assert Exec(s, []) == Some(s);
    hide Inv, Next, Exec;
    more := PermitCanBeFreed(s, [], i);
    for k := 0 to 3
      invariant Exec(s, more).Some? && OnlyTasks(s, Exec(s, more).value)
      invariant k == 0 ==> Exec(s, more).value.permits > 0
      invariant At(Exec(s, more).value, i, [Waiting, Permitted, Cleared, Serving][k])
    {
      var v := Exec(s, more).value;
      ExecKeepsInv(s, more);
      TaskCanStep(v, i);
      ExecAppend(s, more, StepFor(v.tasks[i], i));
      more := more + [StepFor(v.tasks[i], i)];
    }
  }

  predicate NeverServes(s: Server, i: nat) {
    s.cancelled && i < |s.tasks| && !s.tasks[i].Cleared? && !s.tasks[i].Serving?
  }

  lemma NeverServesOneStep(s: Server, step: Step, i: nat)
    requires NeverServes(s, i) && Next(s, step).Some?
    ensures NeverServes(Next(s, step).value, i)
  {
  }

  lemma {:induction false} NeverServesAgain(s: Server, steps: seq<Step>, i: nat)
    requires NeverServes(s, i) && Exec(s, steps).Some?
    ensures NeverServes(Exec(s, steps).value, i)
  {
    hide Next;
    if steps != [] {
      NeverServesAgain(s, steps[..|steps| - 1], i);
      NeverServesOneStep(Exec(s, steps[..|steps| - 1]).value, steps[|steps| - 1], i);
    }
  }

  lemma WithoutPermitsNoneServes(s: Server, i: nat)
    requires Inv(s) && s.max == 0
    ensures !At(s, i, Serving)
  {
    CountZero(s.tasks, IS_HOLDING);
    assert i < |s.tasks| ==> !IS_HOLDING(s.tasks[i]);
  }

  /**
  In every interleaving an accepted connection that still waits for its permit can be served in
  some continuation exactly when there are permits at all and the shutdown has not begun.
  */
  lemma AcceptedMayBeServedIff(max: nat, steps: seq<Step>, i: nat)
    requires Exec(Start(max), steps).Some? && At(Exec(Start(max), steps).value, i, Waiting)
    ensures var s := Exec(Start(max), steps).value;
            (exists more :: WillServe(s, i, more)) <==> max > 0 && !s.cancelled
  {
    hide Inv, Next, Exec, WillServe;
    RunKeepsInv(max, steps);
    var s := Exec(Start(max), steps).value;
    if max > 0 && !s.cancelled {
      var more := WaitingCanBeServed(s, i);
    }
    if more :| WillServe(s, i, more) {
      ServedNeeds(s, i, more);
    }
  }

  lemma ServedNeeds(s: Server, i: nat, more: seq<Step>)
    requires Inv(s) && At(s, i, Waiting) && WillServe(s, i, more)
    ensures s.max > 0 && !s.cancelled
  {
    hide Inv, Next, Exec;
    ExecKeepsInv(s, more);
    if s.max == 0 {
      WithoutPermitsNoneServes(Exec(s, more).value, i);
    }
    if s.cancelled {
      NeverServesAgain(s, more, i);
    }
  }

  /**
  With a fresh load the gateway's drain loop leaves exactly when every task has finished, and the
  node's exactly when no connection is counted.
  */
  lemma FreshLoadLeavesIff(max: nat, steps: seq<Step>)
    requires Exec(Start(max), steps).Some?
    requires !Exec(Start(max), steps).value.accepting && !Exec(Start(max), steps).value.left
    ensures var s := Exec(Start(max), steps).value;
            && s.handles != [] && (GatewayLeaves(s, |s.handles| - 1) <==> AllFinished(s))
            && s.active != []
            && (max <= U32_MAX ==>
                  (NodeLeaves(s, |s.active| - 1) <==> !AnyAt(s, Serving) && !AnyAt(s, Served)))
  {
    hide Exec;
    RunKeepsInv(max, steps);
    FreshLoads(Exec(Start(max), steps).value);
  }

  lemma CountedFits(s: Server)
    requires Inv(s) && s.max <= U32_MAX
    ensures Last(s.active) == Count(s.tasks, IS_COUNTED)
  {
    hide Count;
    CountWithin(s.tasks, IS_COUNTED, IS_HOLDING);
    Wraps(Count(s.tasks, IS_COUNTED));
  }

  lemma FreshLoads(s: Server)
    requires Inv(s) && !s.accepting && !s.left
    ensures GatewayLeaves(s, |s.handles| - 1) <==> AllFinished(s)
    ensures s.max <= U32_MAX ==> (NodeLeaves(s, |s.active| - 1) <==> !AnyAt(s, Serving) && !AnyAt(s, Served))
  {
    NoneAlive(s.tasks);
    NoneCounted(s.tasks);
    if s.max <= U32_MAX {
      CountedFits(s);
    }
    hide Count, Low32, IS_COUNTED, IS_ALIVE, IS_HOLDING;
    assert AllFinished(s) <==> forall i :: 0 <= i < |s.tasks| ==> s.tasks[i].Finished?;
  }

  lemma NoneAlive(tasks: seq<Phase>)
    ensures Count(tasks, IS_ALIVE) == 0 <==> forall i :: 0 <= i < |tasks| ==> tasks[i].Finished?
  {
    CountZero(tasks, IS_ALIVE);
    assert forall i :: 0 <= i < |tasks| ==> (IS_ALIVE(tasks[i]) <==> !tasks[i].Finished?);
  }

  lemma NoneCounted(tasks: seq<Phase>)
    ensures Count(tasks, IS_COUNTED) == 0 <==> forall i :: 0 <= i < |tasks| ==> !tasks[i].Counted()
  {
    CountZero(tasks, IS_COUNTED);
    assert forall i :: 0 <= i < |tasks| ==> (IS_COUNTED(tasks[i]) <==> tasks[i].Counted());
  }

  ghost predicate DrainEnds(s: Server, more: seq<Step>, index: nat) {
    Exec(s, more).Some? && GatewayLeaves(Exec(s, more).value, index)
  }

  /**
  So from wherever a run has got to, it can go on to shut down and bring the gateway's drain loop to its
  end, exactly when there are permits at all or nobody was ever accepted.
  */
  lemma DrainCanEndIff(max: nat, steps: seq<Step>)
    requires Exec(Start(max), steps).Some? && !Exec(Start(max), steps).value.left
    ensures var s := Exec(Start(max), steps).value;
            (exists more, index :: DrainEnds(s, more, index)) <==> max > 0 || s.tasks == []
  {
    hide Inv, Next, Exec, GatewayLeaves, DrainEnds;
    RunKeepsInv(max, steps);
    if max == 0 {
      StaysStuck(Start(0), steps);
    }
    var s := Exec(Start(max), steps).value;
    var more := CanShutDown(s);
    if max > 0 {
      more := TasksCanFinish(s, more);
      EndsByFreshLoad(s, more);
    } else if s.tasks == [] {
      EndsByFreshLoad(s, more);
    }
    if more, index :| DrainEnds(s, more, index) {
      EndNeeds(s, more, index);
    }
  }

  lemma CanShutDown(s: Server) returns (more: seq<Step>)
    requires Inv(s)
    ensures Exec(s, more) == Some(s.(cancelled := true, accepting := false))
  {
    assert Exec(s, []) == Some(s) && s.active != [] && s.handles != [];
    hide Exec, Inv;
    var v := s.(cancelled := true);
    assert Next(s, Cancel) == Some(v) && Next(v, StopAccepting) == Some(v.(accepting := false));
    hide Next;
    ExecAppend(s, [], Cancel);
    ExecAppend(s, [] + [Cancel], StopAccepting);
    more := [] + [Cancel] + [StopAccepting];
  }

  lemma EndsByFreshLoad(s: Server, more: seq<Step>)
    requires Inv(s) && Exec(s, more).Some? && !Exec(s, more).value.accepting && !Exec(s, more).value.left
    requires AllFinished(Exec(s, more).value)
    ensures Exec(s, more).value.handles != [] && DrainEnds(s, more, |Exec(s, more).value.handles| - 1)
  {
    hide Next, Exec, GatewayLeaves, Count;
    ExecKeepsInv(s, more);
    FreshLoads(Exec(s, more).value);
  }

  lemma EndNeeds(s: Server, more: seq<Step>, index: nat)
    requires Inv(s) && (s.max == 0 ==> Stuck(s)) && DrainEnds(s, more, index)
    ensures s.max > 0 || s.tasks == []
  {
    hide Count, Exec;
    ExecKeepsInv(s, more);
    var v := Exec(s, more).value;
    assert v.handles[index] <= 1 && Last(v.handles) <= v.handles[index];
    if s.max == 0 {
      StaysStuck(s, more);
      StuckAreAlive(v.tasks);
    }
  }

  lemma {:induction false} StuckAreAlive(tasks: seq<Phase>)
    requires forall i :: 0 <= i < |tasks| ==> tasks[i] == Waiting
    ensures Count(tasks, IS_ALIVE) == |tasks|
  {
    if tasks != [] {
      StuckAreAlive(tasks[..|tasks| - 1]);
    }
  }

  /** Without permits every task waits for ever. */
  predicate Stuck(s: Server) {
    s.permits == 0 && forall i :: 0 <= i < |s.tasks| ==> s.tasks[i] == Waiting
  }

  lemma {:induction false} StaysStuck(s: Server, steps: seq<Step>)
    requires Stuck(s) && Exec(s, steps).Some?
    ensures Stuck(Exec(s, steps).value) && |s.tasks| <= |Exec(s, steps).value.tasks|
  {
    if steps != [] {
      hide Next, Stuck;
      StaysStuck(s, steps[..|steps| - 1]);
      StuckOneStep(Exec(s, steps[..|steps| - 1]).value, steps[|steps| - 1]);
    }
  }

  lemma StuckOneStep(s: Server, step: Step)
    requires Stuck(s) && Next(s, step).Some?
    ensures Stuck(Next(s, step).value) && |s.tasks| <= |Next(s, step).value.tasks|
  {
  }

  /**
  While the accepting loop runs, a connection may be accepted whatever the permits, even after shutdown
  has begun, for the loop picks freely between the two; the loop ends only then.
  */
  lemma AcceptingMayAccept(max: nat, steps: seq<Step>)
    requires Exec(Start(max), steps).Some?
    ensures var s := Exec(Start(max), steps).value;
            && (Next(s, Accept).Some? <==> s.accepting)
            && (Next(s, Accept).Some? ==> Next(s, Accept).value.tasks == s.tasks + [Waiting])
            && (Next(s, StopAccepting).Some? <==> s.cancelled)
            && Next(s, Cancel) == Some(s.(cancelled := true))
  {
    hide Exec, Count;
    RunKeepsInv(max, steps);
  }

  // ----- loads of one task never go back -----

  /** The newest entries that the three loading tasks have seen do not get older. */
  lemma SeenGrows(s: Server, step: Step)
    requires Inv(s) && Next(s, step).Some?
    ensures var v := Next(s, step).value;
            && s.looked <= v.looked && s.reported <= v.reported && s.held <= v.held
            && (step.Report? ==> s.reported <= step.index == v.reported)
            && (step.Look? ==> s.looked <= step.index == v.looked)
            && (step.CountHandles? ==> s.held <= step.index == v.held)
  {
    hide Count;
  }

  predicate SameLoad(a: Step, b: Step) {
    (a.Report? && b.Report?) || (a.Look? && b.Look?) || (a.CountHandles? && b.CountHandles?)
  }

  /** What the loop that makes such loads has seen. */
  function SeenBy(s: Server, load: Step): nat {
    if load.Report? then s.reported else if load.Look? then s.looked else s.held
  }

  lemma {:induction false} LoadsAreSeen(max: nat, steps: seq<Step>, i: nat)
    requires Exec(Start(max), steps).Some? && i < |steps| && SameLoad(steps[i], steps[i])
    ensures steps[i].index <= SeenBy(Exec(Start(max), steps).value, steps[i])
  {
    hide Inv, Next;
    var n := |steps| - 1;
    var s := Exec(Start(max), steps[..n]).value;
    RunKeepsInv(max, steps[..n]);
    SeenGrows(s, steps[n]);
    if i < n {
      LoadsAreSeen(max, steps[..n], i);
    }
  }

  /** However relaxed, the loads of the heartbeats, and those of each drain loop, never go back. */
  lemma LoadsNeverGoBack(max: nat, steps: seq<Step>, i: nat, load: Step)
    requires Exec(Start(max), steps).Some? && Next(Exec(Start(max), steps).value, load).Some?
    requires i < |steps| && SameLoad(steps[i], load)
    ensures steps[i].index <= load.index
  {
    hide Exec, Inv, Next;
    LoadsAreSeen(max, steps, i);
    RunKeepsInv(max, steps);
    SeenGrows(Exec(Start(max), steps).value, load);
  }
}
