/**
Bandwidth admission: one shared atomic counter, raised by a load / check / weak compare-and-swap loop
and lowered by guards when they are dropped.
*/
module Bandwidth {
  import opened Prelude

  const U64_MAX := 0xFFFF_FFFF_FFFF_FFFF
  type u64 = x: int | 0 <= x <= U64_MAX

  /** The checked addition and ceiling test of one loop iteration. */
  function Admit(limit: u64, current: u64, rate: u64): (next: Option<u64>)
    ensures next.Some? <==> current + rate <= limit
    ensures next.Some? ==> next.value == current + rate
  {
    if current + rate > U64_MAX then None
    else if current + rate > limit then None
    else Some(current + rate)
  }

  /** Machine subtraction. */
  function WrappingSub(a: u64, b: u64): (r: u64)
    ensures (r + b - a) % 0x1_0000_0000_0000_0000 == 0
  {
    if b <= a then a - b else a - b + (U64_MAX + 1)
  }

  function Sum(rates: seq<u64>): nat {
    if rates == [] then 0 else Sum(rates[..|rates| - 1]) + rates[|rates| - 1]
  }

  function Without<T>(s: seq<T>, i: nat): seq<T>
    requires i < |s|
  {
    s[..i] + s[i + 1..]
  }

  lemma SumAppend(rates: seq<u64>, rate: u64)
    ensures Sum(rates + [rate]) == Sum(rates) + rate
  {
    assert (rates + [rate])[..|rates|] == rates;
  }

  lemma {:induction false} SumWithout(rates: seq<u64>, i: nat)
    requires i < |rates|
    ensures Sum(Without(rates, i)) == Sum(rates) - rates[i]
  {
    var n := |rates| - 1;
    if i == n {
      assert Without(rates, i) == rates[..n];
    } else {
      SumWithout(rates[..n], i);
      assert Without(rates, i) == Without(rates[..n], i) + [rates[n]];
      SumAppend(Without(rates[..n], i), rates[n]);
    }
  }

  // ----- the allocator as objects -----

  class AtomicU64 {
    var value: u64

    constructor (v: u64)
      ensures value == v
    {
      value := v;
    }

    /** A weak compare-and-swap may fail although the value matches. */
    method CompareExchangeWeak(current: u64, next: u64, spurious: bool) returns (ok: bool)
      modifies this
      ensures ok == (old(value) == current && !spurious)
      ensures value == if ok then next else old(value)
    {
      ok := value == current && !spurious;
      if ok {
        value := next;
      }
    }

    method FetchSub(rate: u64)
      modifies this
      ensures value == WrappingSub(old(value), rate)
    {
      value := WrappingSub(value, rate);
    }
  }

  class BandwidthGuard {
    const reserved: AtomicU64
    const rate: u64

    constructor (reserved: AtomicU64, rate: u64)
      ensures this.reserved == reserved && this.rate == rate
    {
      this.reserved, this.rate := reserved, rate;
    }

    method Drop()
      modifies reserved
      ensures reserved.value == WrappingSub(old(reserved.value), rate)
    {
      reserved.FetchSub(rate);
    }
  }

  class BandwidthAllocator {
    const limit: u64
    const reserved: AtomicU64

    constructor (limit: u64)
      ensures this.limit == limit && fresh(reserved) && reserved.value == 0
    {
      this.limit := limit;
      reserved := new AtomicU64(0);
    }

    /** With no other thread at work; the first `spurious` swaps fail for no reason. */
    method TryReserve(rate: u64, spurious: nat) returns (guard: Option<BandwidthGuard>)
      modifies reserved
      ensures guard.Some? <==> old(reserved.value) + rate <= limit
      ensures guard.Some? ==> guard.value.reserved == reserved && guard.value.rate == rate
      ensures reserved.value == old(reserved.value) + if guard.Some? then rate else 0
    {
      var failures := spurious;
      while true
        invariant reserved.value == old(reserved.value)
        decreases failures
      {
        var current := reserved.value;
        var next := Admit(limit, current, rate);
        if next.None? {
          return None;
        }
        var ok := reserved.CompareExchangeWeak(current, next.value, failures > 0);
        if ok {
          var g := new BandwidthGuard(reserved, rate);
          return Some(g);
        }
        failures := failures - 1;
      }
    }
  }

  /** A reservation that is dropped restores the counter it raised. */
  method ReserveThenDrop(a: BandwidthAllocator, rate: u64, spurious: nat)
    modifies a.reserved
    ensures a.reserved.value == old(a.reserved.value)
  {
    var g := a.TryReserve(rate, spurious);
    if g.Some? {
      g.value.Drop();
    }
  }

  // ----- any number of threads on one counter -----

  /** Where a thread is in its reservation loop. */
  datatype Pc = Idle | Calling(rate: u64) | Admitted(rate: u64, current: u64)

  /** `seen` is the newest entry of the counter's modification order the thread has observed. */
  datatype Thread = Thread(seen: nat, pc: Pc)

  /**
  `order` is the modification order of the counter: every value it has held, the present one last.
  The loads are relaxed, so a load may answer with any entry not older than what its thread has seen;
  swaps and subtractions always act on the present value.
  */
  datatype Counter = Counter(limit: u64, order: seq<u64>, guards: seq<u64>, threads: map<nat, Thread>) {
    function Present(): u64
      requires order != []
    {
      order[|order| - 1]
    }

    function ThreadOf(t: nat): Thread {
      if t in threads then threads[t] else Thread(0, Idle)
    }

    function With(t: nat, pc: Pc, seen: nat): Counter {
      this.(threads := threads[t := Thread(seen, pc)])
    }
  }

  function Initial(limit: u64): Counter {
    Counter(limit, [0], [], map[])
  }

  datatype Step =
    | Call(t: nat, rate: u64)
    | Load(t: nat, index: nat)
    | CasOk(t: nat)
    | CasFail(t: nat)
    | DropGuard(t: nat, g: nat)
  {
    /** A change of the counter by thread `t`. */
    predicate Writes(t: nat) {
      (CasOk? || DropGuard?) && this.t == t
    }
  }

  /** One step of one thread, or nothing when the thread cannot take it. */
  function Next(s: Counter, step: Step): Option<Counter> {
    if s.order == [] then None
    else
      match step
      case Call(t, rate) =>
        if s.ThreadOf(t).pc.Idle? then Some(s.With(t, Calling(rate), s.ThreadOf(t).seen)) else None
      case Load(t, index) =>
        var th := s.ThreadOf(t);
        if th.pc.Calling? && th.seen <= index < |s.order| then
          if Admit(s.limit, s.order[index], th.pc.rate).None? then Some(s.With(t, Idle, index))
          else Some(s.With(t, Admitted(th.pc.rate, s.order[index]), index))
        else None
      case CasOk(t) =>
        var th := s.ThreadOf(t);
        if th.pc.Admitted? && s.Present() == th.pc.current then
          var next := Admit(s.limit, th.pc.current, th.pc.rate);
          if next.None? then None
          else Some(s.(order := s.order + [next.value], guards := s.guards + [th.pc.rate])
                     .With(t, Idle, |s.order|))
        else None
      case CasFail(t) =>
        var th := s.ThreadOf(t);
        if th.pc.Admitted? then Some(s.With(t, Calling(th.pc.rate), th.seen)) else None
      case DropGuard(t, g) =>
        if g < |s.guards| then
          Some(s.(order := s.order + [WrappingSub(s.Present(), s.guards[g])], guards := Without(s.guards, g))
                .With(t, s.ThreadOf(t).pc, |s.order|))
        else None
  }

  /** The state after a run of steps, or nothing when some step could not be taken. */
  function Exec(s: Counter, steps: seq<Step>): Option<Counter> {
    if steps == [] then Some(s)
    else
      var before := Exec(s, steps[..|steps| - 1]);
      if before.None? then None else Next(before.value, steps[|steps| - 1])
  }

  // ----- the atomic specification -----

  /** What a caller may rely on: a ceiling and the rates of the outstanding guards. */
  datatype Pool = Pool(limit: u64, guards: seq<u64>)

  datatype Action = Reserve(rate: u64) | Refuse(rate: u64) | Release(g: nat) | Internal

  function PoolNext(p: Pool, a: Action): Option<Pool> {
    match a
    case Reserve(rate) => if Sum(p.guards) + rate <= p.limit then Some(p.(guards := p.guards + [rate])) else None
    case Refuse(rate) => if Sum(p.guards) + rate > p.limit then Some(p) else None
    case Release(g) => if g < |p.guards| then Some(p.(guards := Without(p.guards, g))) else None
    case Internal => Some(p)
  }

  function PoolExec(p: Pool, actions: seq<Action>): Option<Pool> {
    if actions == [] then Some(p)
    else
      var before := PoolExec(p, actions[..|actions| - 1]);
      if before.None? then None else PoolNext(before.value, actions[|actions| - 1])
  }

  /** What a caller sees of a step: a reservation takes effect at its swap, a refusal at its load. */
  function Label(s: Counter, step: Step): Action {
    match step
    case Load(t, index) =>
      var th := s.ThreadOf(t);
      if th.pc.Calling? && index < |s.order| && Admit(s.limit, s.order[index], th.pc.rate).None?
      then Refuse(th.pc.rate) else Internal
    case CasOk(t) =>
      var th := s.ThreadOf(t);
      if th.pc.Admitted? then Reserve(th.pc.rate) else Internal
    case DropGuard(_, g) => Release(g)
    case _ => Internal
  }

  function Labels(s: Counter, steps: seq<Step>): seq<Action> {
    if steps == [] then []
    else
      var before := Exec(s, steps[..|steps| - 1]);
      Labels(s, steps[..|steps| - 1])
      + if before.None? then [] else [Label(before.value, steps[|steps| - 1])]
  }

  // ----- safety -----

  ghost predicate Inv(s: Counter) {
    && s.order != []
    && s.Present() == Sum(s.guards) <= s.limit
    && (forall t :: t in s.threads && s.threads[t].pc.Admitted? ==>
          s.threads[t].pc.current + s.threads[t].pc.rate <= s.limit)
    && (forall t :: t in s.threads ==> s.threads[t].seen < |s.order|)
  }

  lemma GuardWithinSum(rates: seq<u64>, i: nat)
    requires i < |rates|
    ensures rates[i] <= Sum(rates)
  {
    SumWithout(rates, i);
  }

  lemma StepKeepsInv(s: Counter, step: Step)
    requires Inv(s) && Next(s, step).Some?
    ensures Inv(Next(s, step).value)
    ensures Next(s, step).value.limit == s.limit
    ensures s.order <= Next(s, step).value.order
  {
    hide Sum, Without;
    match step
    case CasOk(t) => SumAppend(s.guards, s.ThreadOf(t).pc.rate);
    case DropGuard(t, g) => GuardWithinSum(s.guards, g); SumWithout(s.guards, g);
    case _ =>
  }

  lemma {:induction false} RunKeepsInv(limit: u64, steps: seq<Step>)
    requires Exec(Initial(limit), steps).Some?
    ensures Inv(Exec(Initial(limit), steps).value)
    ensures Exec(Initial(limit), steps).value.limit == limit
  {
    if steps != [] {
      var prefix := steps[..|steps| - 1];
      RunKeepsInv(limit, prefix);
      StepKeepsInv(Exec(Initial(limit), prefix).value, steps[|steps| - 1]);
    }
  }

  /**
  In every interleaving, with loads as stale as the memory model lets them be, the counter is the sum
  of the outstanding guards, stays within the ceiling, and no drop wraps below zero.
  */
  lemma EveryRunIsSafe(limit: u64, steps: seq<Step>)
    requires Exec(Initial(limit), steps).Some?
    ensures var s := Exec(Initial(limit), steps).value;
            && s.order != [] && s.Present() == Sum(s.guards) <= limit
            && forall g :: 0 <= g < |s.guards| ==> WrappingSub(s.Present(), s.guards[g]) == s.Present() - s.guards[g]
  {
    RunKeepsInv(limit, steps);
    var s := Exec(Initial(limit), steps).value;
    forall g | 0 <= g < |s.guards|
      ensures s.guards[g] <= s.Present()
    {
      GuardWithinSum(s.guards, g);
    }
  }

  // ----- refinement -----

  /** A step is one of the atomic pool unless it refuses what fits the pool at that moment. */
  lemma StepRefinesIff(s: Counter, step: Step)
    requires Inv(s) && Next(s, step).Some?
    ensures var a, p := Label(s, step), Pool(s.limit, s.guards);
            && (PoolNext(p, a).Some? <==> (a.Refuse? ==> Sum(s.guards) + a.rate > s.limit))
            && (PoolNext(p, a).Some? ==> PoolNext(p, a).value == Pool(s.limit, Next(s, step).value.guards))
  {
  }

  /** Every refusal of the run is of a request that does not fit at the instant of the load. */
  ghost predicate RefusalsAreDue(s: Counter, steps: seq<Step>) {
    steps != [] ==>
      && RefusalsAreDue(s, steps[..|steps| - 1])
      && var before := Exec(s, steps[..|steps| - 1]);
         before.Some? ==>
           var a := Label(before.value, steps[|steps| - 1]);
           a.Refuse? ==> Sum(before.value.guards) + a.rate > before.value.limit
  }

  /**
  A run is, call by call, a run of the atomic pool exactly when each refusal is of a request that does
  not fit at the instant of its load.  Reservations never stand in the way: each fits at the instant of
  its swap, whatever happened since its load and however stale that was.
  */
  lemma {:induction false} RunRefinesPoolIff(limit: u64, steps: seq<Step>)
    requires Exec(Initial(limit), steps).Some?
    ensures PoolExec(Pool(limit, []), Labels(Initial(limit), steps)).Some? <==> RefusalsAreDue(Initial(limit), steps)
    ensures RefusalsAreDue(Initial(limit), steps) ==>
              PoolExec(Pool(limit, []), Labels(Initial(limit), steps))
              == Some(Pool(limit, Exec(Initial(limit), steps).value.guards))
  {
    if steps != [] {
      var prefix, step := steps[..|steps| - 1], steps[|steps| - 1];
      var m := Exec(Initial(limit), prefix).value;
      RunRefinesPoolIff(limit, prefix);
      RunKeepsInv(limit, prefix);
      StepRefinesIff(m, step);
      hide Inv, Next, Label, Sum, PoolNext;
      var labels := Labels(Initial(limit), prefix);
      assert Labels(Initial(limit), steps) == labels + [Label(m, step)];
      assert (labels + [Label(m, step)])[..|labels|] == labels;
    }
  }

  /** Every load that refuses answers with the value the counter holds at that moment. */
  ghost predicate RefusalsAreFresh(s: Counter, steps: seq<Step>) {
    steps != [] ==>
      && RefusalsAreFresh(s, steps[..|steps| - 1])
      && var before, step := Exec(s, steps[..|steps| - 1]), steps[|steps| - 1];
         before.Some? && step.Load? && Label(before.value, step).Refuse? ==> step.index == |before.value.order| - 1
  }

  /** In particular so where the loads that refuse are fresh; the others may be as stale as they like. */
  lemma {:induction false} FreshRefusalsAreDue(limit: u64, steps: seq<Step>)
    requires Exec(Initial(limit), steps).Some? && RefusalsAreFresh(Initial(limit), steps)
    ensures RefusalsAreDue(Initial(limit), steps)
  {
    if steps != [] {
      FreshRefusalsAreDue(limit, steps[..|steps| - 1]);
      RunKeepsInv(limit, steps[..|steps| - 1]);
      hide Sum;
    }
  }

  /**
  The exact condition under which a thread that is about to load can be refused although its request
  fits: some value it may still be answered with, one not older than it has seen, leaves no room.
  */
  lemma WronglyRefusedIff(limit: u64, steps: seq<Step>, t: nat)
    requires Exec(Initial(limit), steps).Some? && Exec(Initial(limit), steps).value.ThreadOf(t).pc.Calling?
    ensures var s := Exec(Initial(limit), steps).value;
            var th := s.ThreadOf(t);
            var rate := th.pc.rate;
            (exists index :: && Next(s, Load(t, index)).Some? && Label(s, Load(t, index)) == Refuse(rate)
                             && PoolNext(Pool(limit, s.guards), Label(s, Load(t, index))).None?)
            <==> Sum(s.guards) + rate <= limit && exists i :: th.seen <= i < |s.order| && s.order[i] + rate > limit
  {
    RunKeepsInv(limit, steps);
    var s := Exec(Initial(limit), steps).value;
    var th := s.ThreadOf(t);
    hide Sum, Exec;
    if i :| th.seen <= i < |s.order| && s.order[i] + th.pc.rate > limit {
      assert Next(s, Load(t, i)).Some? && Label(s, Load(t, i)) == Refuse(th.pc.rate);
    }
  }

  // ----- calls and their answers -----

  /** The rate thread `t` asked for last. */
  function LatestCall(steps: seq<Step>, t: nat): Option<u64> {
    if steps == [] then None
    else
      var last := steps[|steps| - 1];
      if last.Call? && last.t == t then Some(last.rate) else LatestCall(steps[..|steps| - 1], t)
  }

  /** The step answers a call: a caller sees a reservation or a refusal. */
  predicate Answers(s: Counter, step: Step) {
    Label(s, step).Reserve? || Label(s, step).Refuse?
  }

  /** How many answers thread `t` has had since it last asked. */
  function AnswersSince(limit: u64, steps: seq<Step>, t: nat): nat {
    if steps == [] then 0
    else
      var prefix, last := steps[..|steps| - 1], steps[|steps| - 1];
      var before := Exec(Initial(limit), prefix);
      if last.t != t || before.None? then AnswersSince(limit, prefix, t)
      else if last.Call? then 0
      else AnswersSince(limit, prefix, t) + if Answers(before.value, last) then 1 else 0
  }

  /** Where a thread stands, by what it has asked for and been answered. */
  predicate Stands(th: Thread, asked: Option<u64>, answers: nat) {
    match th.pc
    case Idle => if asked.None? then answers == 0 else answers == 1
    case Calling(rate) => asked == Some(rate) && answers == 0
    case Admitted(rate, _) => asked == Some(rate) && answers == 0
  }

  lemma StandsOneStep(s: Counter, step: Step, t: nat, asked: Option<u64>, answers: nat)
    requires Inv(s) && Next(s, step).Some? && Stands(s.ThreadOf(t), asked, answers)
    ensures var th := Next(s, step).value.ThreadOf(t);
            if step.t != t then Stands(th, asked, answers)
            else if step.Call? then Stands(th, Some(step.rate), 0)
            else Stands(th, asked, answers + if Answers(s, step) then 1 else 0)
    ensures step.t == t && Answers(s, step) ==> asked == Some(Label(s, step).rate) && answers == 0
    ensures step.t == t && step.Call? ==> asked.None? || answers == 1
  {
    hide Sum, Without, WrappingSub;
  }

  lemma {:induction false} RunStands(limit: u64, steps: seq<Step>, t: nat)
    requires Exec(Initial(limit), steps).Some?
    ensures Stands(Exec(Initial(limit), steps).value.ThreadOf(t), LatestCall(steps, t), AnswersSince(limit, steps, t))
  {
    hide Next, Stands, Answers;
    if steps == [] {
      IdleStands();
    } else {
      var prefix := steps[..|steps| - 1];
      RunStands(limit, prefix, t);
      RunKeepsInv(limit, prefix);
      var s := Exec(Initial(limit), prefix).value;
      StandsOneStep(s, steps[|steps| - 1], t, LatestCall(prefix, t), AnswersSince(limit, prefix, t));
    }
  }

  lemma IdleStands()
    ensures Stands(Thread(0, Idle), None, 0)
  {
  }

  /**
  Every answer is to a call.  What is reserved for a thread or refused to it is the rate it last asked
  for; it has not been answered since; and it does not ask again before it is.  A thread still to be
  answered is on its way, and one that is not has nothing under way.
  */
  lemma AnswersAreToCalls(limit: u64, steps: seq<Step>, step: Step)
    requires Exec(Initial(limit), steps + [step]).Some?
    ensures Exec(Initial(limit), steps).Some?
    ensures var s := Exec(Initial(limit), steps).value;
            && (Answers(s, step) ==>
                  LatestCall(steps, step.t) == Some(Label(s, step).rate) && AnswersSince(limit, steps, step.t) == 0)
            && (step.Call? ==> LatestCall(steps, step.t).None? || AnswersSince(limit, steps, step.t) == 1)
            && (s.ThreadOf(step.t).pc.Idle?
                <==> LatestCall(steps, step.t).None? || AnswersSince(limit, steps, step.t) == 1)
            && AnswersSince(limit, steps, step.t) <= 1
  {
    assert (steps + [step])[..|steps|] == steps;
    var s := Exec(Initial(limit), steps).value;
    RunStands(limit, steps, step.t);
    RunKeepsInv(limit, steps);
    hide Exec, LatestCall, AnswersSince;
    StandsOneStep(s, step, step.t, LatestCall(steps, step.t), AnswersSince(limit, steps, step.t));
  }

  /**
  And every call can be answered: left alone, a thread with a call under way is answered after at most
  a retry, a load and a swap, with a guard exactly when its rate fits what is outstanding then.
  */
  lemma CallCanBeAnswered(limit: u64, steps: seq<Step>, t: nat) returns (more: seq<Step>, last: Step)
    requires Exec(Initial(limit), steps).Some? && !Exec(Initial(limit), steps).value.ThreadOf(t).pc.Idle?
    ensures |more| <= 2 && last.t == t && LatestCall(steps, t).Some?
    ensures Exec(Initial(limit), steps + more).Some?
    ensures var s, v := Exec(Initial(limit), steps).value, Exec(Initial(limit), steps + more).value;
            && v.guards == s.guards && Next(v, last).Some?
            && Label(v, last) == if Sum(s.guards) + LatestCall(steps, t).value <= limit
                                 then Reserve(LatestCall(steps, t).value) else Refuse(LatestCall(steps, t).value)
  {
    RunStands(limit, steps, t);
    RunKeepsInv(limit, steps);
    var s0, s := Initial(limit), Exec(Initial(limit), steps).value;
    var v := s;
    more := [];
    assert steps + [] == steps;
    hide Exec, Sum, LatestCall, AnswersSince, Label;
    if s.ThreadOf(t).pc.Admitted? {
      GiveUpLoad(s, t);
      ExecAppend(s0, steps, CasFail(t));
      more, v := [CasFail(t)], Next(s, CasFail(t)).value;
    }
    hide Next, Inv;
    FreshTry(v, t);
    var newest := Load(t, |v.order| - 1);
    if Sum(s.guards) + LatestCall(steps, t).value <= limit {
      ExecAppend(s0, steps + more, newest);
      assert steps + more + [newest] == steps + (more + [newest]);
      more, last := more + [newest], CasOk(t);
    } else {
      last := newest;
    }
  }

  /** Whoever has no call under way may make one, and every outstanding guard may be dropped by anyone. */
  lemma CallsAndDropsAreFree(limit: u64, steps: seq<Step>, t: nat, rate: u64, g: nat)
    requires Exec(Initial(limit), steps).Some?
    ensures var s := Exec(Initial(limit), steps).value;
            && (LatestCall(steps, t).None? || AnswersSince(limit, steps, t) == 1 ==> Next(s, Call(t, rate)).Some?)
            && (g < |s.guards| ==> Next(s, DropGuard(t, g)).Some?)
  {
    RunStands(limit, steps, t);
    RunKeepsInv(limit, steps);
    hide Exec, LatestCall, AnswersSince, Sum, Without;
  }

  lemma GiveUpLoad(s: Counter, t: nat)
    requires Inv(s) && s.ThreadOf(t).pc.Admitted?
    ensures Next(s, CasFail(t)).Some?
    ensures var v := Next(s, CasFail(t)).value;
            Inv(v) && v.ThreadOf(t).pc == Calling(s.ThreadOf(t).pc.rate) && v.guards == s.guards && v.limit == s.limit
  {
    StepKeepsInv(s, CasFail(t));
  }

  /** A fresh load, and a swap if it admits. */
  lemma FreshTry(s: Counter, t: nat)
    requires Inv(s) && s.ThreadOf(t).pc.Calling?
    ensures var rate, newest := s.ThreadOf(t).pc.rate, Load(t, |s.order| - 1);
            && Next(s, newest).Some? && Next(s, newest).value.guards == s.guards
            && (Sum(s.guards) + rate > s.limit ==> Label(s, newest) == Refuse(rate))
            && (Sum(s.guards) + rate <= s.limit ==>
                  var v := Next(s, newest).value;
                  Next(v, CasOk(t)).Some? && Label(v, CasOk(t)) == Reserve(rate))
  {
    hide Sum;
    assert s.ThreadOf(t).seen <= |s.order| - 1;
  }

  // ----- grounds for a refusal -----

  /** Every value of the modification order was the sum of the guards outstanding when it was the newest. */
  lemma {:induction false} OrderIsPast(limit: u64, steps: seq<Step>, i: nat) returns (k: nat)
    requires Exec(Initial(limit), steps).Some?
    requires i < |Exec(Initial(limit), steps).value.order|
    ensures k <= |steps| && Exec(Initial(limit), steps[..k]).Some?
    ensures |Exec(Initial(limit), steps[..k]).value.order| == i + 1
    ensures Sum(Exec(Initial(limit), steps[..k]).value.guards) == Exec(Initial(limit), steps).value.order[i]
  {
    assert steps[..|steps|] == steps;
    RunKeepsInv(limit, steps);
    var s := Exec(Initial(limit), steps).value;
    if i == |s.order| - 1 {
      k := |steps|;
    } else {
      var prefix := steps[..|steps| - 1];
      RunKeepsInv(limit, prefix);
      StepKeepsInv(Exec(Initial(limit), prefix).value, steps[|steps| - 1]);
      k := OrderIsPast(limit, prefix, i);
      assert prefix[..k] == steps[..k];
    }
  }

  lemma SeenGrows(s: Counter, step: Step, t: nat)
    requires Inv(s) && Next(s, step).Some?
    ensures s.ThreadOf(t).seen <= Next(s, step).value.ThreadOf(t).seen
    ensures step.Writes(t) ==> |s.order| <= Next(s, step).value.ThreadOf(t).seen
  {
    hide Sum, Without, WrappingSub;
  }

  function OrderLength(limit: u64, steps: seq<Step>): nat {
    var s := Exec(Initial(limit), steps);
    if s.None? then 0 else |s.value.order|
  }

  function SeenBy(limit: u64, steps: seq<Step>, t: nat): nat {
    var s := Exec(Initial(limit), steps);
    if s.None? then 0 else s.value.ThreadOf(t).seen
  }

  lemma SeenOneStep(limit: u64, steps: seq<Step>, t: nat)
    requires steps != [] && Exec(Initial(limit), steps).Some?
    ensures var prefix := steps[..|steps| - 1];
            && Exec(Initial(limit), prefix).Some?
            && OrderLength(limit, prefix) <= OrderLength(limit, steps)
            && SeenBy(limit, prefix, t) <= SeenBy(limit, steps, t)
            && (steps[|steps| - 1].Writes(t) ==> OrderLength(limit, prefix) <= SeenBy(limit, steps, t))
  {
    var n := |steps| - 1;
    RunKeepsInv(limit, steps[..n]);
    SeenGrows(Exec(Initial(limit), steps[..n]).value, steps[n], t);
    StepKeepsInv(Exec(Initial(limit), steps[..n]).value, steps[n]);
    hide Next, Inv;
  }

  /** What a thread has seen is at least as new as every change it made itself. */
  lemma {:induction false} OwnWritesAreSeen(limit: u64, steps: seq<Step>, t: nat, j: nat, k: nat)
    requires Exec(Initial(limit), steps).Some? && k <= j < |steps| && steps[j].Writes(t)
    ensures OrderLength(limit, steps[..k]) <= SeenBy(limit, steps, t)
  {
    hide Exec, OrderLength, SeenBy;
    var n := |steps| - 1;
    SeenOneStep(limit, steps, t);
    assert steps[..n][..k] == steps[..k];
    if j < n {
      OwnWritesAreSeen(limit, steps[..n], t, j, k);
    } else {
      OrderGrows(limit, steps[..n], k);
    }
  }

  lemma LoadIsSeen(limit: u64, steps: seq<Step>)
    requires steps != [] && steps[|steps| - 1].Load? && Exec(Initial(limit), steps).Some?
    ensures var load := steps[|steps| - 1];
            SeenBy(limit, steps[..|steps| - 1], load.t) <= load.index == SeenBy(limit, steps, load.t)
  {
  }

  lemma {:induction false} LoadsAreSeen(limit: u64, steps: seq<Step>, i: nat)
    requires Exec(Initial(limit), steps).Some? && i < |steps| && steps[i].Load?
    ensures steps[i].index <= SeenBy(limit, steps, steps[i].t)
  {
    hide Exec, OrderLength, SeenBy;
    var n := |steps| - 1;
    SeenOneStep(limit, steps, steps[i].t);
    if i < n {
      LoadsAreSeen(limit, steps[..n], i);
    } else {
      LoadIsSeen(limit, steps);
    }
  }

  /** However relaxed, the loads of one thread never go back in the modification order. */
  lemma LoadsNeverGoBack(limit: u64, steps: seq<Step>, i: nat, j: nat)
    requires Exec(Initial(limit), steps).Some? && i < j < |steps|
    requires steps[i].Load? && steps[j].Load? && steps[i].t == steps[j].t
    ensures steps[i].index <= steps[j].index
  {
    hide SeenBy;
    PrefixRuns(limit, steps, j + 1);
    var upTo := steps[..j + 1];
    LoadIsSeen(limit, upTo);
    assert upTo[..j] == steps[..j];
    PrefixRuns(limit, steps, j);
    LoadsAreSeen(limit, steps[..j], i);
  }

  lemma {:induction false} PrefixRuns(limit: u64, steps: seq<Step>, k: nat)
    requires Exec(Initial(limit), steps).Some? && k <= |steps|
    ensures Exec(Initial(limit), steps[..k]).Some?
  {
    hide Next;
    if k == |steps| {
      assert steps[..k] == steps;
    } else {
      PrefixRuns(limit, steps[..|steps| - 1], k);
      assert steps[..|steps| - 1][..k] == steps[..k];
    }
  }

  lemma {:induction false} OrderGrows(limit: u64, steps: seq<Step>, k: nat)
    requires Exec(Initial(limit), steps).Some? && k <= |steps|
    ensures OrderLength(limit, steps[..k]) <= OrderLength(limit, steps)
  {
    hide Exec, OrderLength, SeenBy;
    if k == |steps| {
      assert steps[..k] == steps;
    } else {
      var n := |steps| - 1;
      SeenOneStep(limit, steps, 0);
      OrderGrows(limit, steps[..n], k);
      assert steps[..n][..k] == steps[..k];
    }
  }

  /** After `k` steps the pool called for action `a`, and thread `t` has changed nothing since. */
  ghost predicate Grounds(limit: u64, steps: seq<Step>, t: nat, a: Action, k: nat) {
    && k <= |steps| && Exec(Initial(limit), steps[..k]).Some?
    && PoolNext(Pool(limit, Exec(Initial(limit), steps[..k]).value.guards), a).Some?
    && forall j :: k <= j < |steps| ==> !steps[j].Writes(t)
  }

  /**
  Reservations and releases refine the pool however stale the loads are.  A refusal is then justified
  by the pool as it stood at some point of the run, and one not before the last change the refused
  thread made itself: nobody is refused because of a guard they have dropped.
  */
  lemma EveryLabelHasGrounds(limit: u64, steps: seq<Step>, step: Step)
    requires Exec(Initial(limit), steps + [step]).Some?
    ensures Exec(Initial(limit), steps).Some?
    ensures var s := Exec(Initial(limit), steps).value;
            var a := Label(s, step);
            if a.Refuse? then
              exists k :: Grounds(limit, steps, step.t, a, k)
            else
              PoolNext(Pool(limit, s.guards), a)
              == Some(Pool(limit, Exec(Initial(limit), steps + [step]).value.guards))
  {
    assert (steps + [step])[..|steps|] == steps;
    RunKeepsInv(limit, steps);
    var s := Exec(Initial(limit), steps).value;
    if Label(s, step).Refuse? {
      var k := RefusalHasGrounds(limit, steps, step);
    } else {
      StepRefinesIff(s, step);
    }
  }

  lemma RefusalHasGrounds(limit: u64, steps: seq<Step>, step: Step) returns (k: nat)
    requires Exec(Initial(limit), steps).Some? && Exec(Initial(limit), steps).value.limit == limit
    requires Next(Exec(Initial(limit), steps).value, step).Some?
    requires Label(Exec(Initial(limit), steps).value, step).Refuse?
    ensures Grounds(limit, steps, step.t, Label(Exec(Initial(limit), steps).value, step), k)
  {
    hide Exec, Sum;
    k := OrderIsPast(limit, steps, step.index);
    forall j | k <= j < |steps|
      ensures !steps[j].Writes(step.t)
    {
      if steps[j].Writes(step.t) {
        OwnWritesAreSeen(limit, steps, step.t, j, k);
      }
    }
  }

  lemma ExecAppend(s: Counter, steps: seq<Step>, step: Step)
    requires Exec(s, steps).Some?
    ensures Exec(s, steps + [step]) == Next(Exec(s, steps).value, step)
  {
    assert (steps + [step])[..|steps|] == steps;
  }

  /**
  Such refusals happen: after one thread has filled the pool and emptied it again, a stale load of
  another thread refuses a request for which there is room, while a fresh load at the same point
  admits it.
  */
  lemma StaleLoadRefusesWhatFits() returns (steps: seq<Step>)
    ensures Exec(Initial(10), steps).Some?
    ensures var s := Exec(Initial(10), steps).value;
            && s.guards == []
            && Next(s, Load(1, 1)).Some? && Label(s, Load(1, 1)) == Refuse(10)
            && PoolNext(Pool(10, s.guards), Refuse(10)).None?
            && Next(s, Load(1, 2)).Some? && Label(s, Load(1, 2)) == Internal
  {
    var s0 := Initial(10);
    assert Exec(s0, []) == Some(s0);
    hide Exec, Next, Sum, Label, PoolNext;
    var s3 := ThreadFills();
    ThreadEmpties(s3);
    var s4 := s3.(order := [0, 10, 0], guards := []).With(0, Idle, 2);
    StaleRefuses(s4);
    steps := [];
    ExecAppend(s0, steps, Call(0, 10));
    steps := steps + [Call(0, 10)];
    ExecAppend(s0, steps, Load(0, 0));
    steps := steps + [Load(0, 0)];
    ExecAppend(s0, steps, CasOk(0));
    steps := steps + [CasOk(0)];
    ExecAppend(s0, steps, DropGuard(0, 0));
    steps := steps + [DropGuard(0, 0)];
    ExecAppend(s0, steps, Call(1, 10));
    steps := steps + [Call(1, 10)];
  }

  lemma StaleRefuses(s: Counter)
    requires s.limit == 10 && s.order == [0, 10, 0] && s.guards == [] && s.ThreadOf(1) == Thread(0, Idle)
    ensures var v := Next(s, Call(1, 10));
            && v.Some? && v.value.guards == []
            && Next(v.value, Load(1, 1)).Some? && Label(v.value, Load(1, 1)) == Refuse(10)
            && PoolNext(Pool(10, v.value.guards), Refuse(10)).None?
            && Next(v.value, Load(1, 2)).Some? && Label(v.value, Load(1, 2)) == Internal
  {
    SumNone();
  }

  /** One thread takes all of an empty pool of ten. */
  lemma ThreadFills() returns (s: Counter)
    ensures var s1 := Initial(10).With(0, Calling(10), 0);
            var s2 := s1.With(0, Admitted(10, 0), 0);
            && Next(Initial(10), Call(0, 10)) == Some(s1)
            && Next(s1, Load(0, 0)) == Some(s2)
            && Next(s2, CasOk(0)) == Some(s)
    ensures s.limit == 10 && s.order == [0, 10] && s.guards == [10] && s.threads == map[0 := Thread(1, Idle)]
  {
    var s1 := Initial(10).With(0, Calling(10), 0);
    var s2 := s1.With(0, Admitted(10, 0), 0);
    s := Counter(10, [0] + [10], [] + [10], s2.threads[0 := Thread(1, Idle)]);
  }

  /** And gives it back. */
  lemma ThreadEmpties(s: Counter)
    requires s.order == [0, 10] && s.guards == [10] && s.ThreadOf(0).pc.Idle?
    ensures Next(s, DropGuard(0, 0)) == Some(s.(order := [0, 10, 0], guards := []).With(0, Idle, 2))
  {
    assert Without([10], 0) == [] && [0, 10] + [0] == [0, 10, 0];
  }

  lemma SumNone()
    ensures Sum([]) == 0
  {
  }
}
