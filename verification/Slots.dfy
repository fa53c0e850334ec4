/**
How many connections a node's bandwidth admits: each connection reserves an equal share of the
node's limit, out of an allocator that is created the first time the node is tried.
*/
module Slots {
  import opened Prelude
  import opened Bandwidth

  datatype Registration = Registration(limit: u64, maxConnections: nat) {
    function Slots(): nat {
      if maxConnections == 0 then 1 else maxConnections
    }

    /** The slice of the limit one connection reserves; never zero. */
    function Share(): (share: u64)
      ensures share >= 1
    {
      if limit / Slots() < 1 then 1 else limit / Slots()
    }
  }

  /** One node's registration, its allocator once it exists, and the guards on it. */
  datatype Account = Account(reg: Registration, pool: Option<Pool>) {
    function Allocator(): Pool {
      if pool.None? then Pool(reg.limit, []) else pool.value
    }

    predicate Grants() {
      Sum(Allocator().guards) + reg.Share() <= Allocator().limit
    }
  }

  datatype Event = Register(reg: Registration) | Ask | Release(g: nat)

  function Next(a: Account, e: Event): Account {
    match e
    case Register(reg) => a.(reg := reg)
    case Ask =>
      var p := a.Allocator();
      a.(pool := Some(if a.Grants() then p.(guards := p.guards + [a.reg.Share()]) else p))
    case Release(g) =>
      if a.pool.Some? && g < |a.pool.value.guards|
      then a.(pool := Some(a.pool.value.(guards := Without(a.pool.value.guards, g)))) else a
  }

  function Run(a: Account, events: seq<Event>): Account
    decreases |events|
  {
    if events == [] then a else Run(Next(a, events[0]), events[1..])
  }

  /** The limit in force when the node is first asked for, if it ever is. */
  function FirstLimit(reg: Registration, events: seq<Event>): Option<u64>
    decreases |events|
  {
    if events == [] then None
    else
      match events[0]
      case Register(r) => FirstLimit(r, events[1..])
      case Ask => Some(reg.limit)
      case Release(_) => FirstLimit(reg, events[1..])
  }

  ghost predicate NoRegister(events: seq<Event>) {
    forall i :: 0 <= i < |events| ==> !events[i].Register?
  }

  lemma StepStaysWithin(a: Account, e: Event)
    requires Sum(a.Allocator().guards) <= a.Allocator().limit
    ensures var b := Next(a, e);
            Sum(b.Allocator().guards) <= b.Allocator().limit
    ensures a.pool.Some? ==> Next(a, e).pool.Some? && Next(a, e).pool.value.limit == a.pool.value.limit
  {
    match e
    case Ask => SumAppend(a.Allocator().guards, a.reg.Share());
    case Release(g) =>
      if a.pool.Some? && g < |a.pool.value.guards| {
        SumWithout(a.pool.value.guards, g);
      }
    case _ =>
  }

  lemma {:induction false} RunStaysWithin(a: Account, events: seq<Event>)
    requires Sum(a.Allocator().guards) <= a.Allocator().limit
    ensures var b := Run(a, events);
            Sum(b.Allocator().guards) <= b.Allocator().limit
    ensures a.pool.Some? ==> Run(a, events).pool.Some? && Run(a, events).pool.value.limit == a.pool.value.limit
    decreases |events|
  {
    if events != [] {
      StepStaysWithin(a, events[0]);
      RunStaysWithin(Next(a, events[0]), events[1..]);
    }
  }

  /**
  Whatever registrations follow, the ceiling a node's guards are held to is the limit it had when it
  was first asked for.
  */
  lemma {:induction false} CeilingIsFirstLimit(reg: Registration, events: seq<Event>)
    ensures var a := Run(Account(reg, None), events);
            && (a.pool.None? <==> FirstLimit(reg, events).None?)
            && (a.pool.Some? ==> Sum(a.pool.value.guards) <= a.pool.value.limit == FirstLimit(reg, events).value)
    decreases |events|
  {
    if events != [] {
      var a := Next(Account(reg, None), events[0]);
      match events[0]
      case Register(r) => CeilingIsFirstLimit(r, events[1..]);
      case Ask =>
        StepStaysWithin(Account(reg, None), Ask);
        RunStaysWithin(a, events[1..]);
      case Release(_) => CeilingIsFirstLimit(reg, events[1..]);
    }
  }

  /** A lowered limit binds nobody: a node can carry reservations far beyond what it now advertises. */
  lemma LoweredLimitIsNotEnforced()
    ensures var a := Run(Account(Registration(1000, 10), None), [Ask, Register(Registration(10, 10)), Ask]);
            a.reg.limit == 10 && Sum(a.Allocator().guards) == 101
  {
    var a0 := Account(Registration(1000, 10), None);
    var events := [Ask, Register(Registration(10, 10)), Ask];
    var a1 := Next(a0, Ask);
    assert Registration(1000, 10).Share() == 100 && Registration(10, 10).Share() == 1;
    assert [] + [100] == [100];
    assert a1.pool == Some(Pool(1000, [100]));
    assert events[1..] == [Register(Registration(10, 10)), Ask];
    var a2 := Next(a1, Register(Registration(10, 10)));
    assert events[1..][1..] == [Ask];
    SumAppend([], 100);
    SumAppend([100], 1);
    var a3 := Next(a2, Ask);
    assert a3.pool == Some(Pool(1000, [100] + [1]));
    assert Run(a2, [Ask]) == a3;
  }

  // ----- a fixed registration -----

  ghost predicate AllShares(guards: seq<u64>, share: u64) {
    forall i :: 0 <= i < |guards| ==> guards[i] == share
  }

  lemma {:induction false} SumOfShares(guards: seq<u64>, share: u64)
    requires AllShares(guards, share)
    ensures Sum(guards) == |guards| * share
  {
    if guards != [] {
      SumOfShares(guards[..|guards| - 1], share);
    }
  }

  /** The account of a node whose guards were all reserved under registration `reg`, out of `ceiling`. */
  ghost predicate Fixed(a: Account, reg: Registration, ceiling: u64) {
    && a.reg == reg && a.Allocator().limit == ceiling
    && AllShares(a.Allocator().guards, reg.Share())
    && Sum(a.Allocator().guards) <= ceiling
  }

  lemma SharesWithout(guards: seq<u64>, share: u64, g: nat)
    requires AllShares(guards, share) && g < |guards|
    ensures AllShares(Without(guards, g), share)
  {
    forall i | 0 <= i < |guards| - 1
      ensures Without(guards, g)[i] == share
    {
      assert Without(guards, g)[i] == guards[if i < g then i else i + 1];
    }
  }

  lemma FixedStep(a: Account, reg: Registration, ceiling: u64, e: Event)
    requires Fixed(a, reg, ceiling) && !e.Register?
    ensures Fixed(Next(a, e), reg, ceiling)
  {
    StepStaysWithin(a, e);
    hide Registration.Share, Sum, Without;
    match e
    case Ask =>
    case Release(g) =>
      if a.pool.Some? && g < |a.pool.value.guards| {
        SharesWithout(a.pool.value.guards, reg.Share(), g);
      }
  }

  lemma {:induction false} FixedRun(a: Account, reg: Registration, ceiling: u64, events: seq<Event>)
    requires Fixed(a, reg, ceiling)
    requires NoRegister(events)
    ensures Fixed(Run(a, events), reg, ceiling)
    decreases |events|
  {
    if events != [] {
      FixedStep(a, reg, ceiling, events[0]);
      FixedRun(Next(a, events[0]), reg, ceiling, events[1..]);
    }
  }

  lemma Times(a: nat, b: nat, c: nat)
    requires a <= b
    ensures a * c <= b * c
  {}

  /**
  The limit divided by the slots, of which there is always one at least, rounded down; and one byte
  where that is none.
  */
  predicate IsShare(g: int, limit: int, maxConnections: int) {
    var m := if maxConnections <= 1 then 1 else maxConnections;
    if limit >= m then g * m <= limit < (g + 1) * m else g == 1
  }

  lemma ShareIsQuotient(reg: Registration)
    ensures IsShare(reg.Share(), reg.limit, reg.maxConnections)
  {
    var m := reg.Slots();
    var q := reg.limit / m;
    assert reg.limit == q * m + reg.limit % m;
    assert (q + 1) * m == q * m + m;
    if reg.limit >= m {
      assert q >= 1;
    }
  }

  /** What `k` shares of a limit can come to. */
  lemma ShareArithmetic(g: nat, limit: nat, maxConnections: nat, k: nat)
    requires g >= 1 && IsShare(g, limit, maxConnections) && k * g <= limit
    ensures (k + 1) * g == k * g + g
    ensures var m := if maxConnections <= 1 then 1 else maxConnections;
            && (limit >= m ==> k < 2 * m && (k < m ==> (k + 1) * g <= limit))
            && (limit < m ==> g == 1)
  {
    var m := if maxConnections <= 1 then 1 else maxConnections;
    assert (g + 1) * m == g * m + m;
    if limit >= m {
      Enough(limit, m, g, k);
    }
  }

  lemma Enough(limit: nat, slots: nat, share: nat, k: nat)
    requires share >= 1 && k * share <= limit && share * slots <= limit < share * slots + slots
    ensures k < 2 * slots && (k < slots ==> (k + 1) * share <= limit)
  {
    Times(1, share, slots);
    if k >= 2 * slots {
      Times(2 * slots, k, share);
    }
    if k < slots {
      Times(k + 1, slots, share);
    }
  }

  /**
  With a fixed registration every guard is one share, and a node with k of them outstanding grants
  another exactly when k + 1 shares fit its limit.  So if the limit gives each of the m slots at least
  one byte, all the slots can be filled and twice as many never are; and if it does not, exactly
  `limit` connections are admitted.
  */
  lemma SlotBounds(reg: Registration, events: seq<Event>)
    requires NoRegister(events)
    ensures var a := Run(Account(reg, None), events);
            var guards, m := a.Allocator().guards, if reg.maxConnections <= 1 then 1 else reg.maxConnections;
            && (forall i :: 0 <= i < |guards| ==> IsShare(guards[i], reg.limit, reg.maxConnections))
            && (a.Grants() <==> (|guards| + 1) * reg.Share() <= reg.limit)
            && (reg.limit >= m ==> |guards| < 2 * m && (|guards| < m ==> a.Grants()))
            && (reg.limit < m ==> |guards| <= reg.limit && (a.Grants() <==> |guards| < reg.limit))
  {
    FixedRun(Account(reg, None), reg, reg.limit, events);
    ShareIsQuotient(reg);
    hide Registration.Share, Registration.Slots, Run, IsShare, Sum;
    var guards := Run(Account(reg, None), events).Allocator().guards;
    SumOfShares(guards, reg.Share());
    ShareArithmetic(reg.Share(), reg.limit, reg.maxConnections, |guards|);
  }

  /** And they can be outstanding: with a byte for each, m asks fill the m slots. */
  lemma SlotsCanBeFilled(reg: Registration)
    requires reg.limit >= 1 && reg.limit >= reg.maxConnections
    ensures var m := if reg.maxConnections <= 1 then 1 else reg.maxConnections;
            |Run(Account(reg, None), Asks(m)).Allocator().guards| == m
  {
    FilledBy(reg, if reg.maxConnections <= 1 then 1 else reg.maxConnections);
  }

  lemma {:induction false} FilledBy(reg: Registration, k: nat)
    requires reg.limit >= 1 && reg.limit >= reg.maxConnections
    requires k <= if reg.maxConnections <= 1 then 1 else reg.maxConnections
    ensures |Run(Account(reg, None), Asks(k)).Allocator().guards| == k
  {
    var a := Account(reg, None);
    if k > 0 {
      FilledBy(reg, k - 1);
      SlotBounds(reg, Asks(k - 1));
      assert Asks(k) == Asks(k - 1) + [Ask];
      RunAppends(a, Asks(k - 1), [Ask]);
      var b := Run(a, Asks(k - 1));
      assert Run(b, [Ask]) == Next(b, Ask);
    }
  }

  // ----- a registration after the first -----

  /** What is left of the guards after some releases. */
  function Left(guards: seq<u64>, drops: seq<nat>): seq<u64> {
    if drops == [] then guards
    else
      var left, g := Left(guards, drops[..|drops| - 1]), drops[|drops| - 1];
      if g < |left| then Without(left, g) else left
  }

  function Copies(k: nat, share: u64): (guards: seq<u64>)
    ensures |guards| == k && AllShares(guards, share)
  {
    seq(k, _ => share)
  }

  /** The most that `limit` has room for, in whole shares, with `total` reserved otherwise. */
  function Peak(limit: int, total: int, share: int): int
    requires share >= 1
  {
    total + (limit - total) / share * share
  }

  /** Since the registration: old guards are only released, new ones are all of one share. */
  ghost predicate Shape(a: Account, reg: Registration, p: Pool, drops: seq<nat>, k: nat) {
    a == Account(reg, Some(Pool(p.limit, Left(p.guards, drops) + Copies(k, reg.Share()))))
  }

  lemma ReleaseShape(a: Account, reg: Registration, p: Pool, drops: seq<nat>, k: nat, g: nat)
    returns (drops': seq<nat>, k': nat)
    requires Shape(a, reg, p, drops, k)
    ensures Shape(Next(a, Event.Release(g)), reg, p, drops', k')
  {
    hide Registration.Share;
    var left := Left(p.guards, drops);
    drops', k' := drops, k;
    if g < |left| {
      drops' := drops + [g];
      assert drops'[..|drops|] == drops;
      assert Without(left + Copies(k, reg.Share()), g) == Without(left, g) + Copies(k, reg.Share());
    } else if g < |left| + k {
      k' := k - 1;
      assert Without(left + Copies(k, reg.Share()), g) == left + Copies(k - 1, reg.Share());
    }
  }

  lemma {:induction false} RunShape(a: Account, reg: Registration, p: Pool, drops: seq<nat>, k: nat, events: seq<Event>)
    returns (drops': seq<nat>, k': nat)
    requires Shape(a, reg, p, drops, k)
    requires NoRegister(events)
    ensures Shape(Run(a, events), reg, p, drops', k')
    decreases |events|
  {
    drops', k' := drops, k;
    if events != [] {
      match events[0] {
        case Ask =>
          if a.Grants() {
            k' := k + 1;
            var left := Left(p.guards, drops);
            assert left + Copies(k, reg.Share()) + [reg.Share()] == left + Copies(k + 1, reg.Share());
          }
        case Release(g) => drops', k' := ReleaseShape(a, reg, p, drops, k, g);
      }
      hide Shape;
      drops', k' := RunShape(Next(a, events[0]), reg, p, drops', k', events[1..]);
    }
  }

  lemma {:induction false} SumConcat(a: seq<u64>, b: seq<u64>)
    ensures Sum(a + b) == Sum(a) + Sum(b)
  {
    if b == [] {
      assert a + b == a;
    } else {
      var n := |b| - 1;
      SumConcat(a, b[..n]);
      assert a + b == (a + b[..n]) + [b[n]];
      SumAppend(a + b[..n], b[n]);
    }
  }

  lemma Whole(room: nat, share: nat, k: nat)
    requires share >= 1
    ensures k * share <= room <==> k <= room / share
    ensures 0 <= room / share * share <= room
  {
    var q := room / share;
    assert room == q * share + room % share;
    if k <= q {
      Times(k, q, share);
    } else {
      Times(q + 1, k, share);
      assert (q + 1) * share == q * share + share;
    }
  }

  /** No run gets beyond the peak over what it leaves of the old guards. */
  lemma StaysUnderPeak(reg: Registration, p: Pool, events: seq<Event>) returns (drops: seq<nat>)
    requires Sum(p.guards) <= p.limit
    requires NoRegister(events)
    ensures Sum(Run(Account(reg, Some(p)), events).Allocator().guards)
            <= Peak(p.limit, Sum(Left(p.guards, drops)), reg.Share())
  {
    var a, share := Account(reg, Some(p)), reg.Share();
    hide Registration.Share;
    assert p.guards + Copies(0, share) == p.guards;
    var k;
    drops, k := RunShape(a, reg, p, [], 0, events);
    RunStaysWithin(a, events);
    var left := Left(p.guards, drops);
    SumConcat(left, Copies(k, share));
    SumOfShares(Copies(k, share), share);
    hide Run, Left, Sum;
    UnderPeak(p.limit, Sum(left), share, k);
  }

  lemma UnderPeak(limit: nat, total: nat, share: nat, k: nat)
    requires share >= 1 && total + k * share <= limit
    ensures total + k * share <= Peak(limit, total, share)
  {
    Times(0, k, share);
    Whole(limit - total, share, k);
    Times(k, (limit - total) / share, share);
  }

  function Asks(n: nat): (events: seq<Event>)
    ensures |events| == n && forall i :: 0 <= i < n ==> events[i].Ask?
  {
    seq(n, _ => Ask)
  }

  function Releases(drops: seq<nat>): (events: seq<Event>)
    ensures |events| == |drops| && forall i :: 0 <= i < |drops| ==> events[i] == Event.Release(drops[i])
  {
    seq(|drops|, i requires 0 <= i < |drops| => Event.Release(drops[i]))
  }

  lemma {:induction false} RunAppends(a: Account, first: seq<Event>, second: seq<Event>)
    ensures Run(a, first + second) == Run(Run(a, first), second)
    decreases |first|
  {
    if first == [] {
      assert first + second == second;
    } else {
      RunAppends(Next(a, first[0]), first[1..], second);
      assert (first + second)[1..] == first[1..] + second;
    }
  }

  lemma {:induction false} ReleasesLeave(reg: Registration, p: Pool, drops: seq<nat>)
    ensures Run(Account(reg, Some(p)), Releases(drops)) == Account(reg, Some(Pool(p.limit, Left(p.guards, drops))))
  {
    var a := Account(reg, Some(p));
    if drops != [] {
      var n := |drops| - 1;
      ReleasesLeave(reg, p, drops[..n]);
      assert Releases(drops) == Releases(drops[..n]) + [Event.Release(drops[n])];
      RunAppends(a, Releases(drops[..n]), [Event.Release(drops[n])]);
      var b := Run(a, Releases(drops[..n]));
      assert Run(b, [Event.Release(drops[n])]) == Next(b, Event.Release(drops[n]));
    }
  }

  lemma {:induction false} AsksFill(a: Account, n: nat)
    requires a.pool.Some? && Sum(a.pool.value.guards) + n * a.reg.Share() <= a.pool.value.limit
    ensures Sum(Run(a, Asks(n)).Allocator().guards) == Sum(a.pool.value.guards) + n * a.reg.Share()
    decreases n
  {
    hide Registration.Share;
    var share := a.reg.Share();
    if n > 0 {
      assert n * share == (n - 1) * share + share;
      Times(0, n - 1, share);
      assert a.Grants();
      SumAppend(a.pool.value.guards, share);
      AsksFill(Next(a, Ask), n - 1);
      assert Asks(n)[1..] == Asks(n - 1);
    }
  }

  lemma UpToPeak(limit: nat, total: nat, share: nat) returns (n: nat)
    requires share >= 1 && total <= limit
    ensures total + n * share == Peak(limit, total, share) <= limit
  {
    n := (limit - total) / share;
    Whole(limit - total, share, n);
  }

  /** And every such peak is reached: by those releases, and then as many asks as are granted. */
  lemma PeakIsReached(reg: Registration, p: Pool, drops: seq<nat>) returns (events: seq<Event>)
    requires Sum(p.guards) <= p.limit
    ensures NoRegister(events)
    ensures Sum(Run(Account(reg, Some(p)), events).Allocator().guards)
            == Peak(p.limit, Sum(Left(p.guards, drops)), reg.Share())
  {
    var a, share := Account(reg, Some(p)), reg.Share();
    hide Registration.Share;
    ReleasesLeave(reg, p, drops);
    RunStaysWithin(a, Releases(drops));
    hide Run, Left, Sum, Peak;
    var n := UpToPeak(p.limit, Sum(Left(p.guards, drops)), share);
    events := Releases(drops) + Asks(n);
    RunAppends(a, Releases(drops), Asks(n));
    AsksFill(Run(a, Releases(drops)), n);
  }

  /** With these of the old guards released, all that the ceiling has room for is within the new limit. */
  predicate PeakFits(reg: Registration, p: Pool, drops: seq<nat>) {
    Peak(p.limit, Sum(Left(p.guards, drops)), reg.Share()) <= reg.limit
  }

  ghost predicate KeepsWithin(reg: Registration, p: Pool, limit: int) {
    forall events: seq<Event> :: NoRegister(events) ==>
      Sum(Run(Account(reg, Some(p)), events).Allocator().guards) <= limit
  }

  /**
  A node that registers anew, with whatever guards outstanding on its old ceiling, keeps within its new
  limit over all asks and releases from then on exactly when, whichever of the old guards are left, the
  whole new shares that the old ceiling has room for beside them fit the new limit with them.
  */
  lemma NewLimitHoldsIff(reg: Registration, p: Pool)
    requires Sum(p.guards) <= p.limit
    ensures KeepsWithin(reg, p, reg.limit)
            <==> forall drops: seq<nat> :: PeakFits(reg, p, drops)
  {
    hide Registration.Share, Peak, Run, Left, Sum;
    if KeepsWithin(reg, p, reg.limit) {
      forall drops: seq<nat>
        ensures PeakFits(reg, p, drops)
      {
        var events := PeakIsReached(reg, p, drops);
      }
    }
    if forall drops: seq<nat> :: PeakFits(reg, p, drops) {
      forall events: seq<Event> | NoRegister(events)
        ensures Sum(Run(Account(reg, Some(p)), events).Allocator().guards) <= reg.limit
      {
        var drops := StaysUnderPeak(reg, p, events);
        assert PeakFits(reg, p, drops);
      }
    }
  }

  lemma {:induction false} NothingLeft(drops: seq<nat>)
    ensures Left([], drops) == []
  {
    if drops != [] {
      NothingLeft(drops[..|drops| - 1]);
    }
  }

  /** With nothing reserved there is one peak only. */
  lemma FreshLimitHoldsIff(reg: Registration, ceiling: u64)
    ensures KeepsWithin(reg, Pool(ceiling, []), reg.limit) <==> ceiling / reg.Share() * reg.Share() <= reg.limit
  {
    hide Registration.Share, KeepsWithin;
    NewLimitHoldsIff(reg, Pool(ceiling, []));
    forall drops: seq<nat>
      ensures PeakFits(reg, Pool(ceiling, []), drops) <==> ceiling / reg.Share() * reg.Share() <= reg.limit
    {
      NothingLeft(drops);
    }
    assert PeakFits(reg, Pool(ceiling, []), []) <==> ceiling / reg.Share() * reg.Share() <= reg.limit;
  }
}
