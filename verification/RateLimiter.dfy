/**
The leaky-bucket limiter that throttles a live connection.  Tokens and times are exact reals, and
every call is handed the clock reading that the implementation takes for itself.
*/
module RateLimiting {

  /** What a limiter remembers between calls. */
  datatype Bucket = Bucket(rate: real, capacity: real, tokens: real, last: real) {
    predicate Valid() {
      0.0 <= rate && 0.0 <= tokens <= capacity
    }
  }

  function Min(a: real, b: real): real {
    if a <= b then a else b
  }

  /** Tokens that flow in over `time` seconds. */
  function Inflow(rate: real, time: real): real {
    time * rate
  }

  lemma InflowIs(rate: real, time: real)
    ensures Inflow(rate, time) == rate * time
  {
  }

  lemma InflowSplits(rate: real, a: real, b: real, c: real)
    requires 0.0 <= rate && a <= b <= c
    ensures Inflow(rate, c - a) == Inflow(rate, b - a) + Inflow(rate, c - b)
    ensures Inflow(rate, b - a) >= 0.0 && Inflow(rate, c - b) >= 0.0
    ensures Inflow(rate, 0.0) == 0.0
  {}

  /** The refill: a clock reading before `last` counts as no time at all. */
  function Refilled(b: Bucket, now: real): Bucket {
    var elapsed := if now < b.last then 0.0 else now - b.last;
    b.(tokens := Min(b.tokens + Inflow(b.rate, elapsed), b.capacity), last := now)
  }

  datatype Call = Call(n: nat, at: real)

  function TakeOutcome(b: Bucket, c: Call): bool {
    Refilled(b, c.at).tokens >= c.n as real
  }

  function Take(b: Bucket, c: Call): Bucket {
    var r := Refilled(b, c.at);
    if TakeOutcome(b, c) then r.(tokens := r.tokens - c.n as real) else r
  }

  // ----- runs -----

  /** The bucket after a whole run of calls. */
  function After(b: Bucket, calls: seq<Call>): Bucket {
    if calls == [] then b
    else Take(After(b, calls[..|calls| - 1]), calls[|calls| - 1])
  }

  /** Clock readings that never go back, starting no earlier than `from`. */
  ghost predicate Ordered(from: real, calls: seq<Call>) {
    && (forall i :: 0 <= i < |calls| ==> from <= calls[i].at)
    && (forall i, j :: 0 <= i < j < |calls| ==> calls[i].at <= calls[j].at)
  }

  predicate LastGranted(b: Bucket, calls: seq<Call>)
    requires calls != []
  {
    TakeOutcome(After(b, calls[..|calls| - 1]), calls[|calls| - 1])
  }

  /** Tokens granted to calls made at a time in the closed window [from, to]. */
  function GrantedIn(b: Bucket, calls: seq<Call>, from: real, to: real): real {
    if calls == [] then 0.0
    else
      var c := calls[|calls| - 1];
      GrantedIn(b, calls[..|calls| - 1], from, to)
      + if from <= c.at <= to && LastGranted(b, calls) then c.n as real else 0.0
  }

  /** What the window [s, now] still allows: a full bucket and its share of the rate, less its grants. */
  function Room(b: Bucket, calls: seq<Call>, s: real, now: real): real {
    b.capacity + b.rate * (now - s) - GrantedIn(b, calls, s, now)
  }

  lemma RoomIs(b: Bucket, calls: seq<Call>, s: real, now: real)
    ensures Room(b, calls, s, now) == b.capacity + Inflow(b.rate, now - s) - GrantedIn(b, calls, s, now)
  {
  }

  function Headroom(b: Bucket, calls: seq<Call>, s: real): real {
    Room(b, calls, s, After(b, calls).last)
  }

  lemma {:induction false} AfterKeeps(b: Bucket, calls: seq<Call>)
    requires b.Valid() && Ordered(b.last, calls)
    ensures var e := After(b, calls);
            e.Valid() && e.rate == b.rate && e.capacity == b.capacity
    ensures var e := After(b, calls);
            e.last == if calls == [] then b.last else calls[|calls| - 1].at
  {
    if calls != [] {
      AfterKeeps(b, calls[..|calls| - 1]);
      RefillValid(After(b, calls[..|calls| - 1]), calls[|calls| - 1].at);
    }
  }

  lemma RefillValid(b: Bucket, now: real)
    requires b.Valid()
    ensures Refilled(b, now).Valid()
    ensures b.last <= now ==> Refilled(b, now).tokens == Min(b.tokens + Inflow(b.rate, now - b.last), b.capacity)
  {
    var elapsed := if now < b.last then 0.0 else now - b.last;
    assert Inflow(b.rate, elapsed) >= 0.0;
  }

  /** A clock that has gone back adds nothing and takes nothing away. */
  lemma EarlierReadingAddsNothing(b: Bucket, now: real)
    requires b.Valid() && now <= b.last
    ensures Refilled(b, now) == b.(last := now)
  {
    InflowSplits(b.rate, 0.0, 0.0, 0.0);
  }

  /** Calls all made by `end`: where the window closes beyond that does not matter. */
  lemma {:induction false} ClosedLater(b: Bucket, calls: seq<Call>, from: real, end: real, later: real)
    requires forall i :: 0 <= i < |calls| ==> calls[i].at <= end
    requires end <= later
    ensures GrantedIn(b, calls, from, end) == GrantedIn(b, calls, from, later)
  {
    if calls != [] {
      ClosedLater(b, calls[..|calls| - 1], from, end, later);
    }
  }

  lemma {:induction false} NothingOutside(b: Bucket, calls: seq<Call>, from: real, to: real)
    requires forall i :: 0 <= i < |calls| ==> calls[i].at < from
    ensures GrantedIn(b, calls, from, to) == 0.0
  {
    if calls != [] {
      NothingOutside(b, calls[..|calls| - 1], from, to);
    }
  }

  /** How a window's headroom moves over one more call. */
  lemma HeadroomStep(b: Bucket, calls: seq<Call>, s: real)
    requires calls != [] && b.Valid() && Ordered(b.last, calls)
    requires s <= calls[|calls| - 1].at
    ensures var prefix, c := calls[..|calls| - 1], calls[|calls| - 1];
            var paid := if LastGranted(b, calls) then c.n as real else 0.0;
            Headroom(b, calls, s)
            == Headroom(b, prefix, s) + Inflow(b.rate, c.at - After(b, prefix).last) - paid
  {
    var prefix, c := calls[..|calls| - 1], calls[|calls| - 1];
    AfterKeeps(b, calls);
    AfterKeeps(b, prefix);
    var mid := After(b, prefix).last;
    ClosedLater(b, prefix, s, mid, c.at);
    assert Inflow(b.rate, c.at - s) == Inflow(b.rate, c.at - mid) + Inflow(b.rate, mid - s);
    RoomIs(b, calls, s, c.at);
    RoomIs(b, prefix, s, mid);
    hide Inflow, Room;
  }

  /** The tokens left are within the headroom of every window, and equal to that of one. */
  lemma {:induction false} TightWindow(b: Bucket, calls: seq<Call>) returns (s: real)
    requires b.Valid() && b.tokens == b.capacity && Ordered(b.last, calls)
    ensures var e := After(b, calls);
            b.last <= s <= e.last && e.tokens == Headroom(b, calls, s)
    ensures forall w :: b.last <= w <= After(b, calls).last ==> After(b, calls).tokens <= Headroom(b, calls, w)
  {
    hide Inflow, Room;
    AfterKeeps(b, calls);
    InflowSplits(b.rate, 0.0, 0.0, 0.0);
    if calls == [] {
      s := b.last;
      RoomIs(b, calls, s, s);
      assert forall w {:trigger Headroom(b, calls, w)} :: b.last <= w <= b.last ==> w == b.last;
    } else {
      var prefix, c := calls[..|calls| - 1], calls[|calls| - 1];
      var p := After(b, prefix);
      s := TightWindow(b, prefix);
      AfterKeeps(b, prefix);
      RefillValid(p, c.at);
      forall w | b.last <= w <= c.at
        ensures After(b, calls).tokens <= Headroom(b, calls, w)
      {
        HeadroomStep(b, calls, w);
        if p.last < w {
          LateWindow(b, calls, w);
        }
      }
      if Refilled(p, c.at).tokens == p.tokens + Inflow(b.rate, c.at - p.last) {
        HeadroomStep(b, calls, s);
      } else {
        s := c.at;
        assert p.last < c.at;
        LateWindow(b, calls, s);
      }
    }
  }

  /** A window that opens after every call but the last one has seen at most the last one. */
  lemma LateWindow(b: Bucket, calls: seq<Call>, w: real)
    requires calls != [] && b.Valid() && Ordered(b.last, calls)
    requires After(b, calls[..|calls| - 1]).last < w <= calls[|calls| - 1].at
    ensures var c := calls[|calls| - 1];
            Headroom(b, calls, w)
            == b.capacity + Inflow(b.rate, c.at - w) - if LastGranted(b, calls) then c.n as real else 0.0
    ensures Inflow(b.rate, calls[|calls| - 1].at - w) >= 0.0
  {
    hide Inflow, Room;
    var prefix := calls[..|calls| - 1];
    AfterKeeps(b, calls);
    AfterKeeps(b, prefix);
    NothingOutside(b, prefix, w, calls[|calls| - 1].at);
    RoomIs(b, calls, w, calls[|calls| - 1].at);
    InflowSplits(b.rate, w, w, calls[|calls| - 1].at);
  }

  /**
  The bucket is exact: after any run, the tokens left are the least headroom over every window that
  ends now.
  */
  lemma BucketIsExact(b: Bucket, calls: seq<Call>)
    requires b.Valid() && b.tokens == b.capacity && Ordered(b.last, calls)
    ensures var e := After(b, calls);
            && (forall s :: b.last <= s <= e.last ==> e.tokens <= Headroom(b, calls, s))
            && (exists s :: b.last <= s <= e.last && e.tokens == Headroom(b, calls, s))
  {
    var s := TightWindow(b, calls);
  }

  lemma {:induction false} NoWindowExceedsInflow(b: Bucket, calls: seq<Call>, from: real, to: real)
    requires b.Valid() && b.tokens == b.capacity && Ordered(b.last, calls)
    requires from <= to
    ensures GrantedIn(b, calls, from, to) <= b.capacity + Inflow(b.rate, to - from)
  {
    hide Inflow, Room;
    InflowSplits(b.rate, from, from, to);
    if calls != [] {
      var prefix, c := calls[..|calls| - 1], calls[|calls| - 1];
      if to < c.at || c.at < from {
        NoWindowExceedsInflow(b, prefix, from, to);
      } else {
        AfterKeeps(b, calls);
        var s := if from < b.last then b.last else from;
        var tight := TightWindow(b, calls);
        ClosedLater(b, calls, from, c.at, to);
        OpensEarlier(b, calls, from, s, c.at);
        assert 0.0 <= After(b, calls).tokens <= Headroom(b, calls, s);
        RoomIs(b, calls, s, c.at);
        InflowSplits(b.rate, s, c.at, to);
        InflowSplits(b.rate, from, s, to);
      }
    }
  }

  /** No closed window of a run is ever granted more than a full bucket plus its share of the rate. */
  lemma NoWindowExceeds(b: Bucket, calls: seq<Call>, from: real, to: real)
    requires b.Valid() && b.tokens == b.capacity && Ordered(b.last, calls)
    requires from <= to
    ensures GrantedIn(b, calls, from, to) <= b.capacity + b.rate * (to - from)
  {
    hide *;
    NoWindowExceedsInflow(b, calls, from, to);
    InflowIs(b.rate, to - from);
  }

  lemma {:induction false} OpensEarlier(b: Bucket, calls: seq<Call>, from: real, s: real, to: real)
    requires from <= s && forall i :: 0 <= i < |calls| ==> from <= calls[i].at < s ==> false
    ensures GrantedIn(b, calls, from, to) == GrantedIn(b, calls, s, to)
  {
    if calls != [] {
      OpensEarlier(b, calls[..|calls| - 1], from, s, to);
    }
  }

  /** A take is refused exactly when granting it would push some window over its bound. */
  lemma RefusedIffSomeWindowFull(b: Bucket, calls: seq<Call>, c: Call)
    requires b.Valid() && b.tokens == b.capacity && Ordered(b.last, calls + [c])
    ensures !TakeOutcome(After(b, calls), c)
            <==> exists s :: b.last <= s <= c.at && Room(b, calls, s, c.at) < c.n as real
  {
    hide Inflow, GrantedIn, After, Room;
    var tight := RefilledIsTight(b, calls, c);
  }

  /** A take of nothing is always granted and only refills, so its windows measure the refilled level. */
  lemma RefilledIsTight(b: Bucket, calls: seq<Call>, c: Call) returns (tight: real)
    requires b.Valid() && b.tokens == b.capacity && Ordered(b.last, calls + [c])
    ensures var level := Refilled(After(b, calls), c.at).tokens;
            && b.last <= tight <= c.at
            && level == Room(b, calls, tight, c.at)
            && forall s :: b.last <= s <= c.at ==> level <= Room(b, calls, s, c.at)
  {
    hide Inflow, GrantedIn, Room;
    var probe := calls + [Call(0, c.at)];
    OrderedProbe(b.last, calls, c);
    tight := TightWindow(b, probe);
    ProbeRefills(b, calls, c, tight);
    forall s | b.last <= s <= c.at
      ensures Refilled(After(b, calls), c.at).tokens <= Room(b, calls, s, c.at)
    {
      ProbeRefills(b, calls, c, s);
      assert After(b, probe).tokens <= Headroom(b, probe, s);
    }
  }

  lemma ProbeRefills(b: Bucket, calls: seq<Call>, c: Call, s: real)
    requires b.Valid() && Ordered(b.last, calls)
    ensures var probe := calls + [Call(0, c.at)];
            After(b, probe) == Refilled(After(b, calls), c.at) && Headroom(b, probe, s) == Room(b, calls, s, c.at)
  {
    hide Inflow, Room;
    var probe := calls + [Call(0, c.at)];
    assert probe[..|calls|] == calls;
    AfterKeeps(b, calls);
    RefillValid(After(b, calls), c.at);
    hide Refilled;
    assert GrantedIn(b, probe, s, c.at) == GrantedIn(b, calls, s, c.at);
    RoomIs(b, calls, s, c.at);
    RoomIs(b, probe, s, c.at);
  }

  lemma OrderedProbe(from: real, calls: seq<Call>, c: Call)
    requires Ordered(from, calls + [c])
    ensures Ordered(from, calls) && Ordered(from, calls + [Call(0, c.at)])
    ensures forall i :: 0 <= i < |calls| ==> calls[i].at <= c.at
  {
    assert forall i :: 0 <= i < |calls| ==> calls[i] == (calls + [c])[i];
    assert (calls + [c])[|calls|] == c;
  }

  // ----- failed calls leave no trace -----

  /** The calls of a run that were granted. */
  function Kept(b: Bucket, calls: seq<Call>): seq<Call> {
    if calls == [] then []
    else Kept(b, calls[..|calls| - 1]) + if LastGranted(b, calls) then [calls[|calls| - 1]] else []
  }

  lemma RefillTwice(b: Bucket, t: real, u: real)
    requires b.Valid() && b.last <= t <= u
    ensures Refilled(Refilled(b, t), u) == Refilled(b, u)
  {
    InflowSplits(b.rate, b.last, t, u);
  }

  /**
  Lazy refill equals eager refill: a run stripped of its failed calls grants every call it keeps, and
  from then on answers every call as the full run does and is left in the very same state by it.
  */
  lemma {:induction false} FailedCallsLeaveNoTrace(b: Bucket, calls: seq<Call>, c: Call)
    requires b.Valid() && Ordered(b.last, calls + [c])
    ensures Take(After(b, Kept(b, calls)), c) == Take(After(b, calls), c)
    ensures TakeOutcome(After(b, Kept(b, calls)), c) == TakeOutcome(After(b, calls), c)
    ensures Kept(b, Kept(b, calls)) == Kept(b, calls)
  {
    assert forall i :: 0 <= i < |calls| ==> calls[i] == (calls + [c])[i];
    assert c == (calls + [c])[|calls|];
    SameLevel(b, calls, c.at);
  }

  lemma {:induction false} SameLevel(b: Bucket, calls: seq<Call>, t: real)
    requires b.Valid() && Ordered(b.last, calls)
    requires After(b, calls).last <= t
    ensures Refilled(After(b, Kept(b, calls)), t) == Refilled(After(b, calls), t)
    ensures After(b, Kept(b, calls)).last <= t
    ensures Kept(b, Kept(b, calls)) == Kept(b, calls)
  {
    hide Inflow;
    AfterKeeps(b, calls);
    if calls != [] {
      var prefix, c := calls[..|calls| - 1], calls[|calls| - 1];
      var kept := Kept(b, prefix);
      AfterKeeps(b, prefix);
      SameLevel(b, prefix, c.at);
      if LastGranted(b, calls) {
        assert (kept + [c])[..|kept|] == kept;
        assert After(b, kept + [c]) == After(b, calls);
      } else {
        assert Kept(b, calls) == kept;
        SameLevel(b, prefix, t);
        RefillTwice(After(b, prefix), c.at, t);
      }
    }
  }

  // ----- waiting -----

  /** How a call of the waiting loop stands once the given sleeps are over. */
  datatype Wait = Returned(tries: nat) | StillAsleep | Panicked

  /** The sleep the loop asks for after a refusal that left `b`. */
  function Requested(b: Bucket, n: nat): real
    requires b.rate > 0.0
  {
    var wait := (n as real - b.tokens) / b.rate;
    if wait < 0.001 then 0.001 else wait
  }

  /**
  The waiting loop, first tried at `now`; `slept` are the lengths its sleeps turn out to have.  At
  rate zero the sleep length is infinite, which the duration conversion answers with a panic.
  */
  function AcquireFrom(b: Bucket, n: nat, now: real, slept: seq<real>): (Wait, Bucket)
    decreases |slept|
  {
    var after := Take(b, Call(n, now));
    if TakeOutcome(b, Call(n, now)) then (Returned(1), after)
    else if b.rate == 0.0 then (Panicked, after)
    else if slept == [] then (StillAsleep, after)
    else
      var (w, e) := AcquireFrom(after, n, now + slept[0], slept[1..]);
      (if w.Returned? then Returned(w.tries + 1) else w, e)
  }

  /** Every sleep lasts at least as long as it was asked to. */
  ghost predicate SleepsFully(b: Bucket, n: nat, now: real, slept: seq<real>)
    requires b.rate > 0.0
    decreases |slept|
  {
    slept != [] && !TakeOutcome(b, Call(n, now)) ==>
      && Requested(Take(b, Call(n, now)), n) <= slept[0]
      && SleepsFully(Take(b, Call(n, now)), n, now + slept[0], slept[1..])
  }

  /** A request larger than the bucket is never served, however long and often the loop sleeps. */
  lemma {:induction false} OversizedNeverAcquires(b: Bucket, n: nat, now: real, slept: seq<real>)
    requires b.Valid() && n as real > b.capacity
    ensures !AcquireFrom(b, n, now, slept).0.Returned?
    decreases |slept|
  {
    RefillValid(b, now);
    if b.rate != 0.0 && slept != [] {
      OversizedNeverAcquires(Take(b, Call(n, now)), n, now + slept[0], slept[1..]);
    }
  }

  /**
  With sleeps of full length the loop returns exactly when the bucket can ever hold the request, and
  then by its second try.
  */
  lemma AcquireExactly(b: Bucket, n: nat, now: real, slept: seq<real>)
    requires b.Valid() && b.rate > 0.0 && b.last <= now
    requires slept != [] && SleepsFully(b, n, now, slept)
    ensures var w := AcquireFrom(b, n, now, slept).0;
            (w == Returned(1) || w == Returned(2)) <==> n as real <= b.capacity
    ensures AcquireFrom(b, n, now, slept).0.Returned? <==> n as real <= b.capacity
  {
    if n as real > b.capacity {
      OversizedNeverAcquires(b, n, now, slept);
    } else if !TakeOutcome(b, Call(n, now)) {
      SecondTrySucceeds(b, n, now, slept[0]);
    }
  }

  lemma SecondTrySucceeds(b: Bucket, n: nat, now: real, slept: real)
    requires b.Valid() && b.rate > 0.0 && b.last <= now && n as real <= b.capacity
    requires !TakeOutcome(b, Call(n, now)) && Requested(Take(b, Call(n, now)), n) <= slept
    ensures TakeOutcome(Take(b, Call(n, now)), Call(n, now + slept))
  {
    var r := Take(b, Call(n, now));
    RefillValid(b, now);
    var missing := n as real - r.tokens;
    InflowSplits(r.rate, 0.0, missing / r.rate, slept);
    assert Inflow(r.rate, missing / r.rate) == missing;
    RefillValid(r, now + slept);
  }

  /**
  The sleep asked for is the least one that will do: of all sleeps of a millisecond or more, exactly
  those that are at least that long let the next try succeed.
  */
  lemma RequestedIsLeast(b: Bucket, n: nat, now: real, slept: real)
    requires b.Valid() && b.rate > 0.0 && b.last <= now && n as real <= b.capacity
    requires !TakeOutcome(b, Call(n, now)) && slept >= 0.001
    ensures Requested(Take(b, Call(n, now)), n) >= 0.001
    ensures TakeOutcome(Take(b, Call(n, now)), Call(n, now + slept)) <==> Requested(Take(b, Call(n, now)), n) <= slept
  {
    var r := Take(b, Call(n, now));
    RefillValid(b, now);
    if Requested(r, n) <= slept {
      SecondTrySucceeds(b, n, now, slept);
    } else {
      RefillValid(r, now + slept);
      TooShort(r, n, slept);
      hide Inflow, Requested;
    }
  }

  lemma TooShort(b: Bucket, n: nat, slept: real)
    requires b.rate > 0.0 && 0.001 <= slept < Requested(b, n)
    ensures b.tokens + Inflow(b.rate, slept) < n as real
  {
    var missing := n as real - b.tokens;
    assert missing / b.rate * b.rate == missing;
    Slower(b.rate, slept, missing / b.rate);
  }

  lemma Slower(rate: real, a: real, b: real)
    requires rate > 0.0 && a < b
    ensures a * rate < b * rate
  {
  }

  /** The takes that the loop comes to with these sleeps between them. */
  function Attempts(n: nat, now: real, slept: seq<real>): (calls: seq<Call>)
    ensures |calls| == |slept| + 1
    decreases |slept|
  {
    [Call(n, now)] + if slept == [] then [] else Attempts(n, now + slept[0], slept[1..])
  }

  predicate AllRefused(b: Bucket, calls: seq<Call>)
    decreases |calls|
  {
    calls == [] || (!TakeOutcome(b, calls[0]) && AllRefused(Take(b, calls[0]), calls[1..]))
  }

  /** All but the last of these takes are refused, the last is granted, and they leave `e`. */
  predicate ServedLast(b: Bucket, calls: seq<Call>, e: Bucket)
    requires calls != []
  {
    AllRefused(b, calls[..|calls| - 1]) && LastGranted(b, calls) && e == After(b, calls)
  }

  /**
  Waiting is nothing but taking again: it returns by its k-th try exactly when the takes that k - 1
  sleeps lead to are all refused but the last, it leaves the bucket as those takes do, and it panics
  exactly when the first take is refused at rate zero.
  */
  lemma {:induction false} WaitingIsTaking(b: Bucket, n: nat, now: real, slept: seq<real>)
    ensures var (w, e) := AcquireFrom(b, n, now, slept);
            && (w.Panicked? <==> b.rate == 0.0 && !TakeOutcome(b, Call(n, now)))
            && (w.Returned? ==> 1 <= w.tries <= |slept| + 1 && ServedLast(b, Attempts(n, now, slept[..w.tries - 1]), e))
            && (w.StillAsleep? ==> AllRefused(b, Attempts(n, now, slept)) && e == After(b, Attempts(n, now, slept)))
    decreases |slept|
  {
    var c, after := Call(n, now), Take(b, Call(n, now));
    OneTake(b, c);
    RateIsKept(b, c);
    hide Take, TakeOutcome, ServedLast;
    if TakeOutcome(b, c) {
      assert slept[..0] == [] && Attempts(n, now, slept[..0]) == [c];
    } else if b.rate != 0.0 && slept != [] {
      WaitingIsTaking(after, n, now + slept[0], slept[1..]);
      var (w, e) := AcquireFrom(after, n, now + slept[0], slept[1..]);
      if w.Returned? {
        var k := w.tries;
        assert slept[..k][1..] == slept[1..][..k - 1] && slept[..k][0] == slept[0];
        ServedLater(b, c, Attempts(n, now + slept[0], slept[1..][..k - 1]), e);
      } else if w.StillAsleep? {
        var rest := Attempts(n, now + slept[0], slept[1..]);
        AfterFirst(b, c, rest);
        assert ([c] + rest)[1..] == rest;
      }
    }
  }

  lemma RateIsKept(b: Bucket, c: Call)
    ensures Take(b, c).rate == b.rate
    ensures b.rate == 0.0 && !TakeOutcome(b, c) ==> !TakeOutcome(Take(b, c), c)
  {
  }

  lemma OneTake(b: Bucket, c: Call)
    ensures After(b, [c]) == Take(b, c)
    ensures TakeOutcome(b, c) ==> ServedLast(b, [c], Take(b, c))
    ensures !TakeOutcome(b, c) ==> AllRefused(b, [c])
  {
    hide Take, TakeOutcome;
    assert [c][..0] == [] && [c][1..] == [];
    assert After(b, []) == b;
  }

  lemma {:induction false} AfterFirst(b: Bucket, c: Call, calls: seq<Call>)
    ensures After(b, [c] + calls) == After(Take(b, c), calls)
  {
    hide Take;
    if calls == [] {
      assert [c] + calls == [c] && [c][..0] == [];
      assert After(b, []) == b;
    } else {
      var n := |calls| - 1;
      AfterFirst(b, c, calls[..n]);
      assert ([c] + calls)[..n + 1] == [c] + calls[..n];
    }
  }

  /** A refused take before changes nothing. */
  lemma ServedLater(b: Bucket, c: Call, rest: seq<Call>, e: Bucket)
    requires rest != [] && !TakeOutcome(b, c) && ServedLast(Take(b, c), rest, e)
    ensures ServedLast(b, [c] + rest, e)
  {
    hide Take, TakeOutcome;
    var n := |rest| - 1;
    var calls := [c] + rest;
    AfterFirst(b, c, rest);
    AfterFirst(b, c, rest[..n]);
    assert calls[..n + 1] == [c] + rest[..n];
    assert calls[..n + 1][1..] == rest[..n];
  }

  class RateLimiter {
    const rate: real
    const capacity: real
    var tokens: real
    var last: real

    ghost function State(): Bucket
      reads this
    {
      Bucket(rate, capacity, tokens, last)
    }

    constructor (rate: nat, capacity: nat, now: real)
      ensures State().Valid() && tokens == this.capacity == capacity as real
      ensures this.rate == rate as real && last == now
    {
      this.rate, this.capacity := rate as real, capacity as real;
      tokens, last := capacity as real, now;
    }

    method Refill(now: real)
      modifies this
      ensures State() == Refilled(old(State()), now)
    {
      var elapsed := if now < last then 0.0 else now - last;
      last := now;
      var added := elapsed * rate;
      tokens := Min(tokens + added, capacity);
    }

    method TryTake(n: nat, now: real) returns (ok: bool)
      modifies this
      ensures ok == TakeOutcome(old(State()), Call(n, now))
      ensures State() == Take(old(State()), Call(n, now))
    {
      Refill(now);
      ok := tokens >= n as real;
      if ok {
        tokens := tokens - n as real;
      }
    }

    /** The waiting loop, observed until the sleeps in `slept` are used up. */
    method Acquire(n: nat, start: real, slept: seq<real>) returns (w: Wait)
      modifies this
      ensures (w, State()) == AcquireFrom(old(State()), n, start, slept)
    {
      var now, i := start, 0;
      while true
        invariant 0 <= i <= |slept|
        invariant var (v, e) := AcquireFrom(State(), n, now, slept[i..]);
                  AcquireFrom(old(State()), n, start, slept)
                  == (if v.Returned? then Returned(v.tries + i) else v, e)
        decreases |slept| - i
      {
        var ok := TryTake(n, now);
        if ok {
          return Returned(i + 1);
        }
        if rate == 0.0 {
          return Panicked;
        }
        if i == |slept| {
          return StillAsleep;
        }
        assert slept[i..][1..] == slept[i + 1..];
        now := now + slept[i];
        i := i + 1;
      }
    }
  }
}
