/** The control plane service: the registry, the selector and the per-node bandwidth allocators. */
module Service {
  import opened Prelude
  import opened Bandwidth
  import opened Slots
  import opened Nodes
  import opened Registry
  import opened Routing
  import opened Lifecycle

  type Allocators = map<string, Pool>

  // ----- first fit in score order -----

  function Eligible(nodes: seq<Node>): seq<Node> {
    if nodes == [] then []
    else (if nodes[0].Selectable() then [nodes[0]] else []) + Eligible(nodes[1..])
  }

  function ShareOf(n: Node): u64 {
    Registration(n.bandwidthLimit, n.maxConnections).Share()
  }

  lemma ShareOfIs(n: Node)
    ensures IsShare(ShareOf(n), n.bandwidthLimit, n.maxConnections)
  {
    ShareIsQuotient(Registration(n.bandwidthLimit, n.maxConnections));
  }

  /** The allocator a node gets: the one it already has, else a new one at its present limit. */
  function PoolOf(allocators: Allocators, n: Node): Pool {
    if n.id in allocators then allocators[n.id] else Pool(n.bandwidthLimit, [])
  }

  predicate Fits(allocators: Allocators, n: Node) {
    Sum(PoolOf(allocators, n).guards) + ShareOf(n) <= PoolOf(allocators, n).limit
  }

  /** Try the nodes in order and reserve on the first that has room; allocators appear as they are tried. */
  function FirstFit(allocators: Allocators, nodes: seq<Node>): (Allocators, Option<Node>)
    decreases |nodes|
  {
    if nodes == [] then (allocators, None)
    else
      var n, p := nodes[0], PoolOf(allocators, nodes[0]);
      if Fits(allocators, n) then (allocators[n.id := p.(guards := p.guards + [ShareOf(n)])], Some(n))
      else FirstFit(allocators[n.id := p], nodes[1..])
  }

  ghost predicate DistinctIds(nodes: seq<Node>) {
    forall i, j :: 0 <= i < j < |nodes| ==> nodes[i].id != nodes[j].id
  }

  /** The first node with room, all of them judged by the same allocators. */
  function FirstRoom(allocators: Allocators, nodes: seq<Node>): (k: Option<nat>)
    ensures k.Some? ==> k.value < |nodes|
  {
    if nodes == [] then None
    else
      var n := |nodes| - 1;
      var prev := FirstRoom(allocators, nodes[..n]);
      if prev.Some? then prev else if Fits(allocators, nodes[n]) then Some(n) else None
  }

  lemma {:induction false} FirstRoomIsFirst(allocators: Allocators, nodes: seq<Node>)
    ensures var k := FirstRoom(allocators, nodes);
            && (k.None? ==> forall j :: 0 <= j < |nodes| ==> !Fits(allocators, nodes[j]))
            && (k.Some? ==>
                  Fits(allocators, nodes[k.value]) && forall j :: 0 <= j < k.value ==> !Fits(allocators, nodes[j]))
  {
    hide Fits;
    if nodes != [] {
      FirstRoomIsFirst(allocators, nodes[..|nodes| - 1]);
    }
  }

  lemma TryingChangesNoOther(allocators: Allocators, a: Node, b: Node)
    requires a.id != b.id
    ensures Fits(allocators[a.id := PoolOf(allocators, a)], b) == Fits(allocators, b)
  {
  }

  /** The allocators created on the way do not influence who is chosen. */
  lemma {:induction false} FirstFitTakesFirstRoom(allocators: Allocators, nodes: seq<Node>)
    requires DistinctIds(nodes)
    ensures FirstFit(allocators, nodes).1
            == var k := FirstRoom(allocators, nodes); if k.None? then None else Some(nodes[k.value])
    decreases |nodes|
  {
    hide Fits;
    FirstRoomIsFirst(allocators, nodes);
    if nodes != [] && !Fits(allocators, nodes[0]) {
      var tried, rest := allocators[nodes[0].id := PoolOf(allocators, nodes[0])], nodes[1..];
      forall j | 0 <= j < |rest|
        ensures Fits(tried, rest[j]) == Fits(allocators, nodes[j + 1])
      {
        TryingChangesNoOther(allocators, nodes[0], rest[j]);
      }
      FirstFitTakesFirstRoom(tried, rest);
      FirstRoomIsFirst(tried, rest);
      var k := FirstRoom(tried, rest);
      if k.Some? {
        assert Fits(allocators, nodes[k.value + 1]);
      }
      forall j | 0 < j < if k.Some? then k.value + 1 else |nodes|
        ensures !Fits(allocators, nodes[j])
      {
        assert !Fits(tried, rest[j - 1]);
      }
    }
  }

  /** One share is reserved, on the chosen node; nobody's reservations are otherwise touched. */
  lemma {:induction false} FirstFitReservesOnce(allocators: Allocators, nodes: seq<Node>, n: Node)
    ensures var (after, chosen) := FirstFit(allocators, nodes);
            PoolOf(after, n).guards
            == PoolOf(allocators, n).guards
               + if chosen.Some? && chosen.value.id == n.id then [ShareOf(chosen.value)] else []
    ensures n.id in allocators ==> PoolOf(FirstFit(allocators, nodes).0, n).limit == allocators[n.id].limit
    decreases |nodes|
  {
    hide Fits, ShareOf;
    if nodes != [] && !Fits(allocators, nodes[0]) {
      FirstFitReservesOnce(allocators[nodes[0].id := PoolOf(allocators, nodes[0])], nodes[1..], n);
    }
  }

  // ----- from the listing to the order of trial -----

  function Ids(nodes: seq<Node>): set<string> {
    set n | n in nodes :: n.id
  }

  /** An id at the head of a listing recurs in no selection of its rest. */
  lemma DistinctHead(nodes: seq<Node>, part: seq<Node>)
    requires nodes != [] && DistinctIds(nodes)
    requires forall n :: n in part ==> n in nodes[1..]
    ensures nodes[0].id !in Ids(part)
    ensures DistinctIds(part) ==> DistinctIds([nodes[0]] + part)
  {
    forall i | 0 <= i < |part|
      ensures part[i].id != nodes[0].id
    {
      assert part[i] in nodes[1..];
    }
  }

  lemma {:induction false} EligibleKeeps(nodes: seq<Node>)
    ensures forall n :: n in Eligible(nodes) <==> n in nodes && n.Selectable()
    ensures DistinctIds(nodes) ==> DistinctIds(Eligible(nodes))
  {
    if nodes != [] {
      EligibleKeeps(nodes[1..]);
      assert nodes == [nodes[0]] + nodes[1..];
      if DistinctIds(nodes) {
        DistinctHead(nodes, Eligible(nodes[1..]));
      }
    }
  }

  lemma {:induction false} InsertDistinct(n: Node, sorted: seq<Node>, w: ScoreWeights)
    ensures forall m :: m in Insert(n, sorted, w) <==> m == n || m in sorted
    ensures DistinctIds(sorted) && n.id !in Ids(sorted) ==> DistinctIds(Insert(n, sorted, w))
  {
    hide Score;
    if sorted == [] || Score(n, w) >= Score(sorted[0], w) {
      forall i | 0 <= i < |sorted| && n.id !in Ids(sorted)
        ensures sorted[i].id != n.id
      {
        assert sorted[i] in sorted;
      }
    } else {
      var rest := Insert(n, sorted[1..], w);
      InsertDistinct(n, sorted[1..], w);
      assert sorted == [sorted[0]] + sorted[1..];
      if DistinctIds(sorted) && n.id !in Ids(sorted) {
        assert n.id != sorted[0].id;
        forall i | 0 <= i < |rest|
          ensures rest[i].id != sorted[0].id
        {
          assert rest[i] == n || rest[i] in sorted[1..];
        }
      }
    }
  }

  lemma {:induction false} SortDistinct(nodes: seq<Node>, w: ScoreWeights)
    ensures forall m :: m in SortByScore(nodes, w) <==> m in nodes
    ensures DistinctIds(nodes) ==> DistinctIds(SortByScore(nodes, w))
  {
    hide Score;
    if nodes != [] {
      SortDistinct(nodes[1..], w);
      if DistinctIds(nodes) {
        DistinctHead(nodes, SortByScore(nodes[1..], w));
      }
      InsertDistinct(nodes[0], SortByScore(nodes[1..], w), w);
      assert nodes == [nodes[0]] + nodes[1..];
    }
  }

  /** The candidates of a selection, in the order they are tried. */
  function Candidates(nodes: seq<Node>, w: ScoreWeights): seq<Node> {
    SortByScore(Eligible(nodes), w)
  }

  lemma CandidatesAre(nodes: seq<Node>, w: ScoreWeights)
    requires DistinctIds(nodes)
    ensures forall n :: n in Candidates(nodes, w) <==> n in nodes && n.Selectable()
    ensures DistinctIds(Candidates(nodes, w)) && Descending(Candidates(nodes, w), w)
  {
    EligibleKeeps(nodes);
    SortDistinct(Eligible(nodes), w);
    SortIsStable(Eligible(nodes), w, 0.0);
  }

  /**
  Selection with bandwidth is first fit in score order: the chosen node had room, every selectable
  node that scores strictly higher was full, and nobody is chosen exactly when all were full.
  */
  lemma ChosenIsBestWithRoom(allocators: Allocators, nodes: seq<Node>, w: ScoreWeights)
    requires DistinctIds(nodes)
    ensures var chosen := FirstFit(allocators, Candidates(nodes, w)).1;
            && (chosen.None? <==> forall n :: n in nodes && n.Selectable() ==> !Fits(allocators, n))
            && (chosen.Some? ==>
                  && chosen.value in nodes && chosen.value.Selectable() && Fits(allocators, chosen.value)
                  && forall n :: n in nodes && n.Selectable() && Score(n, w) > Score(chosen.value, w) ==>
                       !Fits(allocators, n))
  {
    hide Fits, Score, Candidates;
    var tried := Candidates(nodes, w);
    CandidatesAre(nodes, w);
    FirstFitTakesFirstRoom(allocators, tried);
    FirstRoomIsFirst(allocators, tried);
    var k := FirstRoom(allocators, tried);
    forall n | n in nodes && n.Selectable()
      ensures exists j :: 0 <= j < |tried| && tried[j] == n
    {
      assert n in tried;
    }
  }

  /** A node nothing is reserved on has room exactly when its limit is positive. */
  lemma FreshNodeFits(allocators: Allocators, n: Node)
    requires PoolOf(allocators, n) == Pool(n.bandwidthLimit, [])
    ensures Fits(allocators, n) <==> n.bandwidthLimit >= 1
  {
    var slots := Registration(n.bandwidthLimit, n.maxConnections).Slots();
    assert n.bandwidthLimit / slots <= n.bandwidthLimit;
  }

  /** Position `i` holds the only node of the best score. */
  ghost predicate UniquelyBest(nodes: seq<Node>, w: ScoreWeights, i: nat) {
    && i < |nodes| && nodes[i].Selectable()
    && forall j :: 0 <= j < |nodes| && j != i && nodes[j].Selectable() ==> Score(nodes[j], w) < Score(nodes[i], w)
  }

  lemma {:induction false} EligiblePositions(nodes: seq<Node>, i: nat) returns (p: nat)
    requires i < |Eligible(nodes)|
    ensures p < |nodes| && nodes[p] == Eligible(nodes)[i] && nodes[p].Selectable()
    ensures forall q :: 0 <= q < p && nodes[q].Selectable() ==> exists j :: 0 <= j < i && Eligible(nodes)[j] == nodes[q]
  {
    if nodes[0].Selectable() && i == 0 {
      p := 0;
    } else {
      var d := if nodes[0].Selectable() then 1 else 0;
      var p' := EligiblePositions(nodes[1..], i - d);
      p := p' + 1;
      forall q | 0 <= q < p && nodes[q].Selectable()
        ensures exists j :: 0 <= j < i && Eligible(nodes)[j] == nodes[q]
      {
        if q == 0 {
          assert Eligible(nodes)[0] == nodes[0];
        } else {
          assert nodes[1..][q - 1] == nodes[q];
          var j :| 0 <= j < i - d && Eligible(nodes[1..])[j] == nodes[1..][q - 1];
          assert Eligible(nodes)[j + d] == nodes[q];
        }
      }
    }
  }

  /** The candidate tried first is the first best node of the listing. */
  lemma FirstCandidate(nodes: seq<Node>, w: ScoreWeights) returns (p: nat)
    requires DistinctIds(nodes) && exists n :: n in nodes && n.Selectable()
    ensures Candidates(nodes, w) != [] && p < |nodes| && nodes[p] == Candidates(nodes, w)[0] && nodes[p].Selectable()
    ensures forall j :: 0 <= j < |nodes| && nodes[j].Selectable() ==>
              && Score(nodes[j], w) <= Score(nodes[p], w)
              && (j < p ==> Score(nodes[j], w) < Score(nodes[p], w))
  {
    hide Score;
    EligibleKeeps(nodes);
    var i := SortHead(Eligible(nodes), w);
    p := EligiblePositions(nodes, i);
    forall j | 0 <= j < |nodes| && nodes[j].Selectable()
      ensures && Score(nodes[j], w) <= Score(nodes[p], w)
              && (j < p ==> Score(nodes[j], w) < Score(nodes[p], w))
    {
      assert nodes[j] in Eligible(nodes);
    }
  }

  /**
  Where every candidate has room, selecting with bandwidth agrees with plain selection exactly when
  the best score is held by one node: of equals, one keeps the first listed and the other the last.
  */
  lemma AgreesWithSelectIffUnique(allocators: Allocators, nodes: seq<Node>, w: ScoreWeights)
    requires DistinctIds(nodes) && exists n :: n in nodes && n.Selectable()
    requires forall n :: n in nodes && n.Selectable() ==> Fits(allocators, n)
    ensures FirstFit(allocators, Candidates(nodes, w)).1 == Select(nodes, w)
            <==> exists i :: UniquelyBest(nodes, w, i)
  {
    hide Score, Fits, Candidates;
    var p := FirstCandidate(nodes, w);
    assert FirstFit(allocators, Candidates(nodes, w)).1 == Some(nodes[p]);
    var q := BestIndex(nodes, w).value;
    SelectIsLastBest(nodes, w, q);
    if p == q {
      assert UniquelyBest(nodes, w, p);
    } else {
      assert nodes[p].id != nodes[q].id;
    }
  }

  /** In particular so with nothing reserved and positive limits. */
  lemma FreshAgreesWithSelectIffUnique(allocators: Allocators, nodes: seq<Node>, w: ScoreWeights)
    requires DistinctIds(nodes) && exists n :: n in nodes && n.Selectable()
    requires forall n :: n in nodes ==> PoolOf(allocators, n) == Pool(n.bandwidthLimit, []) && n.bandwidthLimit >= 1
    ensures FirstFit(allocators, Candidates(nodes, w)).1 == Select(nodes, w)
            <==> exists i :: UniquelyBest(nodes, w, i)
  {
    hide Fits, Candidates, Select, UniquelyBest;
    forall n | n in nodes
      ensures Fits(allocators, n)
    {
      FreshNodeFits(allocators, n);
    }
    AgreesWithSelectIffUnique(allocators, nodes, w);
  }

  /** Trying a node is asking its account for one share more. */
  lemma TrialIsAsk(allocators: Allocators, n: Node)
    ensures var a := Account(Registration(n.bandwidthLimit, n.maxConnections),
                             if n.id in allocators then Some(allocators[n.id]) else None);
            && FirstFit(allocators, [n]).1 == (if a.Grants() then Some(n) else None)
            && FirstFit(allocators, [n]).0 == allocators[n.id := Slots.Next(a, Ask).pool.value]
  {
    assert [n][1..] == [];
  }

  // ----- allocators by their totals -----

  /** The same ceilings and the same totals reserved. */
  ghost predicate Alike(p: Allocators, q: Allocators) {
    p.Keys == q.Keys && forall id :: id in p ==> p[id].limit == q[id].limit && Sum(p[id].guards) == Sum(q[id].guards)
  }

  lemma AlikeItself(p: Allocators)
    ensures Alike(p, p)
  {
  }

  /** The pools after one trial. */
  function Tried(p: Allocators, n: Node): Allocators {
    var pool := PoolOf(p, n);
    p[n.id := if Fits(p, n) then pool.(guards := pool.guards + [ShareOf(n)]) else pool]
  }

  /** A trial on the total alone comes to the same. */
  lemma TriedIsAlike(p: Allocators, q: Allocators, n: Node, before: u64, after: u64)
    requires Alike(p, q) && before == Sum(PoolOf(p, n).guards)
    requires after == before + if before + ShareOf(n) <= PoolOf(p, n).limit then ShareOf(n) else 0
    ensures Fits(q, n) <==> before + ShareOf(n) <= PoolOf(p, n).limit
    ensures Alike(p[n.id := Pool(PoolOf(p, n).limit, [after])], Tried(q, n))
  {
    hide Sum, ShareOf;
    Singleton(after);
    SumAppend(PoolOf(q, n).guards, ShareOf(n));
    assert PoolOf(q, n).limit == PoolOf(p, n).limit && Sum(PoolOf(q, n).guards) == before;
  }

  // ----- first fit amid other threads -----

  /** What other threads leave of a node's allocator: its total, and its limit if they made it. */
  datatype Meter = Meter(limit: u64, total: u64)

  function Disturbed(p: Allocators, others: map<string, Meter>): Allocators {
    map id | id in p.Keys + others.Keys ::
      if id !in others then p[id]
      else Pool(if id in p then p[id].limit else others[id].limit, [others[id].total])
  }

  /** `others` says what other threads have done before each try; where it ends they have done nothing. */
  function Met(p: Allocators, others: seq<map<string, Meter>>): Allocators {
    if others == [] then p else Disturbed(p, others[0])
  }

  function Later(others: seq<map<string, Meter>>): seq<map<string, Meter>> {
    if others == [] then [] else others[1..]
  }

  function FirstFitAmid(p: Allocators, nodes: seq<Node>, others: seq<map<string, Meter>>): (Allocators, Option<Node>)
    decreases |nodes|
  {
    if nodes == [] then (p, None)
    else
      var q := Met(p, others);
      if Fits(q, nodes[0]) then (Tried(q, nodes[0]), Some(nodes[0]))
      else FirstFitAmid(Tried(q, nodes[0]), nodes[1..], Later(others))
  }

  /** With no other threads at work it is plain first fit. */
  lemma {:induction false} AloneIsFirstFit(p: Allocators, nodes: seq<Node>)
    ensures FirstFitAmid(p, nodes, []) == FirstFit(p, nodes)
    decreases |nodes|
  {
    hide Fits, ShareOf;
    if nodes != [] && !Fits(p, nodes[0]) {
      AloneIsFirstFit(Tried(p, nodes[0]), nodes[1..]);
    }
  }

  /** The allocators as the `j`-th try finds them. */
  function FoundAt(p: Allocators, nodes: seq<Node>, others: seq<map<string, Meter>>, j: nat): Allocators
    requires j < |nodes|
    decreases j
  {
    var q := Met(p, others);
    if j == 0 then q else FoundAt(Tried(q, nodes[0]), nodes[1..], Later(others), j - 1)
  }

  /** The first that has room when it is tried is chosen. */
  lemma {:induction false} AmidIsFirst(p: Allocators, nodes: seq<Node>, others: seq<map<string, Meter>>)
    returns (k: nat)
    ensures k <= |nodes| && FirstFitAmid(p, nodes, others).1 == if k == |nodes| then None else Some(nodes[k])
    ensures k < |nodes| ==> Fits(FoundAt(p, nodes, others, k), nodes[k])
    ensures forall j :: 0 <= j < k ==> !Fits(FoundAt(p, nodes, others, j), nodes[j])
    decreases |nodes|
  {
    hide Fits, Tried, Met;
    k := 0;
    if nodes != [] && !Fits(Met(p, others), nodes[0]) {
      var q := Tried(Met(p, others), nodes[0]);
      var k' := AmidIsFirst(q, nodes[1..], Later(others));
      k := k' + 1;
      forall j | 0 < j < |nodes|
        ensures FoundAt(p, nodes, others, j) == FoundAt(q, nodes[1..], Later(others), j - 1)
      {
      }
    }
  }

  /** The candidate had room when it was tried. */
  ghost predicate HadRoom(p: Allocators, nodes: seq<Node>, others: seq<map<string, Meter>>, n: Node) {
    exists j :: 0 <= j < |nodes| && nodes[j] == n && Fits(FoundAt(p, nodes, others, j), n)
  }

  /** The candidate was tried, and was full then. */
  ghost predicate WasFull(p: Allocators, nodes: seq<Node>, others: seq<map<string, Meter>>, n: Node) {
    exists j :: 0 <= j < |nodes| && nodes[j] == n && !Fits(FoundAt(p, nodes, others, j), n)
  }

  /**
  Whatever other threads reserve and release between the tries: the chosen node had room when it was
  tried, every selectable node that scores strictly higher was tried and full, and if nobody is chosen
  every selectable node was tried and full.
  */
  lemma ChosenAmidOthers(p: Allocators, nodes: seq<Node>, w: ScoreWeights, others: seq<map<string, Meter>>)
    requires DistinctIds(nodes)
    ensures var tried := Candidates(nodes, w);
            var chosen := FirstFitAmid(p, tried, others).1;
            && (chosen.None? ==> forall n :: n in nodes && n.Selectable() ==> WasFull(p, tried, others, n))
            && (chosen.Some? ==>
                  && chosen.value in nodes && chosen.value.Selectable() && HadRoom(p, tried, others, chosen.value)
                  && forall n :: n in nodes && n.Selectable() && Score(n, w) > Score(chosen.value, w) ==>
                       WasFull(p, tried, others, n))
  {
    hide Fits, Score, Candidates, FoundAt, FirstFitAmid;
    var tried := Candidates(nodes, w);
    CandidatesAre(nodes, w);
    var k := AmidIsFirst(p, tried, others);
    if k < |tried| {
      assert HadRoom(p, tried, others, tried[k]);
    }
    forall n | n in nodes && n.Selectable() && (k == |tried| || Score(n, w) > Score(tried[k], w))
      ensures WasFull(p, tried, others, n)
    {
      assert n in tried;
      var j :| 0 <= j < |tried| && tried[j] == n;
      assert j < k;
    }
  }

  lemma DisturbedIsAlike(p: Allocators, q: Allocators, others: map<string, Meter>)
    requires Alike(p, q)
    ensures Alike(Disturbed(p, others), Disturbed(q, others))
  {
    hide Sum;
  }

  lemma DisturbedByNone(p: Allocators)
    ensures Disturbed(p, map[]) == p
  {
  }

  lemma DisturbedByOne(p: Allocators, id: string, meter: Meter)
    ensures Disturbed(p, map[id := meter])
            == p[id := Pool(if id in p then p[id].limit else meter.limit, [meter.total])]
  {
  }

  lemma DisturbedOneMore(p: Allocators, part: map<string, Meter>, id: string, meter: Meter)
    requires id !in part
    ensures Disturbed(Disturbed(p, part), map[id := meter]) == Disturbed(p, part[id := meter])
  {
  }

  lemma AmidTries(p: Allocators, nodes: seq<Node>, others: seq<map<string, Meter>>)
    requires nodes != []
    ensures var q := Met(p, others);
            FirstFitAmid(p, nodes, others)
            == if Fits(q, nodes[0]) then (Tried(q, nodes[0]), Some(nodes[0]))
               else FirstFitAmid(Tried(q, nodes[0]), nodes[1..], Later(others))
  {
  }

  lemma AmidOfNone(p: Allocators, others: seq<map<string, Meter>>)
    ensures FirstFitAmid(p, [], others) == (p, None)
  {
  }

  lemma Singleton(rate: u64)
    ensures Sum([rate]) == rate && Sum([]) == 0
  {
    assert [rate][..0] == [];
  }

  // ----- the sweep, row by row -----

  /** The ids of the overdue nodes of a listing. */
  function OverdueIn(nodes: seq<Node>, now: real, policy: HealthPolicy): set<string> {
    if nodes == [] then {}
    else
      var n := |nodes| - 1;
      OverdueIn(nodes[..n], now, policy) + if Overdue(nodes[n], now, policy) then {nodes[n].id} else {}
  }

  /** The table with the given nodes offline. */
  function Marked(t: Table, ids: set<string>): Table {
    map id | id in t :: if id in ids then t[id].(state := Offline) else t[id]
  }

  lemma MarkOneMore(t: Table, ids: set<string>, id: string)
    ensures SetState(Marked(t, ids), id, Offline) == Marked(t, ids + {id})
  {
  }

  lemma NothingMarked(t: Table, nodes: seq<Node>, now: real, policy: HealthPolicy)
    ensures OverdueIn(nodes[..0], now, policy) == {}
    ensures Marked(t, OverdueIn(nodes[..0], now, policy)) == t
  {
  }

  lemma {:induction false} OverdueInAre(nodes: seq<Node>, now: real, policy: HealthPolicy, id: string)
    ensures id in OverdueIn(nodes, now, policy)
            <==> exists i :: 0 <= i < |nodes| && nodes[i].id == id && Overdue(nodes[i], now, policy)
  {
    hide Overdue;
    if nodes != [] {
      OverdueInAre(nodes[..|nodes| - 1], now, policy, id);
    }
  }

  /** Each overdue row of a listing is counted once more. */
  lemma OverdueOneMore(nodes: seq<Node>, i: nat, now: real, policy: HealthPolicy)
    requires i < |nodes| && DistinctIds(nodes)
    ensures OverdueIn(nodes[..i + 1], now, policy)
            == OverdueIn(nodes[..i], now, policy) + if Overdue(nodes[i], now, policy) then {nodes[i].id} else {}
    ensures nodes[i].id !in OverdueIn(nodes[..i], now, policy)
  {
    hide Overdue;
    OverdueInAre(nodes[..i], now, policy, nodes[i].id);
    assert nodes[..i + 1][..i] == nodes[..i];
  }

  lemma MarkedIsSwept(t: Table, nodes: seq<Node>, now: real, policy: HealthPolicy)
    requires IsListing(nodes, t)
    ensures OverdueIn(nodes, now, policy) == OverdueIds(t, now, policy)
    ensures Marked(t, OverdueIn(nodes, now, policy)) == SweepOnce(t, now, policy)
  {
    hide IsStale, Ascending;
    forall id
      ensures id in OverdueIn(nodes, now, policy) <==> id in OverdueIds(t, now, policy)
    {
      OverdueInAre(nodes, now, policy, id);
      if id in t {
        var i :| 0 <= i < |nodes| && IdsOf(nodes)[i] == id;
        assert nodes[i].id == id;
      }
    }
  }

  lemma ListingIsDistinct(nodes: seq<Node>, t: Table)
    requires IsListing(nodes, t)
    ensures DistinctIds(nodes)
  {
    AscendingIsDistinct(IdsOf(nodes));
    forall i, j | 0 <= i < j < |nodes|
      ensures nodes[i].id != nodes[j].id
    {
      assert IdsOf(nodes)[i] != IdsOf(nodes)[j];
    }
  }

  lemma SweepKeepsKeyed(t: Table, now: real, policy: HealthPolicy)
    ensures Apply(t, Event(now, Sweep), policy) == SweepOnce(t, now, policy)
    ensures Keyed(t) ==> Keyed(SweepOnce(t, now, policy))
  {
    if Keyed(t) {
      ApplyKeepsKeyed(t, Event(now, Sweep), policy);
    }
  }

  /** The nodes whose state differs. */
  function Changed(t: Table, u: Table): set<string> {
    set id | id in t && id in u && t[id].state != u[id].state
  }

  lemma ChangedAreOverdue(t: Table, now: real, policy: HealthPolicy)
    ensures var s := SweepOnce(t, now, policy);
            Changed(t, s) == OverdueIds(t, now, policy)
  {
    hide IsStale;
  }

  lemma AscendingNone()
    ensures Ascending(IdsOf([]))
  {
  }

  lemma ListedAt(nodes: seq<Node>, t: Table, id: string) returns (i: nat)
    requires IsListing(nodes, t) && id in t
    ensures i < |nodes| && nodes[i].id == id && nodes[i] == t[id].AsRead()
  {
    hide Ascending;
    i :| 0 <= i < |nodes| && IdsOf(nodes)[i] == id;
  }

  lemma LaterIsGreater(nodes: seq<Node>, t: Table, i: nat, j: nat)
    requires IsListing(nodes, t) && i < j < |nodes|
    ensures IdLess(nodes[i].id, nodes[j].id)
  {
    hide IdLess;
    assert IdLess(IdsOf(nodes)[i], IdsOf(nodes)[j]);
  }

  /** In terms of the table, the last best node of the listing is the best one with the greatest id. */
  lemma LastBestRow(nodes: seq<Node>, t: Table, w: ScoreWeights, id: string)
    requires IsListing(nodes, t) && id in t && t[id].AsRead().Selectable()
    ensures var best := Select(nodes, w);
            && best.Some? && Score(t[id].AsRead(), w) <= Score(best.value, w)
            && (Score(t[id].AsRead(), w) == Score(best.value, w) ==> id == best.value.id || IdLess(id, best.value.id))
  {
    hide Score, IdLess, IsListing;
    var i := ListedAt(nodes, t, id);
    var b := BestIndex(nodes, w).value;
    SelectIsLastBest(nodes, w, b);
    if i < b {
      LaterIsGreater(nodes, t, i, b);
    }
  }

  lemma LastBestById(nodes: seq<Node>, t: Table, w: ScoreWeights)
    requires IsListing(nodes, t)
    ensures var best := Select(nodes, w);
            && (best.None? <==> forall id :: id in t ==> !t[id].AsRead().Selectable())
            && (best.Some? ==>
                  && best.value.id in t && best.value == t[best.value.id].AsRead() && best.value.Selectable()
                  && forall id :: id in t && t[id].AsRead().Selectable() ==>
                       && Score(t[id].AsRead(), w) <= Score(best.value, w)
                       && (Score(t[id].AsRead(), w) == Score(best.value, w) ==>
                             id == best.value.id || IdLess(id, best.value.id)))
  {
    hide Score, IdLess, Ascending, Node.AsRead, Node.Selectable;
    var best := Select(nodes, w);
    forall id | id in t && t[id].AsRead().Selectable()
      ensures best.Some? && Score(t[id].AsRead(), w) <= Score(best.value, w)
      ensures Score(t[id].AsRead(), w) == Score(best.value, w) ==> id == best.value.id || IdLess(id, best.value.id)
    {
      LastBestRow(nodes, t, w, id);
    }
  }

  /** A node selected to carry a connection, with the reservation held on it. */
  datatype SelectedNode = SelectedNode(node: Node, guard: BandwidthGuard)

  /** A guard of the given rate on the counter of an allocator. */
  ghost predicate Holds(g: BandwidthGuard, a: BandwidthAllocator, rate: u64) {
    g.reserved == a.reserved && g.rate == rate
  }

  class ControlPlaneService {
    const policy: HealthPolicy
    const weights: ScoreWeights
    var table: Table
    var allocators: map<string, BandwidthAllocator>

    /** Rows are filed under their ids, and no two nodes share a counter. */
    ghost predicate Valid()
      reads this
    {
      && Keyed(table)
      && forall a, b :: a in allocators && b in allocators && a != b ==>
           allocators[a].reserved != allocators[b].reserved
    }

    ghost function Counters(): set<AtomicU64>
      reads this
    {
      set id | id in allocators :: allocators[id].reserved
    }

    /** The allocators as pools, each with its total in one guard. */
    ghost function Pools(): Allocators
      reads this, Counters()
    {
      map id | id in allocators :: Pool(allocators[id].limit, [allocators[id].reserved.value])
    }

    constructor (policy: HealthPolicy)
      ensures Valid() && this.policy == policy && weights == DEFAULT_WEIGHTS
      ensures table == map[] && allocators == map[]
    {
      this.policy, weights := policy, DEFAULT_WEIGHTS;
      table, allocators := map[], map[];
    }

    /** What was configured is replaced; what was heard stays; only an offline node changes its state. */
    method Register(req: RegisterRequest) returns (node: Node)
      requires Valid()
      modifies this`table
      ensures Valid() && OnlyRow(old(table), table, req.id)
      ensures req.id in table && node == table[req.id].AsRead()
      ensures node.address == req.address && node.maxConnections == req.maxConnections
              && node.bandwidthLimit == req.bandwidthLimit
      ensures req.id !in old(table) ==>
                node.state.Starting? && node.lastHeartbeat.None? && node.activeConnections == 0 && node.latencyMs == 0
      ensures req.id in old(table) ==>
                var was, row := old(table)[req.id], table[req.id];
                && row.lastHeartbeat == was.lastHeartbeat && row.latencyMs == was.latencyMs
                && row.activeConnections == was.activeConnections
                && row.state == if was.state.Offline? then Starting else was.state
      ensures forall at :: table == Apply(old(table), Event(at, Op.Register(req)), policy)
    {
      ApplyKeepsKeyed(table, Event(0.0, Op.Register(req)), policy);
      table := Upsert(table, req);
      node := table[req.id].AsRead();
    }

    method Heartbeat(hb: Heartbeat, now: real)
      requires Valid()
      modifies this`table
      ensures Valid() && table == Apply(old(table), Event(now, Beat(hb)), policy)
    {
      ApplyKeepsKeyed(table, Event(now, Beat(hb)), policy);
      if hb.id !in table {
        return;
      }
      var state, max := table[hb.id].state, table[hb.id].maxConnections;
      table := ApplyHeartbeat(table, hb, now);
      var next := Reclassify(state, hb.activeConnections, max, policy);
      if next != state {
        table := SetState(table, hb.id, next);
      }
    }

    /** A known node is draining and otherwise as it was; an unknown one is reported as such. */
    method Drain(id: string) returns (node: Option<Node>)
      requires Valid()
      modifies this`table
      ensures Valid() && OnlyRow(old(table), table, id)
      ensures node.Some? <==> id in old(table)
      ensures id in table <==> id in old(table)
      ensures node.Some? ==>
                && node.value == table[id].AsRead() && node.value.state.Draining? && !node.value.Selectable()
                && old(table)[id] == table[id].(state := old(table)[id].state)
      ensures forall at :: table == Apply(old(table), Event(at, Op.Drain(id)), policy)
    {
      ApplyKeepsKeyed(table, Event(0.0, Op.Drain(id)), policy);
      table := SetState(table, id, Draining);
      node := if id in table then Some(table[id].AsRead()) else None;
    }

    /** The rows of the table in the order of their ids. */
    method List() returns (nodes: seq<Node>)
      requires Valid()
      ensures IsListing(nodes, table) && DistinctIds(nodes)
    {
      hide IdLess, Ascending;
      nodes := [];
      var left := table.Keys;
      AscendingNone();
      while left != {}
        invariant left <= table.Keys
        invariant forall i :: 0 <= i < |nodes| ==> nodes[i].id in table && nodes[i] == table[nodes[i].id].AsRead()
        invariant forall i, id :: 0 <= i < |nodes| && id in left ==> IdLess(nodes[i].id, id)
        invariant Ascending(IdsOf(nodes))
        invariant forall id :: id in table && id !in left ==> id in IdsOf(nodes)
        decreases left
      {
        ghost var least := LeastId(left);
        var id :| id in left && forall other :: other in left && other != id ==> IdLess(id, other);
        AscendingAppend(nodes, table[id].AsRead());
        nodes := nodes + [table[id].AsRead()];
        left := left - {id};
      }
      ListingIsDistinct(nodes, table);
    }

    /** A selectable row that no other outscores; of equals, the one with the greatest id. */
    method SelectNode() returns (best: Option<Node>)
      requires Valid()
      ensures best.None? <==> forall id :: id in table ==> !table[id].AsRead().Selectable()
      ensures best.Some? ==>
                && best.value.id in table && best.value == table[best.value.id].AsRead() && best.value.Selectable()
                && forall id :: id in table && table[id].AsRead().Selectable() ==>
                     && Score(table[id].AsRead(), weights) <= Score(best.value, weights)
                     && (Score(table[id].AsRead(), weights) == Score(best.value, weights) ==>
                           id == best.value.id || IdLess(id, best.value.id))
      ensures best.Some? && weights == DEFAULT_WEIGHTS ==>
                forall id :: id in table && table[id].AsRead().Selectable() ==>
                  !Dominates(table[id].AsRead(), best.value)
      ensures forall nodes :: IsListing(nodes, table) ==> best == Select(nodes, weights)
    {
      hide Score, IdLess, Dominates;
      var nodes := List();
      best := Select(Eligible(nodes), weights);
      SelectIgnoresIneligible(nodes, weights);
      LastBestById(nodes, table, weights);
      if best.Some? && weights == DEFAULT_WEIGHTS {
        forall id | id in table && table[id].AsRead().Selectable()
          ensures !Dominates(table[id].AsRead(), best.value)
        {
          if Dominates(table[id].AsRead(), best.value) {
            DominatingScoresMore(table[id].AsRead(), best.value);
          }
        }
      }
      forall other | IsListing(other, table)
        ensures best == Select(other, weights)
      {
        ListingIsUnique(nodes, other, table);
      }
    }

    /** Keeps the first limit seen for a node: an allocator, once made, is the one that is used. */
    method Allocator(id: string, limit: u64) returns (a: BandwidthAllocator)
      requires Valid()
      modifies this`allocators
      ensures Valid() && allocators == old(allocators)[id := a]
      ensures id in old(allocators) ==> a == old(allocators)[id]
      ensures id !in old(allocators) ==> fresh(a.reserved) && a.limit == limit && a.reserved.value == 0
    {
      if id !in allocators {
        var made := new BandwidthAllocator(limit);
        allocators := allocators[id := made];
      }
      a := allocators[id];
    }

    /** One candidate: its allocator is made if need be, and asked for a share. */
    method TryNode(node: Node, spurious: nat, ghost pools: Allocators) returns (guard: Option<BandwidthGuard>)
      requires Valid() && Alike(Pools(), pools)
      modifies this`allocators, Counters()
      ensures Valid() && (guard.Some? <==> Fits(pools, node))
      ensures Alike(Pools(), Tried(pools, node))
      ensures node.id in allocators && (guard.Some? ==> Holds(guard.value, allocators[node.id], ShareOf(node)))
      ensures IsShare(ShareOf(node), node.bandwidthLimit, node.maxConnections)
      ensures var a, known := allocators[node.id], node.id in old(allocators);
              && a.limit == (if known then old(allocators[node.id].limit) else node.bandwidthLimit)
              && var total := if known then old(allocators[node.id].reserved.value) else 0;
                 && (guard.Some? <==> total + ShareOf(node) <= a.limit)
                 && a.reserved.value == total + if guard.Some? then ShareOf(node) else 0
      ensures forall id :: id in old(allocators) ==> id in allocators && allocators[id] == old(allocators)[id]
      ensures fresh(Counters() - old(Counters()))
    {
      hide ShareOf, Sum, Keyed, Alike, Fits, Tried, IsShare;
      ShareOfIs(node);
      ghost var was := Pools();
      var a := Allocator(node.id, node.bandwidthLimit);
      ghost var total := a.reserved.value;
      Singleton(total);
      assert a.limit == PoolOf(was, node).limit && total == Sum(PoolOf(was, node).guards);
      guard := a.TryReserve(ShareOf(node), spurious);
      TriedIsAlike(was, pools, node, total, a.reserved.value);
      assert Pools() == was[node.id := Pool(a.limit, [a.reserved.value])];
    }

    /** Another thread at work on the allocator of one node, which it makes if need be. */
    method DisturbOne(id: string, meter: Meter)
      requires Valid()
      modifies this`allocators, Counters()
      ensures Valid() && Pools() == Disturbed(old(Pools()), map[id := meter])
      ensures forall other :: other in old(allocators) ==>
                other in allocators && allocators[other] == old(allocators)[other]
      ensures fresh(Counters() - old(Counters()))
    {
      hide Keyed, Disturbed;
      ghost var was := Pools();
      DisturbedByOne(was, id, meter);
      var a := Allocator(id, meter.limit);
      a.reserved.value := meter.total;
      assert Pools() == was[id := Pool(a.limit, [meter.total])];
    }

    /** Other threads at work between two tries. */
    method Disturb(others: map<string, Meter>)
      requires Valid()
      modifies this`allocators, Counters()
      ensures Valid() && Pools() == Disturbed(old(Pools()), others)
      ensures forall id :: id in old(allocators) ==> id in allocators && allocators[id] == old(allocators)[id]
      ensures fresh(Counters() - old(Counters()))
    {
      hide Valid, Pools, Disturbed;
      var left := others.Keys;
      ghost var part: map<string, Meter> := map[];
      DisturbedByNone(Pools());
      while left != {}
        invariant left <= others.Keys && part.Keys == others.Keys - left
        invariant forall id :: id in part ==> part[id] == others[id]
        invariant Valid() && Pools() == Disturbed(old(Pools()), part)
        invariant forall id :: id in old(allocators) ==> id in allocators && allocators[id] == old(allocators)[id]
        invariant fresh(Counters() - old(Counters()))
        decreases left
      {
        var id :| id in left;
        DisturbOne(id, others[id]);
        DisturbedOneMore(old(Pools()), part, id, others[id]);
        part := part[id := others[id]];
        left := left - {id};
      }
      assert part == others;
    }

    /** One candidate, with other threads at work before it is tried. */
    method TryAmid(node: Node, spurious: nat, others: seq<map<string, Meter>>, ghost pools: Allocators)
      returns (guard: Option<BandwidthGuard>)
      requires Valid() && Alike(Pools(), pools)
      modifies this`allocators, Counters()
      ensures Valid() && (guard.Some? <==> Fits(Met(pools, others), node))
      ensures Alike(Pools(), Tried(Met(pools, others), node))
      ensures node.id in allocators && (guard.Some? ==> Holds(guard.value, allocators[node.id], ShareOf(node)))
      ensures forall id :: id in old(allocators) ==> id in allocators && allocators[id] == old(allocators)[id]
      ensures fresh(Counters() - old(Counters()))
    {
      hide Valid, Pools, Disturbed, Alike, Fits, Tried, Holds, ShareOf;
      if others != [] {
        DisturbedIsAlike(Pools(), pools, others[0]);
        Disturb(others[0]);
      }
      guard := TryNode(node, spurious, Met(pools, others));
    }

    /**
    First fit in score order on the shared counters, with other threads at work between the tries.  The
    guard holds the counter of the node it was reserved on, and allocators that were there before are
    still the same objects.
    */
    method SelectWithBandwidth(spurious: nat, others: seq<map<string, Meter>>)
      returns (chosen: Option<SelectedNode>, ghost nodes: seq<Node>)
      requires Valid()
      modifies this`allocators, Counters()
      ensures Valid() && IsListing(nodes, table) && DistinctIds(nodes)
      ensures var (after, node) := FirstFitAmid(old(Pools()), Candidates(nodes, weights), others);
              && Alike(Pools(), after)
              && (chosen.Some? <==> node.Some?)
              && (chosen.Some? ==> && chosen.value.node == node.value && node.value.id in allocators
                                   && Holds(chosen.value.guard, allocators[node.value.id], ShareOf(node.value)))
      ensures chosen.Some? ==>
                var n := chosen.value.node;
                IsShare(chosen.value.guard.rate, n.bandwidthLimit, n.maxConnections)
      ensures fresh(Counters() - old(Counters()))
      ensures forall id :: id in old(allocators) ==> id in allocators && allocators[id] == old(allocators)[id]
    {
      hide IsListing, DistinctIds, ShareOf, SortByScore, Eligible, Fits, Alike, Tried, Met, FirstFitAmid, IsShare;
      hide Valid, Pools;
      var listed := List();
      nodes := listed;
      var eligible := SortByScore(Eligible(listed), weights);
      ghost var pools := Pools();
      var to := others;
      AlikeItself(pools);
      for i := 0 to |eligible|
        invariant Valid() && Alike(Pools(), pools)
        invariant forall id :: id in old(allocators) ==> id in allocators && allocators[id] == old(allocators)[id]
        invariant fresh(Counters() - old(Counters()))
        invariant FirstFitAmid(old(Pools()), Candidates(nodes, weights), others)
                  == FirstFitAmid(pools, eligible[i..], to)
      {
        AmidTries(pools, eligible[i..], to);
        assert eligible[i..][1..] == eligible[i + 1..];
        var guard := TryAmid(eligible[i], spurious, to, pools);
        if guard.Some? {
          ShareOfIs(eligible[i]);
          return Some(SelectedNode(eligible[i], guard.value)), nodes;
        }
        pools, to := Tried(Met(pools, to), eligible[i]), Later(to);
      }
      AmidOfNone(pools, to);
      chosen := None;
    }

    /** The count moves by `delta`, but not below zero; nothing else changes. */
    method AdjustActiveConnections(id: string, delta: int)
      requires Valid()
      modifies this`table
      ensures Valid() && OnlyRow(old(table), table, id) && (id in table <==> id in old(table))
      ensures id in table ==>
                var was, row := old(table)[id], table[id];
                && row == was.(activeConnections := row.activeConnections)
                && (row.activeConnections == was.activeConnections + delta
                    || (row.activeConnections == 0 && was.activeConnections + delta < 0))
      ensures forall at :: table == Apply(old(table), Event(at, Adjust(id, delta)), policy)
    {
      ApplyKeepsKeyed(table, Event(0.0, Adjust(id, delta)), policy);
      table := AdjustActive(table, id, delta);
    }

    /** Mark every overdue node offline, row by row from one listing, and count them. */
    method MarkStaleOffline(now: real) returns (marked: nat)
      requires Valid()
      modifies this`table
      ensures Valid() && table == Apply(old(table), Event(now, Sweep), policy)
      ensures marked == |Changed(old(table), table)|
    {
      hide Overdue, OverdueIn, OverdueIds, Marked, SweepOnce, Apply, SetState, Keyed, IsListing, DistinctIds, Changed;
      SweepKeepsKeyed(table, now, policy);
      var nodes := List();
      marked := 0;
      NothingMarked(table, nodes, now, policy);
      for i := 0 to |nodes|
        invariant table == Marked(old(table), OverdueIn(nodes[..i], now, policy))
        invariant marked == |OverdueIn(nodes[..i], now, policy)|
      {
        OverdueOneMore(nodes, i, now, policy);
        if Overdue(nodes[i], now, policy) {
          MarkOneMore(old(table), OverdueIn(nodes[..i], now, policy), nodes[i].id);
          table := SetState(table, nodes[i].id, Offline);
          marked := marked + 1;
        }
      }
      assert nodes[..|nodes|] == nodes;
      MarkedIsSwept(old(table), nodes, now, policy);
      ChangedAreOverdue(old(table), now, policy);
    }
  }

  /** The total on one node after first fit, by whether it was chosen. */
  lemma TotalAfterFirstFit(p: Allocators, nodes: seq<Node>, q: Allocators, id: string)
    requires Alike(q, FirstFit(p, nodes).0) && id in q
    ensures var chosen := FirstFit(p, nodes).1;
            Sum(q[id].guards)
            == (if id in p then Sum(p[id].guards) else 0)
               + if chosen.Some? && chosen.value.id == id then ShareOf(chosen.value) else 0
  {
    hide FirstFit, ShareOf, Sum;
    var n := Node(id, "", Offline, None, 0, 0, 0, 0);
    FirstFitReservesOnce(p, nodes, n);
    var chosen := FirstFit(p, nodes).1;
    SumAppend(PoolOf(p, n).guards, if chosen.Some? then ShareOf(chosen.value) else 0);
    Singleton(0);
    assert PoolOf(p, n).guards + [] == PoolOf(p, n).guards;
  }

  /** A connection that ends gives back what it was admitted with: every total is what it was. */
  method SelectThenRelease(s: ControlPlaneService, spurious: nat)
    requires s.Valid()
    modifies s`allocators, s.Counters()
    ensures s.Valid()
    ensures forall id :: id in old(s.allocators) ==>
              && id in s.allocators && s.allocators[id] == old(s.allocators)[id]
              && s.allocators[id].reserved.value == old(s.allocators[id].reserved.value)
    ensures forall id :: id in s.allocators && id !in old(s.allocators) ==> s.allocators[id].reserved.value == 0
  {
    hide FirstFit, FirstFitAmid, ShareOf, Candidates, IsListing, DistinctIds, Keyed, Sum, Alike;
    ghost var before := s.Pools();
    var chosen, nodes := s.SelectWithBandwidth(spurious, []);
    ghost var order := Candidates(nodes, s.weights);
    AloneIsFirstFit(before, order);
    forall id | id in s.allocators
      ensures s.allocators[id].reserved.value
              == (if id in before then old(s.allocators[id].reserved.value) else 0)
                 + if chosen.Some? && chosen.value.node.id == id then chosen.value.guard.rate else 0
    {
      Singleton(s.allocators[id].reserved.value);
      if id in before {
        Singleton(old(s.allocators[id].reserved.value));
      }
      TotalAfterFirstFit(before, order, s.Pools(), id);
    }
    if chosen.Some? {
      chosen.value.guard.Drop();
    }
  }

  lemma SelectAppend(nodes: seq<Node>, n: Node, w: ScoreWeights)
    ensures var best := Select(nodes, w);
            Select(nodes + [n], w)
            == if !n.Selectable() || (best.Some? && Score(n, w) < Score(best.value, w)) then best else Some(n)
  {
    hide Score;
    assert (nodes + [n])[..|nodes|] == nodes;
  }

  /** Filtering before selecting, as the service does, changes nothing. */
  lemma {:induction false} SelectIgnoresIneligible(nodes: seq<Node>, w: ScoreWeights)
    ensures Select(Eligible(nodes), w) == Select(nodes, w)
  {
    hide *;
    if nodes == [] {
      EligibleNone();
    } else {
      var n := |nodes| - 1;
      var e := Eligible(nodes[..n]);
      SelectIgnoresIneligible(nodes[..n], w);
      EligibleAppend(nodes[..n], nodes[n]);
      SelectAppend(nodes[..n], nodes[n], w);
      SelectAppend(e, nodes[n], w);
      assert nodes == nodes[..n] + [nodes[n]];
      assert e + [] == e;
    }
  }

  lemma EligibleNone()
    ensures Eligible([]) == []
  {
  }

  lemma {:induction false} EligibleAppend(nodes: seq<Node>, n: Node)
    ensures Eligible(nodes + [n]) == Eligible(nodes) + if n.Selectable() then [n] else []
  {
    if nodes == [] {
      assert [] + [n] == [n];
    } else {
      EligibleAppend(nodes[1..], n);
      assert (nodes + [n])[1..] == nodes[1..] + [n];
    }
  }
}
