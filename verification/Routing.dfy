/** Health-aware selection: a weighted score, its maximum, and the order of descending scores. */
module Routing {
  import opened Prelude
  import opened Nodes

  datatype ScoreWeights = ScoreWeights(health: real, capacity: real, latency: real, bandwidth: real)

  const DEFAULT_WEIGHTS := ScoreWeights(100.0, 1.0, 1.0, 1.0)

  function HealthFactor(state: NodeState): real {
    match state
    case Healthy => 1.0
    case Degraded => 0.5
    case _ => 0.0
  }

  function CapacityFactor(n: Node): real {
    if n.maxConnections == 0 then 0.0 else n.AvailableCapacity() as real / n.maxConnections as real
  }

  function LatencyFactor(latencyMs: u32): real {
    1.0 / (1.0 + latencyMs as real)
  }

  function BandwidthFactor(n: Node): real {
    1.0 - n.BandwidthUtilization()
  }

  function Score(n: Node, w: ScoreWeights): real {
    if !n.Selectable() then 0.0
    else
      w.health * HealthFactor(n.state)
      * (1.0 + w.capacity * CapacityFactor(n))
      * (1.0 + w.latency * LatencyFactor(n.latencyMs))
      * (1.0 + w.bandwidth * BandwidthFactor(n))
  }

  // ----- the selector -----

  /** Position of the best selectable node, as a left-to-right maximum that yields to equals. */
  function BestIndex(nodes: seq<Node>, w: ScoreWeights): (best: Option<nat>)
    ensures best.None? <==> forall j :: 0 <= j < |nodes| ==> !nodes[j].Selectable()
    ensures best.Some? ==> best.value < |nodes| && nodes[best.value].Selectable()
  {
    if nodes == [] then None
    else
      var n := |nodes| - 1;
      var prev := BestIndex(nodes[..n], w);
      if !nodes[n].Selectable() then prev
      else if prev.Some? && Score(nodes[n], w) < Score(nodes[prev.value], w) then prev
      else Some(n)
  }

  function Select(nodes: seq<Node>, w: ScoreWeights): Option<Node> {
    var i := BestIndex(nodes, w);
    if i.None? then None else Some(nodes[i.value])
  }

  /** No selectable node scores higher, and none after it scores as high. */
  ghost predicate LastBest(nodes: seq<Node>, w: ScoreWeights, i: nat) {
    && i < |nodes| && nodes[i].Selectable()
    && forall j :: 0 <= j < |nodes| && nodes[j].Selectable() ==>
         && Score(nodes[j], w) <= Score(nodes[i], w)
         && (i < j ==> Score(nodes[j], w) < Score(nodes[i], w))
  }

  /** The selector returns the last of the best scored selectable nodes, and that one only. */
  lemma {:induction false} SelectIsLastBest(nodes: seq<Node>, w: ScoreWeights, i: nat)
    ensures BestIndex(nodes, w) == Some(i) <==> LastBest(nodes, w, i)
  {
    hide Score;
    if nodes != [] {
      var n := |nodes| - 1;
      var prev := BestIndex(nodes[..n], w);
      if prev.Some? {
        SelectIsLastBest(nodes[..n], w, prev.value);
      }
      var best := BestIndex(nodes, w);
      if best.Some? {
        assert LastBest(nodes, w, best.value);
      }
    }
  }

  // ----- the stable sort by descending score -----

  function Insert(n: Node, sorted: seq<Node>, w: ScoreWeights): seq<Node> {
    if sorted == [] || Score(n, w) >= Score(sorted[0], w) then [n] + sorted
    else [sorted[0]] + Insert(n, sorted[1..], w)
  }

  function SortByScore(nodes: seq<Node>, w: ScoreWeights): seq<Node> {
    if nodes == [] then [] else Insert(nodes[0], SortByScore(nodes[1..], w), w)
  }

  ghost predicate Descending(nodes: seq<Node>, w: ScoreWeights) {
    forall i, j :: 0 <= i < j < |nodes| ==> Score(nodes[i], w) >= Score(nodes[j], w)
  }

  /** The nodes of one score, in their order. */
  function Scoring(nodes: seq<Node>, w: ScoreWeights, v: real): seq<Node> {
    if nodes == [] then []
    else (if Score(nodes[0], w) == v then [nodes[0]] else []) + Scoring(nodes[1..], w, v)
  }

  lemma {:induction false} InsertPermutes(n: Node, sorted: seq<Node>, w: ScoreWeights)
    ensures multiset(Insert(n, sorted, w)) == multiset{n} + multiset(sorted)
  {
    hide Score;
    if sorted != [] && Score(n, w) < Score(sorted[0], w) {
      InsertPermutes(n, sorted[1..], w);
      assert sorted == [sorted[0]] + sorted[1..];
    }
  }

  lemma {:induction false} InsertDescends(n: Node, sorted: seq<Node>, w: ScoreWeights)
    requires Descending(sorted, w)
    ensures Descending(Insert(n, sorted, w), w)
  {
    hide Score;
    if sorted != [] && Score(n, w) < Score(sorted[0], w) {
      var rest := Insert(n, sorted[1..], w);
      InsertDescends(n, sorted[1..], w);
      InsertPermutes(n, sorted[1..], w);
      forall i | 0 <= i < |rest|
        ensures Score(rest[i], w) <= Score(sorted[0], w)
      {
        assert rest[i] in multiset(rest);
      }
    }
  }

  lemma {:induction false} InsertIsStable(n: Node, sorted: seq<Node>, w: ScoreWeights, v: real)
    ensures Scoring(Insert(n, sorted, w), w, v) == Scoring([n] + sorted, w, v)
  {
    hide Score;
    assert ([n] + sorted)[1..] == sorted;
    if sorted != [] && Score(n, w) < Score(sorted[0], w) {
      var rest := Insert(n, sorted[1..], w);
      InsertIsStable(n, sorted[1..], w, v);
      assert ([sorted[0]] + rest)[1..] == rest;
      assert ([n] + sorted[1..])[1..] == sorted[1..];
    }
  }

  /** The sort is a permutation into descending scores that keeps equally scored nodes in order. */
  lemma {:induction false} SortIsStable(nodes: seq<Node>, w: ScoreWeights, v: real)
    ensures multiset(SortByScore(nodes, w)) == multiset(nodes)
    ensures Descending(SortByScore(nodes, w), w)
    ensures Scoring(SortByScore(nodes, w), w, v) == Scoring(nodes, w, v)
  {
    hide Score;
    if nodes != [] {
      var rest := SortByScore(nodes[1..], w);
      SortIsStable(nodes[1..], w, v);
      InsertPermutes(nodes[0], rest, w);
      InsertDescends(nodes[0], rest, w);
      InsertIsStable(nodes[0], rest, w, v);
      assert nodes == [nodes[0]] + nodes[1..];
      assert ([nodes[0]] + rest)[1..] == rest;
    }
  }

  /** So the first node tried is the first of the best scored. */
  lemma {:induction false} SortHead(nodes: seq<Node>, w: ScoreWeights) returns (i: nat)
    requires nodes != []
    ensures i < |nodes| && SortByScore(nodes, w) != [] && SortByScore(nodes, w)[0] == nodes[i]
    ensures forall j :: 0 <= j < |nodes| ==> Score(nodes[j], w) <= Score(nodes[i], w)
    ensures forall j :: 0 <= j < i ==> Score(nodes[j], w) < Score(nodes[i], w)
  {
    hide Score;
    i := 0;
    if |nodes| > 1 {
      var k := SortHead(nodes[1..], w);
      if Score(nodes[0], w) < Score(nodes[1..][k], w) {
        i := k + 1;
      }
      forall j | 0 <= j < |nodes|
        ensures Score(nodes[j], w) <= Score(nodes[i], w) && (j < i ==> Score(nodes[j], w) < Score(nodes[i], w))
      {
        if j > 0 {
          assert nodes[j] == nodes[1..][j - 1];
        }
      }
    }
  }

  // ----- healthy before degraded -----

  /** The load is at or above the threshold; a node without slots counts as full. */
  predicate Overloaded(active: nat, max: nat, threshold: real) {
    if max == 0 then 1.0 >= threshold else active as real >= threshold * max as real
  }

  /** The classification that a completed heartbeat leaves, with no change of load since. */
  predicate Classified(n: Node, threshold: real) {
    && (n.state.Healthy? ==> !Overloaded(n.activeConnections, n.maxConnections, threshold))
    && (n.state.Degraded? ==> Overloaded(n.activeConnections, n.maxConnections, threshold))
  }

  lemma UtilizationIs(active: nat, max: nat, threshold: real)
    ensures Utilization(active, max) >= threshold <==> Overloaded(active, max, threshold)
  {
    if max > 0 {
      var u, m := Utilization(active, max), max as real;
      assert u * m == active as real;
      if u < threshold {
        Product(u, threshold, m);
      } else if threshold < u {
        Product(threshold, u, m);
      }
    }
  }

  lemma Difference(a: real, b: real, m: real)
    requires m > 0.0
    ensures (a - b) / m == a / m - b / m
  {
  }

  lemma Quotients(active: nat, max: nat)
    requires max > 0
    ensures active as real / max as real >= 0.0
    ensures active >= max ==> active as real / max as real >= 1.0
    ensures active <= max ==> (max - active) as real / max as real == 1.0 - active as real / max as real
  {
    var a, m := active as real, max as real;
    assert m / m == 1.0;
    if active >= max {
      Difference(a, m, m);
      assert (a - m) / m >= 0.0;
    }
    if active <= max {
      Difference(m, a, m);
      assert (max - active) as real == m - a;
    }
  }

  /** The unused share of a node's connections. */
  function Spare(n: Node): real {
    var u := Utilization(n.activeConnections, n.maxConnections);
    if u > 1.0 then 0.0 else 1.0 - u
  }

  lemma SpareIs(n: Node)
    ensures n.activeConnections < n.maxConnections ==>
              Spare(n) * n.maxConnections as real == (n.maxConnections - n.activeConnections) as real
    ensures n.activeConnections >= n.maxConnections ==> Spare(n) == 0.0
  {
    if n.maxConnections > 0 {
      Quotients(n.activeConnections, n.maxConnections);
      var u, m := Utilization(n.activeConnections, n.maxConnections), n.maxConnections as real;
      assert u * m == n.activeConnections as real;
      if n.activeConnections < n.maxConnections {
        assert (n.maxConnections - n.activeConnections) as real / m >= 0.0;
        assert (1.0 - u) * m == m - u * m;
      }
    }
  }

  lemma Factors(n: Node)
    ensures CapacityFactor(n) == Spare(n) && BandwidthFactor(n) == Spare(n) && 0.0 <= Spare(n) <= 1.0
    ensures 0.0 < LatencyFactor(U32_MAX) <= LatencyFactor(n.latencyMs) <= 1.0
  {
    Latencies(n.latencyMs);
    if n.maxConnections > 0 {
      Quotients(n.activeConnections, n.maxConnections);
      if n.activeConnections >= n.maxConnections {
        assert n.AvailableCapacity() == 0;
        assert 0.0 / n.maxConnections as real == 0.0;
      }
    }
  }

  lemma Latencies(latencyMs: u32)
    ensures 0.0 < LatencyFactor(U32_MAX) <= LatencyFactor(latencyMs) <= 1.0
    ensures LatencyFactor(0) == 1.0
  {
    Inverse(1.0 + latencyMs as real, 1.0 + U32_MAX as real);
    Inverse(1.0, 1.0 + latencyMs as real);
  }

  lemma Inverse(a: real, b: real)
    requires 0.0 < a <= b
    ensures 0.0 < 1.0 / b <= 1.0 / a
  {
    Reciprocal(a);
    Reciprocal(b);
    if 1.0 / a < 1.0 / b {
      Product(1.0 / a, 1.0 / b, a);
    }
  }

  lemma Reciprocal(a: real)
    requires 0.0 < a
    ensures 1.0 / a > 0.0 && (1.0 / a) * a == 1.0
  {
  }

  lemma Product(x: real, y: real, a: real)
    requires x < y && a > 0.0
    ensures x * a < y * a
  {
  }

  lemma ScoreOf(n: Node)
    requires n.Selectable()
    ensures Score(n, DEFAULT_WEIGHTS)
            == 100.0 * HealthFactor(n.state) * (1.0 + Spare(n)) * (1.0 + LatencyFactor(n.latencyMs)) * (1.0 + Spare(n))
  {
    hide CapacityFactor, BandwidthFactor, LatencyFactor, Spare;
    Factors(n);
  }

  /** By load alone, whatever latencies the two nodes report: the healthy one is worth more. */
  predicate Outranks(h: Node, d: Node) {
    Square(1.0 + Spare(h)) * 4294967297.0 > Square(1.0 + Spare(d)) * 4294967296.0
  }

  lemma OutranksIs(h: Node, d: Node)
    ensures Outranks(h, d) <==> Weighed(Spare(h), LatencyFactor(U32_MAX)) > Square(1.0 + Spare(d))
  {
    hide Spare, Square;
    var l, s := LatencyFactor(U32_MAX), Square(1.0 + Spare(h));
    assert l * 4294967296.0 == 1.0;
    hide LatencyFactor;
    assert s * (1.0 + l) * 4294967296.0 == s * 4294967296.0 + s * (l * 4294967296.0);
  }

  function Square(x: real): real {
    x * x
  }

  function Weighed(spare: real, latency: real): real {
    Square(1.0 + spare) * (1.0 + latency)
  }

  lemma ScoreWeighs(n: Node)
    requires n.Selectable()
    ensures Score(n, DEFAULT_WEIGHTS)
            == (if n.state.Healthy? then 100.0 else 50.0) * Weighed(Spare(n), LatencyFactor(n.latencyMs))
  {
    hide Spare, LatencyFactor, Score;
    ScoreOf(n);
    Regroup(if n.state.Healthy? then 100.0 else 50.0, 1.0 + Spare(n), 1.0 + LatencyFactor(n.latencyMs));
  }

  lemma Regroup(k: real, x: real, y: real)
    ensures k * x * y * x == k * (Square(x) * y)
  {
  }

  lemma LatencyIs(latencyMs: u32)
    ensures LatencyFactor(latencyMs) * (1.0 + latencyMs as real) == 1.0
  {
    Reciprocal(1.0 + latencyMs as real);
  }

  /**
  The score at the default weights, free of quotients: with a of m connections in use and a latency of
  l it is k (2m - a)² (2 + l) / (m² (1 + l)), where k is 100 for healthy nodes and 50 for degraded ones,
  and as if m were in use when more are.
  */
  lemma ScoreInClosedForm(n: Node)
    requires n.Selectable()
    ensures var k := if n.state.Healthy? then 100.0 else 50.0;
            var a, m, l := n.activeConnections as real, n.maxConnections as real, n.latencyMs as real;
            if n.activeConnections < n.maxConnections
            then Score(n, DEFAULT_WEIGHTS) * (m * m * (1.0 + l)) == k * ((2.0 * m - a) * (2.0 * m - a) * (2.0 + l))
            else Score(n, DEFAULT_WEIGHTS) * (1.0 + l) == k * (2.0 + l)
  {
    hide Score, Spare, LatencyFactor;
    var k := if n.state.Healthy? then 100.0 else 50.0;
    var a, m, l := n.activeConnections as real, n.maxConnections as real, n.latencyMs as real;
    var s, f := Spare(n), LatencyFactor(n.latencyMs);
    ScoreWeighs(n);
    SpareIs(n);
    LatencyIs(n.latencyMs);
    assert (1.0 + f) * (1.0 + l) == 2.0 + l;
    if n.activeConnections < n.maxConnections {
      assert (1.0 + s) * m == 2.0 * m - a;
      Rearranged(k, 1.0 + s, 1.0 + f, m, 1.0 + l);
    } else {
      assert Square(1.0) == 1.0;
      assert k * (1.0 * (1.0 + f)) * (1.0 + l) == k * ((1.0 + f) * (1.0 + l));
    }
  }

  lemma Rearranged(k: real, x: real, y: real, m: real, d: real)
    ensures k * (Square(x) * y) * (m * m * d) == k * ((x * m) * (x * m) * (y * d))
  {
  }

  lemma WeighedGrows(spare: real, l: real, l': real)
    requires 0.0 <= spare && l <= l'
    ensures Weighed(spare, l) <= Weighed(spare, l')
    ensures Weighed(spare, 1.0) == 2.0 * Square(1.0 + spare)
  {
    var s := Square(1.0 + spare);
    assert s >= 0.0;
    assert s * (1.0 + l') - s * (1.0 + l) == s * (l' - l);
    assert s * (l' - l) >= 0.0;
  }

  /**
  The exact condition on the loads under which a healthy node is preferred to a degraded one whatever
  latencies the two report.
  */
  lemma HealthyAheadIffOutranks(h: Node, d: Node)
    requires h.state.Healthy? && d.state.Degraded?
    ensures (forall lh: u32, ld: u32 {:trigger h.(latencyMs := lh), d.(latencyMs := ld)} ::
               Score(h.(latencyMs := lh), DEFAULT_WEIGHTS) > Score(d.(latencyMs := ld), DEFAULT_WEIGHTS))
            <==> Outranks(h, d)
  {
    OutranksIs(h, d);
    hide Score, Spare, Square, Weighed, LatencyFactor, Outranks;
    var slow, quick := h.(latencyMs := U32_MAX), d.(latencyMs := 0);
    Extremes(h, d, slow.latencyMs, quick.latencyMs);
    forall lh: u32, ld: u32 | Outranks(h, d)
      ensures Score(h.(latencyMs := lh), DEFAULT_WEIGHTS) > Score(d.(latencyMs := ld), DEFAULT_WEIGHTS)
    {
      Extremes(h, d, lh, ld);
    }
  }

  /** The least a healthy node can score and the most a degraded one can, over all latencies. */
  lemma Extremes(h: Node, d: Node, lh: u32, ld: u32)
    requires h.state.Healthy? && d.state.Degraded?
    ensures var least := 100.0 * Weighed(Spare(h), LatencyFactor(U32_MAX));
            && least <= Score(h.(latencyMs := lh), DEFAULT_WEIGHTS)
            && (lh == U32_MAX ==> Score(h.(latencyMs := lh), DEFAULT_WEIGHTS) == least)
    ensures var most := 100.0 * Square(1.0 + Spare(d));
            && Score(d.(latencyMs := ld), DEFAULT_WEIGHTS) <= most
            && (ld == 0 ==> Score(d.(latencyMs := ld), DEFAULT_WEIGHTS) == most)
  {
    hide Score, Square, LatencyFactor;
    var h', d' := h.(latencyMs := lh), d.(latencyMs := ld);
    assert Spare(h') == Spare(h) && Spare(d') == Spare(d);
    Factors(h');
    Factors(d');
    Latencies(0);
    ScoreWeighs(h');
    ScoreWeighs(d');
    WeighedGrows(Spare(h), LatencyFactor(U32_MAX), LatencyFactor(lh));
    WeighedGrows(Spare(d), LatencyFactor(ld), 1.0);
  }

  /** Any classification by a threshold, whatever it is, puts healthy nodes above degraded ones. */
  lemma ClassifiedOutranks(h: Node, d: Node, threshold: real)
    requires h.state.Healthy? && d.state.Degraded? && Classified(h, threshold) && Classified(d, threshold)
    ensures Outranks(h, d)
  {
    UtilizationIs(h.activeConnections, h.maxConnections, threshold);
    UtilizationIs(d.activeConnections, d.maxConnections, threshold);
    OutranksIs(h, d);
    hide LatencyFactor, Utilization, Square, Overloaded, Outranks;
    Factors(h);
    Factors(d);
    SquaresOutweigh(1.0 + Spare(h), 1.0 + Spare(d), LatencyFactor(U32_MAX));
  }

  lemma SquaresOutweigh(x: real, y: real, l: real)
    requires 1.0 <= y <= x && l > 0.0
    ensures Square(x) * (1.0 + l) > Square(y)
  {
    SquareGrows(y, x);
    SquareGrows(1.0, y);
    Product(0.0, l, Square(x));
    assert Square(x) * (1.0 + l) == Square(x) + l * Square(x);
  }

  lemma SquareOf(x: real)
    ensures Square(x) == x * x
  {
  }

  lemma SquareGrows(x: real, y: real)
    requires 0.0 < x <= y
    ensures Square(x) <= Square(y) && (x < y ==> Square(x) < Square(y))
  {
    if x < y {
      Product(x, y, x);
      Product(x, y, y);
    }
  }

  /** So a degraded node is selected only if, by load, no listed healthy node outranks it. */
  lemma SelectedIsNotOutranked(nodes: seq<Node>, healthy: nat)
    requires healthy < |nodes| && nodes[healthy].state.Healthy?
    ensures var best := Select(nodes, DEFAULT_WEIGHTS);
            best.Some? && best.value in nodes && (best.value.state.Degraded? ==> !Outranks(nodes[healthy], best.value))
  {
    hide Score, Outranks;
    var i := BestIndex(nodes, DEFAULT_WEIGHTS).value;
    SelectIsLastBest(nodes, DEFAULT_WEIGHTS, i);
    if nodes[i].state.Degraded? {
      var h, d := nodes[healthy], nodes[i];
      HealthyAheadIffOutranks(h, d);
      assert h.(latencyMs := h.latencyMs) == h && d.(latencyMs := d.latencyMs) == d;
    }
  }

  /** At the default threshold the score 121 lies between the two. */
  lemma ScoreSeparates(n: Node)
    requires Classified(n, 0.9)
    ensures n.state.Healthy? ==> Score(n, DEFAULT_WEIGHTS) > 121.0
    ensures n.state.Degraded? ==> Score(n, DEFAULT_WEIGHTS) <= 121.0
  {
    UtilizationIs(n.activeConnections, n.maxConnections, 0.9);
    hide Score, LatencyFactor, Utilization, Square, Overloaded;
    Factors(n);
    assert Square(1.1) == 1.21 by { SquareOf(1.1); }
    var x, l := 1.0 + Spare(n), LatencyFactor(n.latencyMs);
    if n.state.Healthy? {
      ScoreWeighs(n);
      SquareGrows(1.1, x);
      WeighedGrows(Spare(n), 0.0, l);
    } else if n.state.Degraded? {
      ScoreWeighs(n);
      SquareGrows(x, 1.1);
      WeighedGrows(Spare(n), l, 1.0);
    }
  }

  // ----- quicker and emptier nodes first -----

  /** Of the same health, as quick and as empty at least, and quicker or emptier. */
  predicate Dominates(m: Node, n: Node) {
    && m.state == n.state && m.latencyMs <= n.latencyMs && Spare(m) >= Spare(n)
    && (m.latencyMs < n.latencyMs || Spare(m) > Spare(n))
  }

  lemma WeighedStrictly(s: real, s': real, l: real, l': real)
    requires 0.0 <= s <= s' && 0.0 < l <= l' && (s < s' || l < l')
    ensures Weighed(s, l) < Weighed(s', l')
  {
    SquareGrows(1.0 + s, 1.0 + s');
    assert Square(1.0 + s') > 0.0;
    if l < l' {
      Product(1.0 + l, 1.0 + l', Square(1.0 + s'));
    }
    if s < s' {
      Product(Square(1.0 + s), Square(1.0 + s'), 1.0 + l);
    }
  }

  lemma LowerLatencyIsMore(a: u32, b: u32)
    requires a <= b
    ensures LatencyFactor(b) <= LatencyFactor(a) && (a < b ==> LatencyFactor(b) < LatencyFactor(a))
  {
    if a < b {
      var x, y := 1.0 + a as real, 1.0 + b as real;
      Reciprocal(x);
      Reciprocal(y);
      InverseOrder(x, y, 1.0 / x, 1.0 / y);
    }
  }

  lemma InverseOrder(x: real, y: real, p: real, q: real)
    requires 0.0 < x < y && p * x == 1.0 && q * y == 1.0 && q > 0.0
    ensures q < p
  {
    Product(x, y, q);
    assert x * q == q * x && y * q == q * y;
    Cancel(q, p, x);
  }

  lemma Cancel(x: real, y: real, a: real)
    requires a > 0.0 && x * a < y * a
    ensures x < y
  {
    if y < x {
      Product(y, x, a);
    }
  }

  /** A node that dominates another scores more. */
  lemma DominatingScoresMore(m: Node, n: Node)
    requires m.Selectable() && n.Selectable() && Dominates(m, n)
    ensures Score(m, DEFAULT_WEIGHTS) > Score(n, DEFAULT_WEIGHTS)
  {
    hide Score, Spare, LatencyFactor, Weighed;
    Factors(m);
    Factors(n);
    ScoreWeighs(m);
    ScoreWeighs(n);
    LowerLatencyIsMore(m.latencyMs, n.latencyMs);
    WeighedStrictly(Spare(n), Spare(m), LatencyFactor(n.latencyMs), LatencyFactor(m.latencyMs));
  }

  /** At equal health and load the quicker node scores more, and at equal health, latency and size the emptier one. */
  lemma QuickerAndEmptierScoreMore(m: Node, n: Node)
    requires m.Selectable() && m.state == n.state && m.maxConnections == n.maxConnections
    ensures m.activeConnections == n.activeConnections && m.latencyMs < n.latencyMs ==>
              Score(m, DEFAULT_WEIGHTS) > Score(n, DEFAULT_WEIGHTS)
    ensures m.latencyMs == n.latencyMs && m.activeConnections < n.activeConnections
            && m.activeConnections < m.maxConnections ==>
              Score(m, DEFAULT_WEIGHTS) > Score(n, DEFAULT_WEIGHTS)
  {
    if m.activeConnections == n.activeConnections && m.latencyMs < n.latencyMs {
      assert Spare(m) == Spare(n);
      hide Score, Spare;
      DominatingScoresMore(m, n);
    } else if m.latencyMs == n.latencyMs && m.activeConnections < n.activeConnections
              && m.activeConnections < m.maxConnections {
      hide Score, Spare;
      EmptierHasMoreToSpare(m, n);
      DominatingScoresMore(m, n);
    }
  }

  lemma EmptierHasMoreToSpare(m: Node, n: Node)
    requires m.maxConnections == n.maxConnections && m.activeConnections < n.activeConnections
    requires m.activeConnections < m.maxConnections
    ensures Spare(m) > Spare(n)
  {
    hide Spare;
    SpareIs(m);
    SpareIs(n);
    var max, b := m.maxConnections, n.activeConnections;
    Smaller(Spare(n), Spare(m), max as real, if b < max then max - b else 0, max - m.activeConnections);
  }

  lemma Smaller(s: real, s': real, m: real, x: nat, y: nat)
    requires m > 0.0 && s * m == x as real && s' * m == y as real && x < y
    ensures s < s'
  {
    assert x as real < y as real;
    Cancel(s, s', m);
  }

  /** So no listed node dominates the one selected. */
  lemma SelectedIsNotDominated(nodes: seq<Node>, i: nat)
    requires i < |nodes| && nodes[i].Selectable()
    ensures var best := Select(nodes, DEFAULT_WEIGHTS);
            best.Some? && best.value in nodes && !Dominates(nodes[i], best.value)
  {
    hide Score, Dominates;
    var b := BestIndex(nodes, DEFAULT_WEIGHTS).value;
    SelectIsLastBest(nodes, DEFAULT_WEIGHTS, b);
    if Dominates(nodes[i], nodes[b]) {
      DominatingScoresMore(nodes[i], nodes[b]);
    }
  }
}
