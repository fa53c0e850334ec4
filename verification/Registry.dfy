/** The node table and the statements that change it, each of them atomic. */
module Registry {
  import opened Prelude
  import opened Bandwidth
  import opened Nodes

  type Table = map<string, Node>

  datatype RegisterRequest = RegisterRequest(id: string, address: string, maxConnections: u32, bandwidthLimit: u64)

  datatype Heartbeat = Heartbeat(id: string, activeConnections: u32, latencyMs: u32)

  /** An upsert: a known node keeps its beat, load and latency, and restarts only if it was offline. */
  function Upsert(t: Table, req: RegisterRequest): Table {
    if req.id !in t then
      t[req.id := Node(req.id, req.address, Starting, None, req.maxConnections, 0, req.bandwidthLimit, 0)]
    else
      var n := t[req.id];
      t[req.id := n.(address := req.address,
                     maxConnections := req.maxConnections,
                     bandwidthLimit := req.bandwidthLimit,
                     state := if n.state.Offline? || n.state.Starting? then Starting else n.state)]
  }

  function ApplyHeartbeat(t: Table, hb: Heartbeat, now: real): Table {
    if hb.id !in t then t
    else t[hb.id := t[hb.id].(lastHeartbeat := Some(now.Floor),
                              activeConnections := hb.activeConnections,
                              latencyMs := hb.latencyMs)]
  }

  function SetState(t: Table, id: string, state: NodeState): Table {
    if id !in t then t else t[id := t[id].(state := state)]
  }

  function AdjustActive(t: Table, id: string, delta: int): Table {
    if id !in t then t
    else
      var sum := t[id].activeConnections + delta;
      t[id := t[id].(activeConnections := if sum < 0 then 0 else sum)]
  }

  /** Closing a connection undoes opening it, unless the count was cut off at zero in between. */
  lemma AdjustIsUndoneIff(t: Table, id: string, delta: int)
    ensures AdjustActive(AdjustActive(t, id, delta), id, -delta) == t
            <==> (id in t ==> t[id].activeConnections + delta >= 0)
  {
    if id in t {
      var u := AdjustActive(AdjustActive(t, id, delta), id, -delta);
      assert u[id].activeConnections
             == if t[id].activeConnections + delta >= 0 then t[id].activeConnections else -delta;
      if t[id].activeConnections + delta >= 0 {
        assert u[id] == t[id];
      }
    }
  }

  /** No row but that of `id` differs. */
  ghost predicate OnlyRow(t: Table, u: Table, id: string) {
    forall other :: other != id ==> (other in t <==> other in u) && (other in t ==> u[other] == t[other])
  }

  /** Each row is filed under its own id. */
  ghost predicate Keyed(t: Table) {
    forall id :: id in t ==> t[id].id == id
  }

  /** The order of text by code point, which is that of its bytes. */
  predicate IdLess(a: string, b: string) {
    b != "" && (a == "" || a[0] < b[0] || (a[0] == b[0] && IdLess(a[1..], b[1..])))
  }

  /** Where two ids first differ the smaller code point decides, and an id that ends there comes first. */
  ghost predicate DiffersAt(a: string, b: string, k: nat) {
    k <= |a| && k < |b| && a[..k] == b[..k] && (k == |a| || a[k] < b[k])
  }

  lemma SameStart(a: string, b: string, k: nat)
    requires k <= |a| && k <= |b| && a[..k] == b[..k]
    ensures k > 0 ==> a[0] == b[0]
  {
    if k > 0 {
      assert a[..k][0] == a[0] && b[..k][0] == b[0];
    }
  }

  lemma {:induction false} IdLessIsByFirstDifference(a: string, b: string)
    ensures IdLess(a, b) <==> exists k: nat :: DiffersAt(a, b, k)
    decreases |a|
  {
    if a == "" || b == "" || a[0] != b[0] {
      if b != "" && (a == "" || a[0] < b[0]) {
        assert DiffersAt(a, b, 0);
      }
      if k: nat :| DiffersAt(a, b, k) {
        SameStart(a, b, k);
      }
    } else {
      IdLessIsByFirstDifference(a[1..], b[1..]);
      if k: nat :| DiffersAt(a[1..], b[1..], k) {
        assert a[..k + 1] == [a[0]] + a[1..][..k] && b[..k + 1] == [b[0]] + b[1..][..k];
        assert DiffersAt(a, b, k + 1);
      }
      if k: nat :| DiffersAt(a, b, k) {
        assert k > 0;
        assert a[1..][..k - 1] == a[..k][1..] && b[1..][..k - 1] == b[..k][1..];
        assert DiffersAt(a[1..], b[1..], k - 1);
      }
    }
  }

  lemma {:induction false} IdLessIsTotal(a: string, b: string)
    ensures a == b || IdLess(a, b) || IdLess(b, a)
    ensures !(IdLess(a, b) && IdLess(b, a)) && !IdLess(a, a)
    decreases |a|
  {
    if a != "" {
      IdLessIsTotal(a[1..], if b != "" then b[1..] else "");
      if b != "" && a[0] == b[0] && a[1..] == b[1..] {
        assert a == [a[0]] + a[1..] && b == [b[0]] + b[1..];
      }
    }
  }

  lemma {:induction false} IdLessIsTransitive(a: string, b: string, c: string)
    requires IdLess(a, b) && IdLess(b, c)
    ensures IdLess(a, c)
    decreases |a|
  {
    if a != "" && a[0] == b[0] == c[0] {
      IdLessIsTransitive(a[1..], b[1..], c[1..]);
    }
  }

  ghost predicate Ascending(ids: seq<string>) {
    forall i, j :: 0 <= i < j < |ids| ==> IdLess(ids[i], ids[j])
  }

  function IdsOf(nodes: seq<Node>): (ids: seq<string>)
    ensures |ids| == |nodes| && forall i :: 0 <= i < |nodes| ==> ids[i] == nodes[i].id
  {
    seq(|nodes|, i requires 0 <= i < |nodes| => nodes[i].id)
  }

  /** A listing reads every row of the table exactly once, in the order of their ids. */
  ghost predicate IsListing(nodes: seq<Node>, t: Table) {
    && (forall i :: 0 <= i < |nodes| ==> nodes[i].id in t && nodes[i] == t[nodes[i].id].AsRead())
    && Ascending(IdsOf(nodes))
    && (forall id :: id in t ==> id in IdsOf(nodes))
  }

  lemma {:induction false} AscendingIsUnique(xs: seq<string>, ys: seq<string>)
    requires Ascending(xs) && Ascending(ys) && forall s :: s in xs <==> s in ys
    ensures xs == ys
  {
    if xs != [] {
      assert xs[0] in ys;
    }
    if ys != [] {
      assert ys[0] in xs;
      IdLessIsTotal(xs[0], ys[0]);
      forall s
        ensures s in xs[1..] <==> s in ys[1..]
      {
        TailIsRest(xs, s);
        TailIsRest(ys, s);
      }
      AscendingIsUnique(xs[1..], ys[1..]);
      assert xs == [xs[0]] + xs[1..] && ys == [ys[0]] + ys[1..];
    }
  }

  lemma TailIsRest(xs: seq<string>, s: string)
    requires xs != [] && Ascending(xs)
    ensures s in xs[1..] <==> s in xs && s != xs[0]
  {
    IdLessIsTotal(xs[0], xs[0]);
    if s in xs[1..] {
      var i :| 0 < i < |xs| && xs[i] == s;
    }
  }

  lemma AscendingIsDistinct(ids: seq<string>)
    requires Ascending(ids)
    ensures forall i, j :: 0 <= i < j < |ids| ==> ids[i] != ids[j]
  {
    forall i, j | 0 <= i < j < |ids|
      ensures ids[i] != ids[j]
    {
      IdLessIsTotal(ids[i], ids[j]);
    }
  }

  lemma {:induction false} LeastId(ids: set<string>) returns (least: string)
    requires ids != {}
    ensures least in ids && forall id :: id in ids && id != least ==> IdLess(least, id)
    decreases |ids|
  {
    least :| least in ids;
    var rest := ids - {least};
    if rest != {} {
      var next := LeastId(rest);
      IdLessIsTotal(least, next);
      forall id | id in ids && id != least && IdLess(least, next)
        ensures IdLess(least, id)
      {
        if id != next {
          IdLessIsTransitive(least, next, id);
        }
      }
      if IdLess(next, least) {
        least := next;
      }
    }
  }

  lemma AscendingAppend(nodes: seq<Node>, n: Node)
    requires Ascending(IdsOf(nodes)) && forall i :: 0 <= i < |nodes| ==> IdLess(nodes[i].id, n.id)
    ensures Ascending(IdsOf(nodes + [n])) && IdsOf(nodes + [n]) == IdsOf(nodes) + [n.id]
  {
    var all := nodes + [n];
    forall i, j | 0 <= i < j < |all|
      ensures IdLess(IdsOf(all)[i], IdsOf(all)[j])
    {
      if j < |nodes| {
        assert IdLess(IdsOf(nodes)[i], IdsOf(nodes)[j]);
      }
    }
  }

  /** A table has one listing. */
  lemma ListingIsUnique(a: seq<Node>, b: seq<Node>, t: Table)
    requires IsListing(a, t) && IsListing(b, t)
    ensures a == b
  {
    hide Ascending;
    forall s
      ensures s in IdsOf(a) <==> s in t
      ensures s in IdsOf(b) <==> s in t
    {
    }
    AscendingIsUnique(IdsOf(a), IdsOf(b));
    forall i | 0 <= i < |a|
      ensures a[i] == b[i]
    {
      assert IdsOf(a)[i] == IdsOf(b)[i];
    }
  }
}
