# rust-proxy: a verified model

This project models the three cores of the proxy and proves properties of them over all inputs, all
interleavings and all reachable states.

* **Bandwidth** (`RateLimiter.dfy`, `Bandwidth.dfy`, `Slots.dfy`). The lazily refilled token bucket; the
  lock-free reservation counter, both as objects and as any number of threads on one atomic with relaxed
  loads; and the share of a node's limit that one connection reserves.
* **Control plane** (`Nodes.dfy`, `Routing.dfy`, `Registry.dfy`, `Lifecycle.dfy`, `Interleaving.dfy`,
  `Service.dfy`). Node states, scores and selection; whole timed runs of atomic operations; the same
  operations broken into their separate repository calls and interleaved; and the service object with its
  loops.
* **SOCKS5** (`Wire.dfy`, `Address.dfy`, `Requests.dfy`, `Replies.dfy`, `Credentials.dfy`,
  `Greetings.dfy`, `Handshaking.dfy`, `Gateway.dfy`, `NodeAgent.dfy`, `TwoHop.dfy`, `SessionSteps.dfy`). The
  codecs of RFC 1928 and RFC 1929, the stream readers of the two handlers, the gateway and node sessions,
  and the two of them running concurrently between a client and a target, failures in the middle of a
  write included.
* **Connection slots** (`Connections.dfy`). Permits, the active counter and the semaphore handles of a
  server over all interleavings of its connections, with the relaxed loads of the heartbeat and of the two
  drain loops.

`dafny verify dfyconfig.toml` verifies everything.

## Reading guide

Code that updates state is a class or a method with a loop, proved against a function of the old state;
the laws are lemmas about those functions. Clock readings, the answers of the control plane and of the
target, sleep lengths, spurious swap failures and the bytes a peer sends or accepts are parameters. A read
that would wait beyond its deadline is a read of bytes that are not in the input; a write fails once the
peer has taken all it is willing to take, after delivering what it took.

Some promises turn out false of the code. Each has a lemma with a failing run and a lemma that gives the
exact condition:

* A refused reservation need not be over the limit at that moment, because the load is relaxed
  (`StaleLoadRefusesWhatFits`; exactly when: `WronglyRefusedIff` for one load, `RunRefinesPoolIff` for a run).
* A lowered bandwidth limit is not enforced (`LoweredLimitIsNotEnforced`; what is enforced instead:
  `CeilingIsFirstLimit`; exactly when the new limit is kept all the same: `NewLimitHoldsIff`).
* A drain can be overwritten by a heartbeat that read the row before it (`DrainIsLostInSomeRun`; exactly
  when: `DrainCanBeLostIff`, `DrainCanEndIff`).
* A degraded node can be selected ahead of a healthy one (`AdjustedDegradedBeatsHealthy`,
  `SettledDegradedBeatsAdjusted`; exactly when, by their loads: `HealthyAheadIffOutranks`).
* Registering an offline node can be undone by a sweep before its next beat (`RevivalIsUndoneInSomeRun`;
  exactly when: `RevivesIffNoStaleSweep`).
* A node that has just been heard can be marked offline, by a sweep that listed it before
  (`HeardIsMarkedInSomeRun`; exactly when: `HeardCanBeMarkedIff`).
* A client whose target cannot be reached gets no reply at all: of the node's refusal the gateway passes
  nothing on (`ClientIsLeftUnanswered`, `RefusedIsTheEnd`; exactly when: `UnansweredIffDialFailed`).
* The node's drain loop can end with a connection being served or still to be served
  (`StaleLookMissesServing`, `NodeDrainMissesSome`; exactly when: `NodeDrainMissesIff`). The gateway's cannot
  (`GatewayDrainIsComplete`).
* Names over 255 bytes do not survive their length byte (`LongNameIsMisread`; exactly when: the
  `RoundTripIff` lemmas).
* The gateway reads one byte too many of a node reply that carries a name (any such reply; exactly when:
  `ReplyIsTakenExactlyIff`); the node never sends one, so the two together are still exact.

Where comments and code disagree the model follows the code: of equally scored nodes `select` returns the
last one by id although the module comment says the first (crates/control-plane/src/routing.rs:5), while
`select_with_bandwidth` tries the first; no operation takes a draining node offline although the diagram
draws that edge (crates/control-plane/src/model.rs:23); `negotiate` looks for no authentication before
username and password although its comment says otherwise (crates/protocol/src/handshake.rs:86), which its
two callers cannot tell apart; a dropped guard subtracts without saturating
(crates/control-plane/src/bandwidth.rs:105-107).

## Model

| member | source | states |
|---|---|---|
| `RateLimiting.BucketIsExact` | crates/control-plane/src/bandwidth.rs:135-158 | after any run of takes from a full bucket, the tokens left are the minimum, over every window of real start within the run that ends now, of capacity plus rate × length minus grants in the window |
| `RateLimiting.NoWindowExceeds` | crates/control-plane/src/bandwidth.rs:111-116 | no closed time window of any run is granted more than capacity + rate × length |
| `RateLimiting.RefusedIffSomeWindowFull` | crates/control-plane/src/bandwidth.rs:149-158 | a take is refused if and only if granting it would break that bound for some window |
| `RateLimiting.FailedCallsLeaveNoTrace` | crates/control-plane/src/bandwidth.rs:135-158 | deleting every failed take from a run changes neither the kept outcomes nor any later outcome or state |
| `RateLimiting.EarlierReadingAddsNothing` | crates/control-plane/src/bandwidth.rs:135-141 | a clock reading before the last one adds no tokens and takes none away |
| `RateLimiting.AcquireExactly` | crates/control-plane/src/bandwidth.rs:161-170 | at a positive rate, with sleeps of at least the requested length, waiting returns if and only if the request fits the capacity, and then by the second try |
| `RateLimiting.RequestedIsLeast` | crates/control-plane/src/bandwidth.rs:161-170 | the sleep asked for is the least one, among those of at least a millisecond, after which a request that fits the capacity is granted |
| `RateLimiting.WaitingIsTaking` | crates/control-plane/src/bandwidth.rs:161-170 | waiting is a run of takes at the times the sleeps end: it returns when the last is granted and all before are refused, is still asleep when all are refused, and panics exactly when the rate is zero and the first is refused |
| `RateLimiting.OversizedNeverAcquires` | crates/control-plane/src/bandwidth.rs:161-170 | a request above capacity is never served, whatever the rate and the sleeps |
| `RateLimiting.RateLimiter.constructor` | crates/control-plane/src/bandwidth.rs:126-133 | a new limiter holds its capacity in tokens, with rate and clock as given |
| `RateLimiting.RateLimiter.Refill` | crates/control-plane/src/bandwidth.rs:135-141 | the new state is the refilled bucket of the theorems above |
| `RateLimiting.RateLimiter.TryTake` | crates/control-plane/src/bandwidth.rs:149-158 | outcome and new state are those of one take in the theorems above |
| `RateLimiting.RateLimiter.Acquire` | crates/control-plane/src/bandwidth.rs:161-170 | the loop computes the waiting function of the theorems above, including the panic at rate zero |
| `Bandwidth.Admit` | crates/control-plane/src/bandwidth.rs:43-47 | the checked addition and ceiling test admit exactly when current + rate is within the limit as unbounded integers |
| `Bandwidth.BandwidthAllocator.TryReserve` | crates/control-plane/src/bandwidth.rs:41-59 | undisturbed, a guard is returned exactly when the rate fits, after any number of spurious swap failures, and the counter rises by its rate |
| `Bandwidth.BandwidthGuard.Drop` | crates/control-plane/src/bandwidth.rs:103-109 | dropping subtracts the rate as the machine does |
| `Bandwidth.ReserveThenDrop` | crates/control-plane/src/bandwidth.rs:41-59 | a reservation that is dropped restores the counter |
| `Bandwidth.EveryRunIsSafe` | crates/control-plane/src/bandwidth.rs:20-23 | in every interleaving, with loads as stale as relaxed ordering allows, the counter equals the sum of outstanding guards, stays within the limit, and no drop underflows |
| `Bandwidth.RunRefinesPoolIff` | crates/control-plane/src/bandwidth.rs:41-59 | a run of any number of threads is a run of the atomic pool, a success taking effect at its swap and a refusal at its load, if and only if every refusal is of a request that does not fit at that load; however stale the other loads are |
| `Bandwidth.AnswersAreToCalls` | crates/control-plane/src/bandwidth.rs:41-59 | in every interleaving what is reserved for a thread or refused to it is the rate it last called with; each call is answered once, and no thread calls again before that |
| `Bandwidth.CallCanBeAnswered` | crates/control-plane/src/bandwidth.rs:41-59 | left alone, a thread with a call under way is answered within three steps, with a guard exactly when the rate it called with fits what is outstanding |
| `Bandwidth.CallsAndDropsAreFree` | crates/control-plane/src/bandwidth.rs:41-109 | an answered thread may call with any rate, and any outstanding guard may be dropped |
| `Bandwidth.LoadsNeverGoBack` | crates/control-plane/src/bandwidth.rs:43 | the relaxed loads of one thread never go back in the modification order |
| `Bandwidth.FreshRefusalsAreDue` | crates/control-plane/src/bandwidth.rs:41-59 | which is so in every run whose refusing loads are fresh |
| `Bandwidth.WronglyRefusedIff` | crates/control-plane/src/bandwidth.rs:43-47 | in a reachable state a calling thread can be refused what fits if and only if some counter value no older than it has seen leaves no room for its rate |
| `Bandwidth.EveryLabelHasGrounds` | crates/control-plane/src/bandwidth.rs:41-59 | with stale loads too, reservations and releases refine the pool, and a refusal was justified at a point of the run not before the last change the refused thread made itself, so never by a guard it had dropped |
| `Bandwidth.StaleLoadRefusesWhatFits` | crates/control-plane/src/bandwidth.rs:43 | a run in which a stale load refuses what fits an empty pool |
| `Slots.CeilingIsFirstLimit` | crates/control-plane/src/service.rs:59-64 | over all runs and re-registrations, a node's guards are held to the limit in force when it was first tried |
| `Slots.LoweredLimitIsNotEnforced` | crates/control-plane/src/service.rs:59-64 | a run whose reservations exceed the limit the node has since lowered |
| `Slots.NewLimitHoldsIff` | crates/control-plane/src/service.rs:59-64 | a node re-registered with any guards outstanding keeps within its new limit over all asks and releases if and only if, whichever of the old guards are left, the whole new shares the old ceiling has room for beside them fit the new limit with them |
| `Slots.FreshLimitHoldsIff` | crates/control-plane/src/service.rs:59-64 | with nothing outstanding: if and only if the whole new shares in the old ceiling fit |
| `Slots.SlotBounds` | crates/control-plane/src/service.rs:144-153 | with a fixed registration every guard g satisfies g·m ≤ limit < (g+1)·m for m = max(max_connections, 1), or is one byte if the limit is below m; when another guard is granted exactly; all m slots can be filled and fewer than 2m are; with less than a byte per slot exactly `limit` guards are admitted |
| `Slots.SlotsCanBeFilled` | crates/control-plane/src/service.rs:144-153 | with a byte for each, m asks leave m guards outstanding |
| `Slots.ShareIsQuotient` | crates/control-plane/src/service.rs:147-148 | the share of one connection is that g |
| `Routing.BestIndex` | crates/control-plane/src/routing.rs:98-110 | nothing is selected exactly when nothing is selectable, and what is selected is selectable |
| `Routing.SelectIsLastBest` | crates/control-plane/src/routing.rs:98-110 | the selected position is exactly the one that no selectable node outscores and no later one equals |
| `Routing.SortIsStable` | crates/control-plane/src/service.rs:138-142 | the candidate order is a permutation in descending scores that keeps equals in listing order |
| `Routing.SortHead` | crates/control-plane/src/service.rs:138-142 | the first candidate is the first of the best scored |
| `Routing.ScoreSeparates` | crates/control-plane/src/routing.rs:52-96 | at the default weights and threshold, classified healthy nodes score above 121 and classified degraded ones at most 121 |
| `Routing.HealthyAheadIffOutranks` | crates/control-plane/src/routing.rs:82-96 | a healthy node outscores a degraded one whatever latencies the two report if and only if their spare shares satisfy (1 + spare of the healthy)² × (1 + 1/2³²) > (1 + spare of the degraded)² |
| `Routing.ClassifiedOutranks` | crates/control-plane/src/routing.rs:82-96 | any classification by a threshold, whatever the threshold, gives such loads |
| `Routing.SelectedIsNotOutranked` | crates/control-plane/src/routing.rs:98-110 | a degraded node is selected only if no listed healthy node outranks it by load |
| `Routing.ScoreInClosedForm` | crates/control-plane/src/routing.rs:52-96 | with a of m slots in use and latency l the default score is k (2m - a)² (2 + l) / (m² (1 + l)), where k is 100 or 50, and as if m were in use when more are |
| `Routing.DominatingScoresMore` | crates/control-plane/src/routing.rs:82-96 | of two nodes in the same state, one that is no slower and no fuller, and in one of these better, scores more |
| `Routing.QuickerAndEmptierScoreMore` | crates/control-plane/src/routing.rs:82-96 | at equal health and load the quicker of two nodes scores more, and at equal health, latency and size the emptier, unless both are full |
| `Routing.SelectedIsNotDominated` | crates/control-plane/src/routing.rs:98-110 | no listed node dominates the selected one |
| `Lifecycle.EveryEventFollowsEdges` | crates/control-plane/src/model.rs:6-29 | every atomic operation moves a node along the listed edges only; only a heartbeat of a starting node makes it selectable |
| `Lifecycle.RowIsWhatWasReported` | crates/control-plane/src/registry.rs:133-237 | over all runs a row exists exactly when its node was registered, its configuration is that of the last registration, its beat and latency those of the last heartbeat whatever was registered since, and its load that of the last heartbeat with later adjustments, cut off at zero |
| `Lifecycle.OthersDoNotMatter` | crates/control-plane/src/registry.rs:133-237 | over all runs a row is the same without the events of all other nodes |
| `Lifecycle.ApplyKeepsKeyed` | crates/control-plane/src/registry.rs:133-236 | rows stay filed under their ids |
| `Lifecycle.DrainingForever` | crates/control-plane/src/health.rs:27-31 | no run of atomic operations ends a drain |
| `Lifecycle.SelectableNeedsBeat` | crates/control-plane/src/service.rs:79-95 | no run without a heartbeat of a node makes it selectable |
| `Lifecycle.FailoverBound` | crates/control-plane/src/service.rs:167-182 | with sweeps at most `gap` apart, a node last heard at h is not selectable from h + timeout + gap on, whatever else happens; with a timeout of zero, at any instant after h + gap |
| `Lifecycle.FailoverBoundIsLeast` | crates/control-plane/src/service.rs:167-182 | the bound is the least one: for every positive timeout, every gap and every small e a run under the same conditions has the node selectable at h + timeout + gap - e |
| `Lifecycle.ZeroTimeoutAtTheEdge` | crates/control-plane/src/service.rs:167-182 | with a timeout of zero a run whose node is selectable at h + gap itself, its beat following the sweep of the same instant |
| `Lifecycle.SilenceIsMarked` | crates/control-plane/src/health.rs:56-71 | over all runs a sweep marks exactly the starting, healthy and degraded nodes whose last beat, cut down to its second, is the timeout or more ago, a beat in the future being no time ago; so every one silent for the timeout, none silent for no more than the timeout less a second, and none that never beat |
| `Nodes.Defaults` | crates/control-plane/src/health.rs:17-25 | by default stale is thirty seconds of silence, and a healthy node degrades at nine tenths of its slots, or without slots |
| `Lifecycle.RevivesIffNoStaleSweep` | crates/control-plane/src/registry.rs:140-146 | a node that registers while offline, starting or new is selectable after its next beat, whatever other events come between, if and only if it is not drained meanwhile and no sweep in between finds the beat of its earlier life stale |
| `Lifecycle.RevivalIsUndoneInSomeRun` | crates/control-plane/src/registry.rs:140-146 | a run in which a swept node registers, is swept again before it beats, and stays offline |
| `Lifecycle.OfflineNeedsRegister` | crates/control-plane/src/health.rs:38-39 | no number of beats, sweeps and adjustments brings an offline node back |
| `Lifecycle.SweepIsExact` | crates/control-plane/src/service.rs:167-182 | a sweep turns exactly the overdue live nodes offline, changes nothing else, and leaves a second one nothing to do |
| `Lifecycle.SettledIsClassified` | crates/control-plane/src/health.rs:32-53 | over all runs, a node with a heartbeat since it was last registered or adjusted has the state its load calls for |
| `Lifecycle.SettledHealthyBeatsDegraded` | crates/control-plane/src/service.rs:126-131 | over all runs and under any policy, while a settled healthy node is listed no settled degraded node is selected |
| `Lifecycle.AdjustedDegradedBeatsHealthy` | crates/control-plane/src/registry.rs:226-237 | the degraded node has to be settled: a run in which one relieved of its load is selected ahead of a settled healthy one |
| `Lifecycle.SettledDegradedBeatsAdjusted` | crates/control-plane/src/registry.rs:226-237 | and so has the healthy one: a run in which one adjusted up to its ceiling loses to a settled degraded one |
| `Interleaving.SelectableMeansHeard` | crates/control-plane/src/service.rs:86-90 | in every reachable interleaved state a selectable node has a recorded heartbeat |
| `Interleaving.DrainIsStable` | crates/control-plane/src/service.rs:116-123 | under every interleaving of calls a drained node with no overwrite pending is never selectable again unless registered while offline, and stays draining if no mark is pending |
| `Interleaving.UndisturbedDrainIsForever` | crates/control-plane/src/service.rs:116-123 | with neither pending it stays draining whatever is registered |
| `Interleaving.DrainCanBeLostIff` | crates/control-plane/src/service.rs:79-90 | a drained node can become selectable without such a registration if and only if a heartbeat that will write another state is past its read |
| `Interleaving.DrainCanEndIff` | crates/control-plane/src/service.rs:167-182 | a drain can end at all if and only if such a heartbeat or a sweep holding the node is under way |
| `Interleaving.OverwriteHappens` | crates/control-plane/src/service.rs:86-90 | the pending heartbeat needs at most two calls to make the node selectable |
| `Interleaving.DrainIsLostInSomeRun` | crates/control-plane/src/service.rs:79-90 | a run from the empty registry that reaches that condition |
| `Interleaving.UninterruptedBeatIsAtomic` | crates/control-plane/src/service.rs:79-95 | the calls of a heartbeat, uninterrupted, add up to the atomic operation |
| `Interleaving.UninterruptedSweepIsAtomic` | crates/control-plane/src/service.rs:167-182 | and so do those of a sweep |
| `Interleaving.AtomicRunsEmbed` | crates/control-plane/src/service.rs:67-182 | every run of whole operations, with its table, is a run of their separate calls: interleaving only adds runs |
| `Interleaving.AllCanBreakOff` | crates/control-plane/src/service.rs:79-95 | operations under way can break off between two calls, whatever else is under way |
| `Interleaving.HeardCanBeMarkedIff` | crates/control-plane/src/service.rs:167-182 | a node heard no earlier than a given second can be marked before that beat is stale, by calls made in time, if and only if a sweep that listed it earlier has yet to mark it |
| `Interleaving.HeardIsMarkedInSomeRun` | crates/control-plane/src/service.rs:167-182 | a run from the empty registry that reaches that condition |
| `Service.FirstRoomIsFirst` | crates/control-plane/src/service.rs:144-153 | the reference: the first node with room, all judged by the same allocators |
| `Service.FirstFitTakesFirstRoom` | crates/control-plane/src/service.rs:144-153 | allocators created on the way do not change who is chosen |
| `Service.FirstFitReservesOnce` | crates/control-plane/src/service.rs:144-153 | one share is reserved, on the chosen node, and no other reservation or ceiling changes |
| `Service.ChosenIsBestWithRoom` | crates/control-plane/src/service.rs:135-155 | the chosen node had room, every strictly higher scored selectable node was full, and nobody is chosen exactly when all were full |
| `Service.AgreesWithSelectIffUnique` | crates/control-plane/src/service.rs:126-155 | where all have room, it agrees with plain selection if and only if the best score is held once |
| `Service.FreshNodeFits` | crates/control-plane/src/service.rs:147-150 | a node without reservations has room exactly when its limit is positive |
| `Service.FreshAgreesWithSelectIffUnique` | crates/control-plane/src/service.rs:126-155 | the same with nothing reserved and positive limits |
| `Service.TrialIsAsk` | crates/control-plane/src/service.rs:147-152 | trying a node is one ask of the account that the slot theorems speak of |
| `Service.SelectIgnoresIneligible` | crates/control-plane/src/service.rs:126-131 | filtering before selecting changes nothing |
| `Service.ControlPlaneService.constructor` | crates/control-plane/src/service.rs:38-45 | a new service is empty and uses the default weights |
| `Registry.ListingIsUnique` | crates/control-plane/src/registry.rs:167-172 | ordered by id, a table has exactly one listing |
| `Registry.IdLessIsByFirstDifference` | crates/control-plane/src/registry.rs:167-172 | the order of the listing: the smaller code point at the first difference, or the id that ends there |
| `Registry.AdjustIsUndoneIff` | crates/control-plane/src/registry.rs:226-237 | an adjustment is undone by its opposite if and only if the count was not cut off at zero in between |
| `Service.ControlPlaneService.Register` | crates/control-plane/src/service.rs:67-76 | configuration is replaced, beat, load and latency of a known node are kept, only an offline node changes state, no other row changes; it is the Register event of the run theorems |
| `Service.ControlPlaneService.Heartbeat` | crates/control-plane/src/service.rs:79-95 | the writes in sequence are the one Beat event of the run theorems; an unknown node is ignored |
| `Service.ControlPlaneService.Drain` | crates/control-plane/src/service.rs:116-123 | a known node is draining, not selectable and otherwise as it was, an unknown one is reported, no other row changes; it is the Drain event of the run theorems |
| `Service.ControlPlaneService.List` | crates/control-plane/src/registry.rs:167-172 | every row exactly once, as read, in the order of the ids |
| `Service.ControlPlaneService.SelectNode` | crates/control-plane/src/service.rs:126-131 | returns a selectable row that no selectable row outscores or, at the default weights, dominates by load and latency; of equals the one with the greatest id; or nothing exactly when none is selectable |
| `Service.ControlPlaneService.Allocator` | crates/control-plane/src/service.rs:59-64 | an existing allocator is kept whatever limit is passed |
| `Service.ControlPlaneService.TryNode` | crates/control-plane/src/service.rs:144-153 | one candidate: with total its counter, or zero for a new allocator at its present limit, a guard exactly when total plus its share (g·m ≤ limit < (g+1)·m) is within the allocator's limit, and the counter then rises by the share; no other total changes, existing allocators stay the same objects |
| `Service.ChosenAmidOthers` | crates/control-plane/src/service.rs:135-155 | whatever other threads reserve and release between the tries, the chosen node had room when it was tried, every strictly higher scored selectable node was tried and full, and if nobody is chosen all were tried and full |
| `Service.AmidIsFirst` | crates/control-plane/src/service.rs:144-153 | the first candidate that has room when it is tried is chosen |
| `Service.AloneIsFirstFit` | crates/control-plane/src/service.rs:144-153 | with no other threads at work that is plain first fit |
| `Service.ControlPlaneService.SelectWithBandwidth` | crates/control-plane/src/service.rs:135-155 | the loop on shared counters, with any doings of other threads between the tries, chooses as that first fit over the sorted eligible listing does and leaves its totals; the guard holds the counter of the chosen node and its rate g satisfies g·m ≤ limit < (g+1)·m there |
| `Service.SelectThenRelease` | crates/control-plane/src/service.rs:135-155 | dropping the guard of a selection restores every total |
| `Service.ControlPlaneService.AdjustActiveConnections` | crates/control-plane/src/service.rs:158-160 | the count of a known node moves by the delta but not below zero, nothing else changes; it is the Adjust event of the run theorems |
| `Service.ControlPlaneService.MarkStaleOffline` | crates/control-plane/src/service.rs:167-182 | the row-by-row loop is the one Sweep event of the run theorems and returns the number of rows whose state it changed |
| `Connections.LoadIsExact` | crates/node/src/server.rs:124-126 | in every interleaving the counter is the number of connections being served modulo 2^32, and within the ceiling; so for ceilings below 2^32 it is that number |
| `Connections.ReportedLoadWasExact` | crates/node/src/server.rs:33-38 | what a relaxed heartbeat load reports is within the ceiling and was that number, modulo 2^32, at a point of the run no older than the last report |
| `Connections.LoadsNeverGoBack` | crates/node/src/server.rs:33-38 | however relaxed, the loads of the heartbeats, and those of each drain loop, never go back |
| `Connections.GatewayDrainIsComplete` | crates/gateway/src/gateway.rs:92-100 | however stale the load of the handle count on which the drain loop leaves, every connection has finished and none will start |
| `Connections.FreshLoadLeavesIff` | crates/gateway/src/gateway.rs:92-100 | with a fresh load the gateway's drain loop leaves if and only if every connection has finished, and the node's if and only if none is counted |
| `Connections.DrainCanEndIff` | crates/gateway/src/gateway.rs:92-100 | from every point of every run there is a way through shutdown to the end of the drain if and only if there are permits at all or nobody was ever accepted |
| `Connections.AcceptedMayBeServedIff` | crates/gateway/src/gateway.rs:63-77 | an accepted connection that waits for its permit can be served in some continuation if and only if there are permits at all and shutdown has not begun |
| `Connections.AcceptingMayAccept` | crates/gateway/src/gateway.rs:54-90 | while the accepting loop runs connections may be accepted, whatever the permits and even after shutdown has begun; it stops only then |
| `Connections.NodeDrainMissesIff` | crates/node/src/server.rs:141-150 | the drain loop may leave while a handler runs or may still start if and only if the count was zero at some point no older than the loop has seen and a connection is being served or is past the shutdown test; before its first look there is such a point |
| `Connections.FreshLookMissesIff` | crates/node/src/server.rs:141-150 | with a fresh load no handler runs when the loop leaves, and one may still start if and only if a connection is past the shutdown test but not counted |
| `Connections.MayServeIff` | crates/node/src/server.rs:120-126 | after the shutdown a handler runs or can still start if and only if a connection is being served or past the shutdown test |
| `Connections.NodeDrainMissesSome` | crates/node/src/server.rs:120-126 | a run that reaches that condition with a fresh load |
| `Connections.StaleLookMissesServing` | crates/node/src/server.rs:141-150 | a run in which the loop may leave on a stale zero while a handler runs |
| `Wire.Reader.ReadU8` | crates/protocol/src/reader.rs:25-29 | the next byte, or truncation without moving |
| `Wire.Reader.ReadU16` | crates/protocol/src/reader.rs:31-35 | 256 × the next byte + the one after it, or truncation |
| `Wire.Reader.ReadBytes` | crates/protocol/src/reader.rs:38-46 | exactly n bytes, or truncation without moving |
| `Wire.TextIsUtf8` | crates/protocol/src/request.rs:82 | the bytes accepted as text are exactly the encodings, by section 3 of RFC 3629, of sequences of Unicode scalar values |
| `Address.RoundTripIff` | crates/protocol/src/host.rs:27-86 | an address is read back from its encoding before any tail if and only if its name fits the length byte and is not empty where empty names are refused |
| `Address.DecodeIsCanonical` | crates/protocol/src/request.rs:63-90 | what is accepted is the encoding of what is returned and every strict prefix is truncated |
| `Address.WireForm` | crates/protocol/src/host.rs:53-77 | the encoding byte by byte |
| `Address.RefusedIffUnfit` | crates/protocol/src/request.rs:63-90 | an address is refused exactly for an unknown type or a name that is empty, where that matters, or no text; every answer but truncation stands whatever follows, and 258 bytes always suffice |
| `Address.LongNameIsMisread` | crates/protocol/src/host.rs:68-72 | a name of 257 bytes is read back as a name of one byte at another port |
| `Address.Write` | crates/protocol/src/host.rs:53-77 | fills exactly the encoding and leaves the rest of the buffer alone |
| `Address.ToVec` | crates/protocol/src/host.rs:81-85 | the encoding, of the announced length |
| `Requests.RoundTripIff` | crates/protocol/src/request.rs:50-112 | a request is read back from its frame before any tail if and only if its name has 1 to 255 bytes |
| `Requests.DecodeIsCanonical` | crates/protocol/src/request.rs:50-92 | an accepted frame is the print of its request up to the reserved byte, and every strict prefix yields exactly truncation |
| `Requests.FrameForm` | crates/protocol/src/request.rs:103-112 | the frame byte by byte |
| `Requests.RefusedIff` | crates/protocol/src/request.rs:50-92 | each error exactly when; every answer but truncation stands whatever follows, and 262 bytes always suffice |
| `Requests.DecodeIgnoresTail` | crates/protocol/src/request.rs:45-49 | frames delimit themselves |
| `Requests.AddrLenIsExact` | crates/protocol/src/request.rs:115-134 | the announced address length is the parsed one |
| `Requests.AddrLen` | crates/protocol/src/request.rs:115-134 | an announced length is refused exactly for an unknown type or a missing or empty name, with that type |
| `Requests.AnnouncedIsEnough` | crates/gateway/src/handler.rs:252-290 | reading as far as announced and parsing that agrees with parsing everything |
| `Requests.Parse` | crates/protocol/src/request.rs:50-92 | the cursor parser computes the decoder of the laws, errors included |
| `Requests.ToBytes` | crates/protocol/src/request.rs:103-112 | the frame with reserved byte zero |
| `Replies.RoundTripIff` | crates/protocol/src/reply.rs:16-75 | a reply is read back from its frame before any tail if and only if its name has at most 255 bytes |
| `Replies.DecodeIsCanonical` | crates/protocol/src/reply.rs:32-74 | an accepted frame is the print of its reply up to the reserved byte, and strict prefixes are truncated |
| `Replies.FrameForm` | crates/protocol/src/reply.rs:16-29 | the frame byte by byte, and that of a reply without an address |
| `Replies.RefusedIff` | crates/protocol/src/reply.rs:32-74 | each error exactly when; every answer but truncation stands whatever follows, and 262 bytes always suffice |
| `Replies.Parse` | crates/protocol/src/reply.rs:32-74 | the cursor parser computes the decoder of the laws |
| `Replies.ToBytes` | crates/protocol/src/reply.rs:20-29 | the frame with reserved byte zero |
| `Credentials.RoundTripIff` | crates/protocol/src/auth.rs:30-68 | credentials are read back before any tail if and only if both fit their length bytes and the username is not empty |
| `Credentials.DecodeIsCanonical` | crates/protocol/src/auth.rs:30-52 | an accepted frame is the print of its credentials, and strict prefixes are truncated |
| `Credentials.RefusedIff` | crates/protocol/src/auth.rs:30-52 | each error exactly when; every answer but truncation stands whatever follows, and 513 bytes always suffice |
| `Credentials.FrameForm` | crates/protocol/src/auth.rs:60-68 | the frames byte by byte |
| `Credentials.Parse` | crates/protocol/src/auth.rs:30-52 | the cursor parser computes the decoder of the laws |
| `Credentials.ToVec` | crates/protocol/src/auth.rs:60-68 | the frame, of the announced length |
| `Greetings.RoundTripIff` | crates/protocol/src/handshake.rs:17-46 | a greeting is read back before any tail if and only if it offers a method, and its length is announced |
| `Greetings.DecodeIsCanonical` | crates/protocol/src/handshake.rs:19-36 | an accepted frame is the encoding of its greeting, and strict prefixes are truncated |
| `Greetings.RefusedIff` | crates/protocol/src/handshake.rs:19-36 | each error exactly when; every answer but truncation stands whatever follows |
| `Greetings.FrameForm` | crates/protocol/src/handshake.rs:13-46 | the frames byte by byte |
| `Greetings.Parse` | crates/protocol/src/handshake.rs:19-36 | the cursor parser computes the decoder of the laws |
| `Greetings.Negotiate` | crates/protocol/src/handshake.rs:90-103 | 0 exactly when it is offered and allowed, 2 only then, 0xFF exactly when neither is |
| `Handshaking.ReadGreeting` | crates/gateway/src/handler.rs:180-196 | on every stream, succeeds with exactly what the buffer parser returns and consumes exactly its frame |
| `Handshaking.ReadCredentials` | crates/gateway/src/handler.rs:198-225 | the same for credentials |
| `Handshaking.ReadFrame` | crates/node/src/handler.rs:246-279 | reads exactly the frame that header and length byte announce |
| `Handshaking.ReadRequest` | crates/gateway/src/handler.rs:252-290 | the same for requests: success with r after n bytes if and only if the buffer parser returns (r, n) |
| `Handshaking.CheckCredentials` | crates/gateway/src/handler.rs:198-250 | accepted exactly when the credentials equal the configured ones; either verdict is written |
| `Handshaking.RunFrontEnd` | crates/node/src/handler.rs:87-121 | on any stream, which request is taken, what is answered and what is consumed |
| `Handshaking.AnswersInBytes` | crates/gateway/src/handler.rs:92-126 | for every input, the bytes answered and whether a request is looked for: nothing to a malformed greeting, 5 255 if the configured method is not offered, 5 2 1 1 to wrong credentials, and so on |
| `Handshaking.SpeechIsUnderstood` | crates/gateway/src/handler.rs:92-126 | every client that offers the configured method, proves itself and asks is understood and consumed to the byte, whatever follows |
| `Handshaking.OnlySpeechIsUnderstood` | crates/gateway/src/handler.rs:92-126 | nobody else gets a request taken |
| `Gateway.ReplyIsTakenExactlyIff` | crates/gateway/src/handler.rs:326-343 | of a well-formed node reply the gateway stops at the end exactly when it carries no name; of a name it takes one byte more |
| `Gateway.ReadReply` | crates/gateway/src/handler.rs:326-345 | the stream reader takes exactly that |
| `Gateway.Chain` | crates/gateway/src/handler.rs:292-353 | what is said to the node as far as it takes it; success exactly when it agreed and took it all, and a refusal exactly when it answered with another code |
| `Gateway.RunServe` | crates/gateway/src/handler.rs:113-164 | exactly what is written to either peer: the reply as far as the client takes it, unless the node did not take all that is said to it; no-node exactly when CONNECT found none picked |
| `Gateway.Run` | crates/gateway/src/handler.rs:92-176 | the relay starts exactly when success was answered in full; in every case exactly what is written to either peer, as far as it takes it |
| `Gateway.AnswersInBytes` | crates/gateway/src/handler.rs:113-164 | for every acceptable speech and payload, after selection and verdict: 5 7 0 1 0 0 0 0 0 0 if the command is not CONNECT, 5 4 0 1 0 0 0 0 0 0 if no node is picked, 5 0 0 1 0 0 0 0 0 0 if the node agrees, nothing if it cannot be reached or does not; and what the node is told |
| `Gateway.ChainInBytes` | crates/gateway/src/handler.rs:292-353 | which node answers, byte by byte, count as agreement |
| `Gateway.SuccessOnlyAfter` | crates/gateway/src/handler.rs:92-164 | success is only written after an offered method was selected, configured credentials matched, CONNECT was asked, and the node asked for that same address answered success |
| `Gateway.SuccessAlwaysAfter` | crates/gateway/src/handler.rs:92-164 | and always then, with both incoming streams left at the first byte after the handshake |
| `NodeAgent.Run` | crates/node/src/handler.rs:87-150 | every request is answered with the code of its outcome, exactly as far as the gateway takes it, and the relay starts exactly after a full success |
| `NodeAgent.AnswersInBytes` | crates/node/src/handler.rs:110-150 | for every acceptable speech and payload the reply code is 7 to a command other than CONNECT, 0 if the target is reached, 5 if it refuses, 6 if it does not answer in time, 3 otherwise |
| `NodeAgent.UnderstandsGateway` | crates/node/src/handler.rs:87-150 | what a gateway says is understood by the node as a request for the same address |
| `TwoHop.TwoHopIsByteExact` | crates/gateway/src/handler.rs:92-176 | over all interleavings and failures, also in the middle of a write, the node asks for the client's address, the target gets a prefix of the payload and the client a prefix of answers and data, which what is before a party still up continues; while both relay nothing is lost, doubled or reordered |
| `TwoHop.RelayStartsAtFirstByte` | crates/gateway/src/handler.rs:155-167 | when the gateway starts to relay all streams stand at their first relay byte |
| `TwoHop.HandshakeNeverStalls` | crates/node/src/handler.rs:87-150 | while both are up and the gateway neither relays nor has been refused, some handshake step is enabled and brings that end nearer |
| `TwoHop.HandshakeEnds` | crates/gateway/src/handler.rs:92-176 | from every point of the handshake with both up there is a way to its end: the relay if the target is reached, else a refusal |
| `TwoHop.SessionCanComplete` | crates/gateway/src/handler.rs:92-176 | from every point of a run with both up, unless the target was found unreachable, the run can go on until the target has the whole payload and the client all of the data |
| `TwoHop.ToldInBytes` | crates/gateway/src/handler.rs:159-164 | what precedes that data, byte by byte |
| `TwoHop.GatewayCanFailAnywhere` | crates/gateway/src/handler.rs:92-176 | the failures the results above allow for: a gateway can fail between any two steps and any number of bytes into what a step writes |
| `TwoHop.NodeCanFailAnywhere` | crates/node/src/handler.rs:87-150 | and so can a node |
| `TwoHop.UnansweredIffDialFailed` | crates/gateway/src/handler.rs:155-157 | at that end a proper client whose parties stayed up has been told success if and only if the target was reached, and nothing in reply to its request if and only if it was not |
| `TwoHop.RefusedIsTheEnd` | crates/gateway/src/handler.rs:155-157 | once refused, the gateway says nothing more and no step but a failure is left |
| `TwoHop.ClientIsLeftUnanswered` | crates/gateway/src/handler.rs:155-157 | for every proper client and every way a target can fail there is such a run |
| `SessionSteps.FrontStepsAreFrontEnd` | crates/gateway/src/handler.rs:92-126 | for every client input the first steps of the concurrent gateway end where the first half of its session on streams does |
| `SessionSteps.GatewayStepsAreSession` | crates/gateway/src/handler.rs:92-176 | for every client input and node answer its steps lead to the relay if and only if that session is answered with success, with the same bytes said and consumed |
| `SessionSteps.NodeStepsAreSession` | crates/node/src/handler.rs:87-150 | for every input the node's steps lead to a dial if and only if its session takes a request to connect, and then say and consume what the session does |

## Left out

- Connections.FreshLookMissesIff: is about at most 2^32 - 1 connection slots; with more the 32-bit counter itself wraps, as `LoadIsExact` says.
- Connections.FreshLoadLeavesIff: the same, for its part about the node.
- Connections.NodeDrainMissesIff: lets loads be as stale as relaxed ordering alone allows; what synchronization inside the runtime adds is not modelled, nor is leaving the loop at its deadline.
- Greetings.RoundTripIff: is about the frame of section 3 of RFC 1928, which has room for 255 methods; the program never encodes a greeting of its own making other than the fixed one of the gateway.
- TwoHop.TwoHopIsByteExact: takes frames off queues one at a time, which the stream readers justify, and is about clients that speak properly; other clients are covered by the single-session results.
- Routing.SortIsStable: the library sort is modelled on values, not in place.
- Service.ControlPlaneService.TryNode: one try runs undisturbed; threads racing on one counter within a try are the subject of `Bandwidth`.
- IEEE arithmetic: scores, utilization and tokens are exact reals, and the threshold is nine tenths.
- SQLite and its migrations: statements are atomic updates of a map; 64-bit overflow inside the store is not modelled.
- Byte counters and row timestamps other than the heartbeat: nothing modelled depends on them.
- The HTTP interface, its tokens and its JSON; the control plane's answer to the gateway is a parameter.
- Sockets, the bidirectional copy and target name resolution; relayed bytes are moved in arbitrary pieces.
- Metrics, logging, configuration, command line and deployment files.
