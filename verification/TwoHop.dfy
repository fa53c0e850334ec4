/**
Client, gateway, node and target together.  Gateway and node run on their own, joined by two byte
queues; a step takes one frame off a queue and writes the answer, or moves relayed bytes along.  A party
may fail between two steps or in the middle of a write, and takes no further step.
*/
module TwoHop {
  import opened Prelude
  import opened Wire
  import opened Handshaking
  import A = Address
  import G = Greetings
  import C = Credentials
  import R = Requests
  import P = Replies
  import Gateway
  import NodeAgent

  datatype GatewayStage =
    | AwaitGreeting
    | AwaitProof
    | AwaitRequest
    | Picking(dest: A.SocksAddr)
    | AwaitSelection(dest: A.SocksAddr)
    | AwaitReply(dest: A.SocksAddr)
    | Relaying
    | TurnedDown

  datatype NodeStage =
    | Absent
    | AwaitHello
    | AwaitAsk
    | Dialling(dest: A.SocksAddr)
    | Forwarding(dest: A.SocksAddr)
    | Rejected(code: u8)

  /** `toClient` and `toTarget` hold all that was delivered; the other four are bytes still to be read. */
  datatype Net = Net(
    gateway: GatewayStage, node: NodeStage, gatewayUp: bool, nodeUp: bool,
    fromClient: bytes, toClient: bytes, toNode: bytes, toGateway: bytes, toTarget: bytes, fromTarget: bytes)

  datatype Step =
    | TakeGreeting | TakeProof | TakeRequest | Pick | TakeSelection | TakeNodeReply
    | TakeHello | TakeAsk | Dial(target: NodeAgent.Target)
    | MoveUp(n: nat) | DeliverUp(n: nat) | MoveDown(n: nat) | DeliverDown(n: nat)
    | GatewayFails | NodeFails
    | GatewayBreaks(during: Step, n: nat) | NodeBreaks(during: Step, n: nat)  // `n` bytes into the write of a step
  {
    predicate Fails() {
      GatewayFails? || NodeFails? || GatewayBreaks? || NodeBreaks?
    }
  }

  /** What has been written of `after`, `n` bytes beyond `before`. */
  function Partly(before: bytes, after: bytes, n: nat): bytes {
    if |after| <= |before| + n then after else after[..|before| + n]
  }

  /** Steps of the gateway; the node it picks is connected there and then. */
  function GatewayNext(auth: Option<C.UsernamePassword>, s: Net, step: Step): Option<Net> {
    match step
    case TakeGreeting =>
      var g := G.Decode(s.fromClient);
      if s.gateway.AwaitGreeting? && g.Ok? then
        var m := MethodFor(auth, g.value);
        if m == G.NO_ACCEPTABLE then None
        else Some(s.(gateway := if m == G.USER_PASS then AwaitProof else AwaitRequest,
                     fromClient := s.fromClient[2 + |g.value.methods|..],
                     toClient := s.toClient + G.Selection(m)))
      else None
    case TakeProof =>
      var c := C.Decode(s.fromClient);
      if s.gateway.AwaitProof? && c.Ok? && auth == Some(c.value) && c.value.WireLen() <= |s.fromClient| then
        Some(s.(gateway := AwaitRequest,
                fromClient := s.fromClient[c.value.WireLen()..],
                toClient := s.toClient + C.Verdict(C.ACCEPTED)))
      else None
    case TakeRequest =>
      var r := R.Decode(s.fromClient);
      if s.gateway.AwaitRequest? && r.Ok? && r.value.0.command == R.Connect && r.value.1 <= |s.fromClient| then
        Some(s.(gateway := Picking(r.value.0.addr), fromClient := s.fromClient[r.value.1..]))
      else None
    case Pick =>
      if s.gateway.Picking? && s.node.Absent? then
        Some(s.(gateway := AwaitSelection(s.gateway.dest), node := AwaitHello, toNode := s.toNode + Gateway.HELLO))
      else None
    case TakeSelection =>
      if s.gateway.AwaitSelection? && G.Selection(G.NO_AUTH) <= s.toGateway then
        Some(s.(gateway := AwaitReply(s.gateway.dest), toGateway := s.toGateway[2..],
                toNode := s.toNode + Gateway.Ask(s.gateway.dest)))
      else None
    case TakeNodeReply =>
      var r := Gateway.TakeReply(s.toGateway);
      if s.gateway.AwaitReply? && r.Some? && r.value.1 <= |s.toGateway| then
        var rest := s.(toGateway := s.toGateway[r.value.1..]);
        if r.value.0 == P.SUCCESS
        then Some(rest.(gateway := Relaying, toClient := s.toClient + Gateway.ReplyBytes(P.SUCCESS)))
        else Some(rest.(gateway := TurnedDown))
      else None
    case MoveUp(n) =>
      if s.gateway.Relaying? && n <= |s.fromClient|
      then Some(s.(fromClient := s.fromClient[n..], toNode := s.toNode + s.fromClient[..n])) else None
    case DeliverDown(n) =>
      if s.gateway.Relaying? && n <= |s.toGateway|
      then Some(s.(toGateway := s.toGateway[n..], toClient := s.toClient + s.toGateway[..n])) else None
    case GatewayFails => Some(s.(gatewayUp := false))
    case GatewayBreaks(during, n) =>
      var v := GatewayNext(auth, s, during);
      if v.None? then None
      else Some(v.value.(gatewayUp := false,
                         toClient := Partly(s.toClient, v.value.toClient, n),
                         toNode := Partly(s.toNode, v.value.toNode, n)))
    case _ => None
  }

  function NodeNext(s: Net, step: Step): Option<Net> {
    match step
    case TakeHello =>
      var g := G.Decode(s.toNode);
      if s.node.AwaitHello? && g.Ok? && MethodFor(None, g.value) == G.NO_AUTH then
        Some(s.(node := AwaitAsk, toNode := s.toNode[2 + |g.value.methods|..],
                toGateway := s.toGateway + G.Selection(G.NO_AUTH)))
      else None
    case TakeAsk =>
      var r := R.Decode(s.toNode);
      if s.node.AwaitAsk? && r.Ok? && r.value.0.command == R.Connect && r.value.1 <= |s.toNode| then
        Some(s.(node := Dialling(r.value.0.addr), toNode := s.toNode[r.value.1..]))
      else None
    case Dial(target) =>
      if s.node.Dialling? then
        var code := NodeAgent.ReplyCode(R.Request(R.Connect, s.node.dest), target);
        Some(s.(node := if code == P.SUCCESS then Forwarding(s.node.dest) else Rejected(code),
                toGateway := s.toGateway + Gateway.ReplyBytes(code)))
      else None
    case DeliverUp(n) =>
      if s.node.Forwarding? && n <= |s.toNode|
      then Some(s.(toNode := s.toNode[n..], toTarget := s.toTarget + s.toNode[..n])) else None
    case MoveDown(n) =>
      if s.node.Forwarding? && n <= |s.fromTarget|
      then Some(s.(fromTarget := s.fromTarget[n..], toGateway := s.toGateway + s.fromTarget[..n])) else None
    case NodeFails => Some(s.(nodeUp := false))
    case NodeBreaks(during, n) =>
      var v := NodeNext(s, during);
      if v.None? then None
      else Some(v.value.(nodeUp := false,
                         toGateway := Partly(s.toGateway, v.value.toGateway, n),
                         toTarget := Partly(s.toTarget, v.value.toTarget, n)))
    case _ => None
  }

  function Next(auth: Option<C.UsernamePassword>, s: Net, step: Step): Option<Net> {
    var g := if s.gatewayUp then GatewayNext(auth, s, step) else None;
    if g.Some? then g else if s.nodeUp then NodeNext(s, step) else None
  }

  function Exec(auth: Option<C.UsernamePassword>, s: Net, steps: seq<Step>): Option<Net> {
    if steps == [] then Some(s)
    else
      var before := Exec(auth, s, steps[..|steps| - 1]);
      if before.None? then None else Next(auth, before.value, steps[|steps| - 1])
  }

  /** One client's speech with what it means to send, and what the target means to send back. */
  datatype Scene = Scene(
    auth: Option<C.UsernamePassword>, g: G.Greeting, req: R.Request, rsv: u8, payload: bytes, data: bytes)
  {
    predicate Proper() {
      Acceptable(auth, g, req) && req.command == R.Connect
    }

    function Start(): Net
      requires |g.methods| <= 255
    {
      Net(AwaitGreeting, Absent, true, true, Speech(auth, g, req, rsv) + payload, [], [], [], [], data)
    }

    /** What the client is told before its request is answered. */
    function Preface(): bytes {
      G.Selection(if auth.Some? then G.USER_PASS else G.NO_AUTH)
      + if auth.Some? then C.Verdict(C.ACCEPTED) else []
    }
  }

  const SUCCESS_REPLY: bytes := Gateway.ReplyBytes(P.SUCCESS)

  const AGREED: bytes := G.Selection(G.NO_AUTH)

  // ----- what each party has said and heard -----

  /** What a relaying gateway has taken of the payload. */
  function Moved(sc: Scene, g: GatewayStage, fromClient: bytes): bytes {
    if g.Relaying? && |fromClient| <= |sc.payload| then sc.payload[..|sc.payload| - |fromClient|] else []
  }

  /** What a forwarding node has taken of the target's data. */
  function Fetched(sc: Scene, fromTarget: bytes): bytes {
    if |fromTarget| <= |sc.data| then sc.data[..|sc.data| - |fromTarget|] else []
  }

  /** What the client has got of the target's data. */
  function Delivered(sc: Scene, toClient: bytes): bytes {
    var n := |sc.Preface() + SUCCESS_REPLY|;
    if n <= |toClient| then toClient[n..] else []
  }

  predicate Early(g: GatewayStage) {
    g.AwaitGreeting? || g.AwaitProof? || g.AwaitRequest? || g.Picking?
  }

  function GatewaySaid(sc: Scene, g: GatewayStage, fromClient: bytes): bytes {
    if Early(g) then []
    else if g.AwaitSelection? then Gateway.HELLO
    else Gateway.HELLO + Gateway.Ask(sc.req.addr) + Moved(sc, g, fromClient)
  }

  function NodeHeard(sc: Scene, node: NodeStage, toTarget: bytes): bytes {
    match node
    case Absent => []
    case AwaitHello => []
    case AwaitAsk => Gateway.HELLO
    case _ => Gateway.HELLO + Gateway.Ask(sc.req.addr) + toTarget
  }

  /** `data` is what the node has fetched, or all there is of it. */
  function NodeSaid(node: NodeStage, data: bytes): bytes {
    match node
    case Absent => []
    case AwaitHello => []
    case AwaitAsk => AGREED
    case Dialling(_) => AGREED
    case Rejected(code) => AGREED + Gateway.ReplyBytes(code)
    case Forwarding(_) => AGREED + (SUCCESS_REPLY + data)
  }

  function GatewayHeard(sc: Scene, g: GatewayStage, toClient: bytes): bytes {
    if Early(g) || g.AwaitSelection? then []
    else if g.AwaitReply? then AGREED
    else AGREED + (SUCCESS_REPLY + Delivered(sc, toClient))
  }

  /** The client's side of the gateway. */
  ghost predicate ClientSide(sc: Scene, s: Net) {
    if !s.gatewayUp then s.toClient <= sc.Preface() + SUCCESS_REPLY + sc.data
    else
      match s.gateway
      case AwaitGreeting =>
        |sc.g.methods| <= 255 && s.toClient == [] && s.fromClient == Speech(sc.auth, sc.g, sc.req, sc.rsv) + sc.payload
      case AwaitProof =>
        && sc.auth.Some? && s.toClient == G.Selection(G.USER_PASS)
        && s.fromClient == Proof(sc.auth) + R.Frame(sc.req, sc.rsv) + sc.payload
      case AwaitRequest => s.toClient == sc.Preface() && s.fromClient == R.Frame(sc.req, sc.rsv) + sc.payload
      case Relaying =>
        && s.node.Forwarding? && Moved(sc, s.gateway, s.fromClient) + s.fromClient == sc.payload
        && s.toClient == sc.Preface() + SUCCESS_REPLY + Delivered(sc, s.toClient)
        && Delivered(sc, s.toClient) <= sc.data
      case TurnedDown => s.toClient == sc.Preface()
      case _ => s.gateway.dest == sc.req.addr && s.toClient == sc.Preface() && s.fromClient == sc.payload
  }

  /** From the gateway to the target: what is heard and what is on the way is what was said, or a part of it. */
  ghost predicate UpSide(sc: Scene, s: Net) {
    && (s.node.Dialling? || s.node.Forwarding? ==> s.node.dest == sc.req.addr)
    && (s.node.Rejected? ==> s.node.code != P.SUCCESS)
    && (!s.node.Forwarding? ==> s.toTarget == [])
    && (s.gateway.Relaying? ==> s.node.Forwarding?)
    && (s.gateway.TurnedDown? ==> s.node.Rejected?)
    && (s.gatewayUp ==> (s.node.Absent? <==> Early(s.gateway)))
    && s.toTarget <= (if s.gatewayUp then Moved(sc, s.gateway, s.fromClient) else sc.payload)
    && (s.nodeUp ==>
          if s.gatewayUp then NodeHeard(sc, s.node, s.toTarget) + s.toNode == GatewaySaid(sc, s.gateway, s.fromClient)
          else NodeHeard(sc, s.node, s.toTarget) + s.toNode <= Gateway.HELLO + Gateway.Ask(sc.req.addr) + sc.payload)
  }

  /** And from the target to the gateway. */
  ghost predicate DownSide(sc: Scene, s: Net) {
    && (s.nodeUp ==>
          Fetched(sc, s.fromTarget) + s.fromTarget == sc.data && (!s.node.Forwarding? ==> s.fromTarget == sc.data))
    && (s.gatewayUp && !s.gateway.TurnedDown? ==>
          var heard := GatewayHeard(sc, s.gateway, s.toClient);
          if s.nodeUp then heard + s.toGateway == NodeSaid(s.node, Fetched(sc, s.fromTarget))
          else heard + s.toGateway <= NodeSaid(s.node, sc.data))
  }

  ghost predicate Inv(sc: Scene, s: Net) {
    ClientSide(sc, s) && UpSide(sc, s) && DownSide(sc, s)
  }

  // ----- byte strings -----

  lemma SameTail(head: bytes, a: bytes, b: bytes)
    ensures head + a == head + b <==> a == b
    ensures head + a <= head + b <==> a <= b
  {
    assert a == (head + a)[|head|..] && b == (head + b)[|head|..];
    if a <= b {
      assert (head + b)[..|head + a|] == head + a;
    }
    if head + a <= head + b {
      assert b[..|a|] == (head + b)[|head|..|head + a|] == a;
    }
  }

  /** Bytes moved from the front of one queue to the end of the one before it. */
  lemma Shift(a: bytes, b: bytes, n: nat)
    requires n <= |b|
    ensures (a + b[..n]) + b[n..] == a + b
  {
  }

  // ----- the client's side of the gateway -----

  /** The other sides do not notice what happens before a node is picked. */
  lemma EarlySides(sc: Scene, s: Net, v: Net)
    requires UpSide(sc, s) && DownSide(sc, s) && s.gatewayUp && Early(s.gateway) && Early(v.gateway)
    requires v == s.(gateway := v.gateway, fromClient := v.fromClient, toClient := v.toClient)
    ensures UpSide(sc, v) && DownSide(sc, v)
  {
    hide Gateway.Ask, Gateway.ReplyBytes;
  }

  lemma GreetingStep(sc: Scene, s: Net)
    requires sc.Proper() && Inv(sc, s) && s.gatewayUp && s.gateway.AwaitGreeting?
    ensures var v := GatewayNext(sc.auth, s, TakeGreeting);
            v.Some? && Inv(sc, v.value)
  {
    hide G.Decode, G.Encode, R.Frame, C.Encode, A.Encodable, C.Encodable, UpSide, DownSide;
    var rest := Proof(sc.auth) + R.Frame(sc.req, sc.rsv) + sc.payload;
    GreetingOf(sc.g, rest);
    assert s.fromClient == G.Encode(sc.g) + rest;
    assert s.fromClient[2 + |sc.g.methods|..] == rest;
    var v := GatewayNext(sc.auth, s, TakeGreeting).value;
    if sc.auth.None? {
      assert rest == R.Frame(sc.req, sc.rsv) + sc.payload;
      assert v.toClient == sc.Preface();
    }
    EarlySides(sc, s, v);
  }

  lemma ProofStep(sc: Scene, s: Net)
    requires sc.Proper() && Inv(sc, s) && s.gatewayUp && s.gateway.AwaitProof?
    ensures var v := GatewayNext(sc.auth, s, TakeProof);
            v.Some? && Inv(sc, v.value)
  {
    hide C.Decode, R.Frame, C.Encode, A.Encodable, C.Encodable, UpSide, DownSide;
    var c, rest := sc.auth.value, R.Frame(sc.req, sc.rsv) + sc.payload;
    assert s.fromClient == C.Encode(c) + rest;
    C.RoundTripIff(c, rest);
    CredentialsLength(c);
    assert s.fromClient[c.WireLen()..] == rest;
    EarlySides(sc, s, GatewayNext(sc.auth, s, TakeProof).value);
  }

  lemma RequestStep(sc: Scene, s: Net)
    requires sc.Proper() && Inv(sc, s) && s.gatewayUp && s.gateway.AwaitRequest?
    ensures var v := GatewayNext(sc.auth, s, TakeRequest);
            v.Some? && Inv(sc, v.value)
  {
    hide R.Decode, R.Frame, A.Encodable, C.Encodable, UpSide, DownSide;
    R.RoundTripIff(sc.req, sc.rsv, sc.payload);
    assert s.fromClient[|R.Frame(sc.req, sc.rsv)|..] == sc.payload;
    EarlySides(sc, s, GatewayNext(sc.auth, s, TakeRequest).value);
  }

  // ----- between gateway and node -----

  lemma PickStep(sc: Scene, s: Net)
    requires Inv(sc, s) && s.gatewayUp && s.gateway.Picking?
    ensures var v := GatewayNext(sc.auth, s, Pick);
            v.Some? && Inv(sc, v.value)
  {
    hide ClientSide, UpSide, DownSide;
    PickSides(sc, s, s.(gateway := AwaitSelection(s.gateway.dest), node := AwaitHello,
                        toNode := s.toNode + Gateway.HELLO));
  }

  lemma PickSides(sc: Scene, s: Net, v: Net)
    requires Inv(sc, s) && s.gatewayUp && s.gateway.Picking?
    requires v == s.(gateway := AwaitSelection(s.gateway.dest), node := AwaitHello, toNode := s.toNode + Gateway.HELLO)
    ensures s.node.Absent? && Inv(sc, v)
  {
    hide Gateway.Ask, Gateway.ReplyBytes, Speech, R.Frame, Scene.Preface, Proof, Fetched;
    assert [] + s.toNode == s.toNode;
    assert s.nodeUp ==> s.toNode == [];
    assert [] + ([] + Gateway.HELLO) == Gateway.HELLO;
  }

  lemma SelectionStep(sc: Scene, s: Net)
    requires Inv(sc, s) && s.gatewayUp && GatewayNext(sc.auth, s, TakeSelection).Some?
    ensures Inv(sc, GatewayNext(sc.auth, s, TakeSelection).value)
  {
    hide Gateway.Ask, Gateway.ReplyBytes, Speech, R.Frame, Scene.Preface, UpSide, DownSide;
    var v := GatewayNext(sc.auth, s, TakeSelection).value;
    assert v == s.(gateway := AwaitReply(sc.req.addr), toGateway := s.toGateway[2..],
                   toNode := s.toNode + Gateway.Ask(sc.req.addr));
    SelectionUp(sc, s, v);
    SelectionDown(sc, s, v);
  }

  lemma SelectionUp(sc: Scene, s: Net, v: Net)
    requires UpSide(sc, s) && s.gatewayUp && s.gateway.AwaitSelection?
    requires v == s.(gateway := AwaitReply(sc.req.addr), toGateway := v.toGateway,
                     toNode := s.toNode + Gateway.Ask(sc.req.addr))
    ensures UpSide(sc, v)
  {
    hide Gateway.Ask;
    var ask := Gateway.Ask(sc.req.addr);
    if s.nodeUp {
      assert NodeHeard(sc, v.node, v.toTarget) + v.toNode == NodeHeard(sc, s.node, s.toTarget) + s.toNode + ask;
      assert Gateway.HELLO + ask == Gateway.HELLO + ask + [];
    }
  }

  lemma SelectionDown(sc: Scene, s: Net, v: Net)
    requires DownSide(sc, s) && s.gatewayUp && s.gateway.AwaitSelection? && AGREED <= s.toGateway
    requires v == s.(gateway := AwaitReply(sc.req.addr), toGateway := s.toGateway[2..], toNode := v.toNode)
    ensures DownSide(sc, v)
  {
    hide Gateway.ReplyBytes, Scene.Preface;
    assert AGREED + v.toGateway == [] + s.toGateway;
  }

  /** A part of a reply is not taken for one; the whole of it is, whatever follows. */
  lemma ReplyIsTakenWhole(buf: bytes, code: u8, tail: bytes)
    requires buf <= Gateway.ReplyBytes(code) + tail
    ensures var n := |Gateway.ReplyBytes(code)|;
            Gateway.TakeReply(buf) == if |buf| < n then None else Some((code, n))
    ensures |Gateway.ReplyBytes(code)| <= |buf| ==>
              buf == Gateway.ReplyBytes(code) + buf[|Gateway.ReplyBytes(code)|..]
  {
    var reply := Gateway.ReplyBytes(code);
    assert (reply + tail)[..|buf|] == buf;
    if |reply| <= |buf| {
      assert (reply + tail)[..|reply|] == reply;
      assert buf[..|reply|] == reply;
      assert buf == reply + buf[|reply|..];
      Gateway.ReplyIsTakenExactlyIff(P.Simple(code), 0x00, buf[|reply|..]);
    } else {
      assert forall i :: 0 <= i < |buf| ==> buf[i] == reply[i];
    }
  }

  /** Every stream stands at its first relay byte; of a node that failed a part of the data may be missing. */
  ghost predicate AtFirstByte(sc: Scene, s: Net) {
    && s.fromClient == sc.payload && s.toTarget == [] && s.toClient == sc.Preface() + SUCCESS_REPLY
    && s.toGateway <= sc.data
    && (s.nodeUp ==> s.toNode == [] && s.toGateway + s.fromTarget == sc.data)
  }

  /** What a gateway that awaits the reply has before it, by what became of the node. */
  lemma ReplyWaiting(sc: Scene, s: Net)
    requires UpSide(sc, s) && DownSide(sc, s) && s.gatewayUp && s.gateway.AwaitReply?
    requires Gateway.TakeReply(s.toGateway).Some?
    ensures (s.node.Rejected? && s.toGateway <= Gateway.ReplyBytes(s.node.code) + [])
            || (s.node.Forwarding? && s.toGateway <= SUCCESS_REPLY + sc.data
                && (s.nodeUp ==> s.toGateway == SUCCESS_REPLY + Fetched(sc, s.fromTarget)))
  {
    hide Gateway.ReplyBytes;
    var data := if s.nodeUp then Fetched(sc, s.fromTarget) else sc.data;
    match s.node
    case Rejected(code) =>
      SameTail(AGREED, s.toGateway, Gateway.ReplyBytes(code));
      assert Gateway.ReplyBytes(code) + [] == Gateway.ReplyBytes(code);
    case Forwarding(_) =>
      SameTail(AGREED, s.toGateway, SUCCESS_REPLY + data);
      if s.nodeUp {
        assert Fetched(sc, s.fromTarget) <= sc.data;
        SameTail(SUCCESS_REPLY, Fetched(sc, s.fromTarget), sc.data);
      }
    case _ =>
  }

  lemma ReplyStep(sc: Scene, s: Net)
    requires Inv(sc, s) && s.gatewayUp && GatewayNext(sc.auth, s, TakeNodeReply).Some?
    ensures var v := GatewayNext(sc.auth, s, TakeNodeReply).value;
            Inv(sc, v) && (v.gateway.Relaying? ==> AtFirstByte(sc, v))
  {
    hide Gateway.TakeReply, Gateway.ReplyBytes, ClientSide, UpSide, DownSide, Scene.Preface, AtFirstByte;
    var v := GatewayNext(sc.auth, s, TakeNodeReply).value;
    ReplyWaiting(sc, s);
    if s.node.Rejected? {
      ReplyIsTakenWhole(s.toGateway, s.node.code, []);
      CodeIsFailure(sc, s);
      assert v == s.(gateway := TurnedDown, toGateway := v.toGateway);
      Refusal(sc, s, v);
    } else {
      ReplyIsTakenWhole(s.toGateway, P.SUCCESS, sc.data);
      assert v == s.(gateway := Relaying, toGateway := s.toGateway[|SUCCESS_REPLY|..],
                     toClient := s.toClient + SUCCESS_REPLY);
      RelayBegins(sc, s, v);
    }
  }

  lemma CodeIsFailure(sc: Scene, s: Net)
    requires UpSide(sc, s) && s.node.Rejected?
    ensures s.node.code != P.SUCCESS
  {
  }

  lemma Refusal(sc: Scene, s: Net, v: Net)
    requires Inv(sc, s) && s.gatewayUp && s.gateway.AwaitReply? && s.node.Rejected?
    requires v == s.(gateway := TurnedDown, toGateway := v.toGateway)
    ensures Inv(sc, v)
  {
    hide Gateway.ReplyBytes, Gateway.Ask, Scene.Preface, Delivered, Fetched;
  }

  lemma RelayBegins(sc: Scene, s: Net, v: Net)
    requires Inv(sc, s) && s.gatewayUp && s.gateway.AwaitReply? && s.node.Forwarding?
    requires v == s.(gateway := Relaying, toGateway := v.toGateway, toClient := s.toClient + SUCCESS_REPLY)
    requires s.toGateway == SUCCESS_REPLY + v.toGateway && s.toGateway <= SUCCESS_REPLY + sc.data
    requires s.nodeUp ==> s.toGateway == SUCCESS_REPLY + Fetched(sc, s.fromTarget)
    ensures Inv(sc, v) && AtFirstByte(sc, v)
  {
    hide Gateway.ReplyBytes, Gateway.Ask, Scene.Preface;
    assert Delivered(sc, v.toClient) == [] && Moved(sc, v.gateway, v.fromClient) == [];
    SameTail(SUCCESS_REPLY, v.toGateway, sc.data);
    assert sc.Preface() + SUCCESS_REPLY + [] == sc.Preface() + SUCCESS_REPLY && [] + sc.payload == sc.payload;
    assert AGREED + (SUCCESS_REPLY + []) + v.toGateway == AGREED + s.toGateway;
    if s.nodeUp {
      SameTail(SUCCESS_REPLY, v.toGateway, Fetched(sc, s.fromTarget));
      var said := Gateway.HELLO + Gateway.Ask(sc.req.addr);
      assert said + s.toTarget + s.toNode == said + (s.toTarget + s.toNode) && said + [] == said;
      SameTail(said, s.toTarget + s.toNode, []);
    }
  }

  // ----- the node -----

  lemma SaidIsPart(sc: Scene, s: Net)
    ensures GatewaySaid(sc, s.gateway, s.fromClient) <= Gateway.HELLO + Gateway.Ask(sc.req.addr) + sc.payload
  {
    hide Gateway.Ask;
    var ask := Gateway.Ask(sc.req.addr);
    assert Gateway.HELLO + ask + sc.payload == Gateway.HELLO + (ask + sc.payload);
    SameTail(Gateway.HELLO + ask, Moved(sc, s.gateway, s.fromClient), sc.payload);
  }

  lemma HeardIsPart(sc: Scene, s: Net)
    requires UpSide(sc, s) && s.nodeUp
    ensures NodeHeard(sc, s.node, s.toTarget) + s.toNode <= Gateway.HELLO + Gateway.Ask(sc.req.addr) + sc.payload
  {
    hide Gateway.Ask, GatewaySaid, NodeHeard, Moved;
    SaidIsPart(sc, s);
  }

  /** What an answering node has before it: a part at least of what the gateway says next. */
  lemma NodeWaiting(sc: Scene, s: Net)
    requires UpSide(sc, s) && s.nodeUp
    ensures s.node.AwaitHello? ==> s.toNode <= Gateway.HELLO + (Gateway.Ask(sc.req.addr) + sc.payload)
    ensures s.node.AwaitAsk? ==> s.toNode <= Gateway.Ask(sc.req.addr) + sc.payload
    ensures s.node.Forwarding? ==> s.toTarget + s.toNode <= sc.payload
  {
    HeardIsPart(sc, s);
    hide Gateway.Ask, UpSide;
    var ask := Gateway.Ask(sc.req.addr);
    if s.node.AwaitHello? {
      BeforeHello(Gateway.HELLO, ask, sc.payload, s.toNode);
    } else if s.node.AwaitAsk? {
      AfterHello(Gateway.HELLO, ask, sc.payload, s.toNode);
    } else if s.node.Forwarding? {
      AfterAsk(Gateway.HELLO + ask, sc.payload, s.toTarget, s.toNode);
    }
  }

  lemma BeforeHello(hello: bytes, ask: bytes, payload: bytes, rest: bytes)
    requires [] + rest <= hello + ask + payload
    ensures rest <= hello + (ask + payload)
  {
    assert [] + rest == rest && hello + ask + payload == hello + (ask + payload);
  }

  lemma AfterHello(hello: bytes, ask: bytes, payload: bytes, rest: bytes)
    requires hello + rest <= hello + ask + payload
    ensures rest <= ask + payload
  {
    assert hello + ask + payload == hello + (ask + payload);
    SameTail(hello, rest, ask + payload);
  }

  lemma AfterAsk(said: bytes, payload: bytes, got: bytes, rest: bytes)
    requires said + got + rest <= said + payload
    ensures got + rest <= payload
  {
    assert said + got + rest == said + (got + rest);
    SameTail(said, got + rest, payload);
  }

  /** The client does not notice what the node does. */
  lemma ClientKept(sc: Scene, s: Net, v: Net)
    requires ClientSide(sc, s) && (s.node.Forwarding? ==> v.node.Forwarding?)
    requires s == v.(node := s.node, nodeUp := s.nodeUp, toNode := s.toNode, toGateway := s.toGateway,
                     toTarget := s.toTarget, fromTarget := s.fromTarget)
    ensures ClientSide(sc, v)
  {
    hide Speech, R.Frame, Scene.Preface, Proof;
  }

  /** A part of a hello is not taken for one; the whole of it is, whatever follows. */
  lemma HelloIsTakenWhole(buf: bytes, tail: bytes)
    requires buf <= Gateway.HELLO + tail && G.Decode(buf).Ok?
    ensures 3 <= |buf| && buf == Gateway.HELLO + buf[3..] && G.Decode(buf).value == G.Greeting([G.NO_AUTH])
  {
    assert (Gateway.HELLO + tail)[..|buf|] == buf;
    assert buf == Gateway.HELLO + buf[3..];
  }

  lemma HelloStep(sc: Scene, s: Net)
    requires Inv(sc, s) && s.nodeUp && NodeNext(s, TakeHello).Some?
    ensures Inv(sc, NodeNext(s, TakeHello).value)
  {
    hide Gateway.Ask, ClientSide, UpSide, DownSide, G.Decode;
    var v := NodeNext(s, TakeHello).value;
    NodeWaiting(sc, s);
    HelloIsTakenWhole(s.toNode, Gateway.Ask(sc.req.addr) + sc.payload);
    assert v == s.(node := AwaitAsk, toNode := s.toNode[3..], toGateway := s.toGateway + AGREED);
    ClientKept(sc, s, v);
    HelloSides(sc, s, v);
  }

  lemma HelloSides(sc: Scene, s: Net, v: Net)
    requires UpSide(sc, s) && DownSide(sc, s) && s.nodeUp && s.node.AwaitHello? && s.toNode == Gateway.HELLO + v.toNode
    requires v == s.(node := AwaitAsk, toNode := v.toNode, toGateway := s.toGateway + AGREED)
    ensures UpSide(sc, v) && DownSide(sc, v)
  {
    hide Gateway.Ask, Gateway.ReplyBytes, Scene.Preface, Delivered, Moved;
    assert [] + s.toNode == Gateway.HELLO + v.toNode;
    if s.gatewayUp && !s.gateway.TurnedDown? {
      assert |GatewayHeard(sc, s.gateway, s.toClient)| + |s.toGateway| == 0;
      assert [] + ([] + AGREED) == AGREED;
    }
  }

  /** A part of a request is not taken for one; the whole of it is, whatever follows. */
  lemma AskIsTakenWhole(buf: bytes, dest: A.SocksAddr, tail: bytes)
    requires A.Encodable(dest, false) && buf <= Gateway.Ask(dest) + tail && R.Decode(buf).Ok?
    ensures var n := |Gateway.Ask(dest)|;
            n <= |buf| && buf == Gateway.Ask(dest) + buf[n..] && R.Decode(buf).value == (R.Request(R.Connect, dest), n)
  {
    hide R.Decode, R.Frame, A.Encodable;
    var req, ask := R.Request(R.Connect, dest), Gateway.Ask(dest);
    R.RoundTripIff(req, 0x00, []);
    assert ask + [] == ask;
    R.DecodeIsCanonical(ask);
    assert forall k :: 0 <= k < |ask| ==> R.Decode(ask[..k]).Err?;
    if |buf| < |ask| {
      PartIsCut(buf, ask, tail);
    }
    assert buf[..|ask|] == ask;
    assert buf == ask + buf[|ask|..];
    R.RoundTripIff(req, 0x00, buf[|ask|..]);
  }

  lemma PartIsCut(buf: bytes, whole: bytes, tail: bytes)
    requires buf <= whole + tail && |buf| < |whole|
    ensures buf == whole[..|buf|]
  {
  }

  lemma AskStep(sc: Scene, s: Net)
    requires sc.Proper() && Inv(sc, s) && s.nodeUp && NodeNext(s, TakeAsk).Some?
    ensures Inv(sc, NodeNext(s, TakeAsk).value)
  {
    hide Gateway.Ask, ClientSide, UpSide, DownSide, R.Decode, A.Encodable;
    NodeWaiting(sc, s);
    AskIsTakenWhole(s.toNode, sc.req.addr, sc.payload);
    var v := NodeNext(s, TakeAsk).value;
    assert v == s.(node := Dialling(sc.req.addr), toNode := s.toNode[|Gateway.Ask(sc.req.addr)|..]);
    ClientKept(sc, s, v);
    AskSides(sc, s, v);
  }

  lemma AskSides(sc: Scene, s: Net, v: Net)
    requires UpSide(sc, s) && DownSide(sc, s) && s.nodeUp && s.node.AwaitAsk?
    requires s.toNode == Gateway.Ask(sc.req.addr) + v.toNode
    requires v == s.(node := Dialling(sc.req.addr), toNode := v.toNode)
    ensures UpSide(sc, v) && DownSide(sc, v)
  {
    hide Gateway.Ask, Gateway.ReplyBytes, Scene.Preface, Delivered, Moved;
    assert Gateway.HELLO + Gateway.Ask(sc.req.addr) + [] + v.toNode == Gateway.HELLO + s.toNode;
  }

  lemma DialStep(sc: Scene, s: Net, target: NodeAgent.Target)
    requires Inv(sc, s) && s.nodeUp && s.node.Dialling?
    ensures var v := NodeNext(s, Dial(target));
            v.Some? && Inv(sc, v.value)
  {
    hide Gateway.Ask, Gateway.ReplyBytes, ClientSide, UpSide, DownSide;
    var v := NodeNext(s, Dial(target)).value;
    var code := NodeAgent.ReplyCode(R.Request(R.Connect, s.node.dest), target);
    assert v == s.(node := if code == P.SUCCESS then Forwarding(s.node.dest) else Rejected(code),
                   toGateway := s.toGateway + Gateway.ReplyBytes(code));
    ClientKept(sc, s, v);
    DialSides(sc, s, v, code);
  }

  lemma DialSides(sc: Scene, s: Net, v: Net, code: u8)
    requires UpSide(sc, s) && DownSide(sc, s) && s.nodeUp && s.node.Dialling?
    requires v == s.(node := if code == P.SUCCESS then Forwarding(s.node.dest) else Rejected(code),
                     toGateway := s.toGateway + Gateway.ReplyBytes(code))
    ensures UpSide(sc, v) && DownSide(sc, v)
  {
    hide Gateway.Ask, Gateway.ReplyBytes, Scene.Preface, Delivered, Moved;
    assert Fetched(sc, s.fromTarget) == [] && SUCCESS_REPLY + [] == SUCCESS_REPLY;
    assert GatewayHeard(sc, s.gateway, s.toClient) + (s.toGateway + Gateway.ReplyBytes(code))
           == GatewayHeard(sc, s.gateway, s.toClient) + s.toGateway + Gateway.ReplyBytes(code);
  }

  // ----- relaying -----

  lemma UpDoesNotMatter(sc: Scene, s: Net, v: Net)
    requires DownSide(sc, s) && v == s.(fromClient := v.fromClient, toNode := v.toNode, toTarget := v.toTarget)
    ensures DownSide(sc, v)
  {
    hide Gateway.ReplyBytes, Scene.Preface;
  }

  lemma DownDoesNotMatter(sc: Scene, s: Net, v: Net)
    requires UpSide(sc, s) && v == s.(fromTarget := v.fromTarget, toGateway := v.toGateway, toClient := v.toClient)
    ensures UpSide(sc, v)
  {
    hide Gateway.Ask;
  }

  lemma MoveUpStep(sc: Scene, s: Net, n: nat)
    requires Inv(sc, s) && s.gatewayUp && GatewayNext(sc.auth, s, MoveUp(n)).Some?
    ensures Inv(sc, GatewayNext(sc.auth, s, MoveUp(n)).value)
  {
    hide ClientSide, UpSide, DownSide;
    var v := GatewayNext(sc.auth, s, MoveUp(n)).value;
    UpDoesNotMatter(sc, s, v);
    assert v == s.(fromClient := s.fromClient[n..], toNode := s.toNode + s.fromClient[..n]);
    MoveUpSides(sc, s, v, n);
  }

  lemma MoveUpSides(sc: Scene, s: Net, v: Net, n: nat)
    requires ClientSide(sc, s) && UpSide(sc, s) && s.gatewayUp && s.gateway.Relaying? && n <= |s.fromClient|
    requires v == s.(fromClient := s.fromClient[n..], toNode := s.toNode + s.fromClient[..n])
    ensures ClientSide(sc, v) && UpSide(sc, v)
  {
    hide Gateway.Ask, Gateway.ReplyBytes, Scene.Preface;
    Shift(Moved(sc, s.gateway, s.fromClient), s.fromClient, n);
    assert Moved(sc, v.gateway, v.fromClient) == Moved(sc, s.gateway, s.fromClient) + s.fromClient[..n];
    assert s.toTarget <= Moved(sc, s.gateway, s.fromClient) <= Moved(sc, v.gateway, v.fromClient);
    var said := Gateway.HELLO + Gateway.Ask(sc.req.addr);
    assert said + Moved(sc, v.gateway, v.fromClient) == said + Moved(sc, s.gateway, s.fromClient) + s.fromClient[..n];
    assert NodeHeard(sc, s.node, s.toTarget) + (s.toNode + s.fromClient[..n])
           == NodeHeard(sc, s.node, s.toTarget) + s.toNode + s.fromClient[..n];
  }

  lemma DeliverUpStep(sc: Scene, s: Net, n: nat)
    requires Inv(sc, s) && s.nodeUp && NodeNext(s, DeliverUp(n)).Some?
    ensures Inv(sc, NodeNext(s, DeliverUp(n)).value)
  {
    hide ClientSide, UpSide, DownSide;
    var v := NodeNext(s, DeliverUp(n)).value;
    UpDoesNotMatter(sc, s, v);
    ClientKept(sc, s, v);
    assert v == s.(toNode := s.toNode[n..], toTarget := s.toTarget + s.toNode[..n]);
    DeliverUpSide(sc, s, v, n);
  }

  /** A node that forwards has heard the request, so the gateway has said it. */
  lemma ForwardingHeard(sc: Scene, s: Net)
    requires UpSide(sc, s) && s.nodeUp && s.node.Forwarding?
    ensures s.gatewayUp ==> !Early(s.gateway) && !s.gateway.AwaitSelection?
                            && s.toTarget + s.toNode == Moved(sc, s.gateway, s.fromClient)
  {
    AskNotEmpty(sc.req.addr);
    hide Gateway.Ask;
    if s.gatewayUp {
      var said := Gateway.HELLO + Gateway.Ask(sc.req.addr);
      assert |said + s.toTarget + s.toNode| > 3;
      assert said + s.toTarget + s.toNode == said + (s.toTarget + s.toNode);
      SameTail(said, s.toTarget + s.toNode, Moved(sc, s.gateway, s.fromClient));
    }
  }

  lemma AskNotEmpty(dest: A.SocksAddr)
    ensures |Gateway.Ask(dest)| > 0
  {
  }

  lemma DeliverUpSide(sc: Scene, s: Net, v: Net, n: nat)
    requires UpSide(sc, s) && s.nodeUp && s.node.Forwarding? && n <= |s.toNode|
    requires v == s.(toNode := s.toNode[n..], toTarget := s.toTarget + s.toNode[..n])
    ensures UpSide(sc, v)
  {
    hide Gateway.Ask;
    Shift(s.toTarget, s.toNode, n);
    ForwardingHeard(sc, s);
    NodeWaiting(sc, s);
    assert v.toTarget <= v.toTarget + v.toNode == s.toTarget + s.toNode;
    var said := Gateway.HELLO + Gateway.Ask(sc.req.addr);
    assert said + v.toTarget + v.toNode == said + (v.toTarget + v.toNode) == said + s.toTarget + s.toNode;
  }

  lemma MoveDownStep(sc: Scene, s: Net, n: nat)
    requires Inv(sc, s) && s.nodeUp && NodeNext(s, MoveDown(n)).Some?
    ensures Inv(sc, NodeNext(s, MoveDown(n)).value)
  {
    hide ClientSide, UpSide, DownSide;
    var v := NodeNext(s, MoveDown(n)).value;
    DownDoesNotMatter(sc, s, v);
    ClientKept(sc, s, v);
    assert v == s.(fromTarget := s.fromTarget[n..], toGateway := s.toGateway + s.fromTarget[..n]);
    MoveDownSide(sc, s, v, n);
  }

  lemma MoveDownSide(sc: Scene, s: Net, v: Net, n: nat)
    requires DownSide(sc, s) && s.nodeUp && s.node.Forwarding? && n <= |s.fromTarget|
    requires v == s.(fromTarget := s.fromTarget[n..], toGateway := s.toGateway + s.fromTarget[..n])
    ensures DownSide(sc, v)
  {
    hide Gateway.ReplyBytes, Scene.Preface, Delivered;
    Shift(Fetched(sc, s.fromTarget), s.fromTarget, n);
    assert Fetched(sc, v.fromTarget) == Fetched(sc, s.fromTarget) + s.fromTarget[..n];
    assert AGREED + (SUCCESS_REPLY + Fetched(sc, v.fromTarget))
           == AGREED + (SUCCESS_REPLY + Fetched(sc, s.fromTarget)) + s.fromTarget[..n];
    assert GatewayHeard(sc, s.gateway, s.toClient) + (s.toGateway + s.fromTarget[..n])
           == GatewayHeard(sc, s.gateway, s.toClient) + s.toGateway + s.fromTarget[..n];
  }

  lemma DeliverDownStep(sc: Scene, s: Net, n: nat)
    requires Inv(sc, s) && s.gatewayUp && GatewayNext(sc.auth, s, DeliverDown(n)).Some?
    ensures Inv(sc, GatewayNext(sc.auth, s, DeliverDown(n)).value)
  {
    hide ClientSide, UpSide, DownSide;
    var v := GatewayNext(sc.auth, s, DeliverDown(n)).value;
    DownDoesNotMatter(sc, s, v);
    assert v == s.(toGateway := s.toGateway[n..], toClient := s.toClient + s.toGateway[..n]);
    DeliverDownSides(sc, s, v, n);
  }

  /** Once it relays, what the gateway has delivered and has before it is what the node fetched, or a part of it. */
  lemma RelayedDown(sc: Scene, s: Net)
    requires DownSide(sc, s) && s.gatewayUp && s.gateway.Relaying? && s.node.Forwarding?
    ensures Delivered(sc, s.toClient) + s.toGateway <= sc.data
    ensures s.nodeUp ==> Delivered(sc, s.toClient) + s.toGateway == Fetched(sc, s.fromTarget)
  {
    hide Gateway.ReplyBytes, Scene.Preface, Delivered;
    var data := if s.nodeUp then Fetched(sc, s.fromTarget) else sc.data;
    var d := Delivered(sc, s.toClient) + s.toGateway;
    assert AGREED + (SUCCESS_REPLY + Delivered(sc, s.toClient)) + s.toGateway == AGREED + (SUCCESS_REPLY + d);
    SameTail(AGREED, SUCCESS_REPLY + d, SUCCESS_REPLY + data);
    SameTail(SUCCESS_REPLY, d, data);
  }

  lemma DeliverDownSides(sc: Scene, s: Net, v: Net, n: nat)
    requires ClientSide(sc, s) && DownSide(sc, s) && s.gatewayUp && s.gateway.Relaying? && n <= |s.toGateway|
    requires v == s.(toGateway := s.toGateway[n..], toClient := s.toClient + s.toGateway[..n])
    ensures ClientSide(sc, v) && DownSide(sc, v)
  {
    hide Gateway.ReplyBytes, Scene.Preface;
    RelayedDown(sc, s);
    Shift(Delivered(sc, s.toClient), s.toGateway, n);
    assert Delivered(sc, v.toClient) == Delivered(sc, s.toClient) + s.toGateway[..n];
    assert AGREED + (SUCCESS_REPLY + Delivered(sc, v.toClient)) + v.toGateway
           == AGREED + (SUCCESS_REPLY + (Delivered(sc, v.toClient) + v.toGateway));
    assert AGREED + (SUCCESS_REPLY + Delivered(sc, s.toClient)) + s.toGateway
           == AGREED + (SUCCESS_REPLY + (Delivered(sc, s.toClient) + s.toGateway));
    assert Delivered(sc, v.toClient) <= Delivered(sc, v.toClient) + v.toGateway;
    assert v.toClient == sc.Preface() + SUCCESS_REPLY + Delivered(sc, v.toClient);
  }

  // ----- failures -----

  lemma GatewayBroken(sc: Scene, v: Net, w: Net)
    requires Inv(sc, v) && w == v.(gatewayUp := false, toClient := w.toClient, toNode := w.toNode)
    requires w.toClient <= v.toClient && w.toNode <= v.toNode
    ensures Inv(sc, w)
  {
    hide Gateway.Ask, Gateway.ReplyBytes, DownSide;
    ToldSoFar(sc, v);
    assert DownSide(sc, w) by { GatewayGone(sc, v, w); }
    var all := Gateway.HELLO + Gateway.Ask(sc.req.addr) + sc.payload;
    if v.nodeUp {
      HeardIsPart(sc, v);
      SameTail(NodeHeard(sc, v.node, v.toTarget), w.toNode, v.toNode);
    }
    hide Moved, GatewaySaid, NodeHeard;
    assert v.toTarget <= sc.payload by { MovedIsPart(sc, v); }
  }

  lemma MovedIsPart(sc: Scene, v: Net)
    ensures Moved(sc, v.gateway, v.fromClient) <= sc.payload
  {
  }

  lemma GatewayGone(sc: Scene, v: Net, w: Net)
    requires DownSide(sc, v) && w == v.(gatewayUp := false, toClient := w.toClient, toNode := w.toNode)
    ensures DownSide(sc, w)
  {
  }

  lemma ToldSoFar(sc: Scene, s: Net)
    requires ClientSide(sc, s)
    ensures s.toClient <= sc.Preface() + SUCCESS_REPLY + sc.data
  {
    hide Gateway.ReplyBytes, R.Frame, Speech, Proof;
    var all := sc.Preface() + SUCCESS_REPLY + sc.data;
    assert sc.Preface() <= all && [] <= all;
    if s.gatewayUp && s.gateway.Relaying? {
      SameTail(sc.Preface() + SUCCESS_REPLY, Delivered(sc, s.toClient), sc.data);
    }
  }

  lemma NodeBroken(sc: Scene, v: Net, w: Net)
    requires Inv(sc, v) && w == v.(nodeUp := false, toGateway := w.toGateway, toTarget := w.toTarget)
    requires w.toGateway <= v.toGateway && w.toTarget <= v.toTarget
    ensures Inv(sc, w)
  {
    hide Gateway.Ask, Gateway.ReplyBytes, ClientSide, Moved, Delivered, GatewaySaid, NodeHeard;
    ClientKept(sc, v, w);
    if v.gatewayUp && !v.gateway.TurnedDown? {
      var heard := GatewayHeard(sc, v.gateway, v.toClient);
      hide GatewayHeard;
      SameTail(heard, w.toGateway, v.toGateway);
      FetchedIsPart(sc, v);
      assert heard + w.toGateway <= heard + v.toGateway <= NodeSaid(v.node, sc.data);
    }
  }

  lemma FetchedIsPart(sc: Scene, s: Net)
    ensures NodeSaid(s.node, Fetched(sc, s.fromTarget)) <= NodeSaid(s.node, sc.data)
  {
    hide Gateway.ReplyBytes;
    SameTail(SUCCESS_REPLY, Fetched(sc, s.fromTarget), sc.data);
    SameTail(AGREED, SUCCESS_REPLY + Fetched(sc, s.fromTarget), SUCCESS_REPLY + sc.data);
  }

  // ----- all runs -----

  lemma {:induction false} GatewayKeepsInv(sc: Scene, s: Net, step: Step)
    requires sc.Proper() && Inv(sc, s) && s.gatewayUp && GatewayNext(sc.auth, s, step).Some?
    ensures Inv(sc, GatewayNext(sc.auth, s, step).value)
    decreases step
  {
    hide Inv, Scene.Proper;
    match step
    case TakeGreeting => GreetingStep(sc, s);
    case TakeProof => ProofStep(sc, s);
    case TakeRequest => RequestStep(sc, s);
    case Pick => PickStep(sc, s);
    case TakeSelection => SelectionStep(sc, s);
    case TakeNodeReply => ReplyStep(sc, s);
    case MoveUp(n) => MoveUpStep(sc, s, n);
    case DeliverDown(n) => DeliverDownStep(sc, s, n);
    case GatewayFails => GatewayBroken(sc, s, s.(gatewayUp := false));
    case GatewayBreaks(during, n) =>
      GatewayKeepsInv(sc, s, during);
      GatewayBroken(sc, GatewayNext(sc.auth, s, during).value, GatewayNext(sc.auth, s, step).value);
    case _ =>
  }

  lemma {:induction false} NodeKeepsInv(sc: Scene, s: Net, step: Step)
    requires sc.Proper() && Inv(sc, s) && s.nodeUp && NodeNext(s, step).Some?
    ensures Inv(sc, NodeNext(s, step).value)
    decreases step
  {
    hide Inv, Scene.Proper;
    match step
    case TakeHello => HelloStep(sc, s);
    case TakeAsk => AskStep(sc, s);
    case Dial(target) => DialStep(sc, s, target);
    case DeliverUp(n) => DeliverUpStep(sc, s, n);
    case MoveDown(n) => MoveDownStep(sc, s, n);
    case NodeFails => NodeBroken(sc, s, s.(nodeUp := false));
    case NodeBreaks(during, n) =>
      NodeKeepsInv(sc, s, during);
      NodeBroken(sc, NodeNext(s, during).value, NodeNext(s, step).value);
    case _ =>
  }

  lemma {:induction false} RunKeepsInv(sc: Scene, steps: seq<Step>)
    requires sc.Proper() && Exec(sc.auth, sc.Start(), steps).Some?
    ensures Inv(sc, Exec(sc.auth, sc.Start(), steps).value)
  {
    if steps == [] {
      StartIsRight(sc);
    } else {
      hide Inv, GatewayNext, NodeNext;
      var s, step := Exec(sc.auth, sc.Start(), steps[..|steps| - 1]).value, steps[|steps| - 1];
      RunKeepsInv(sc, steps[..|steps| - 1]);
      if s.gatewayUp && GatewayNext(sc.auth, s, step).Some? {
        GatewayKeepsInv(sc, s, step);
      } else {
        NodeKeepsInv(sc, s, step);
      }
    }
  }

  lemma StartIsRight(sc: Scene)
    requires sc.Proper()
    ensures Inv(sc, sc.Start())
  {
    hide Speech, R.Frame, Gateway.Ask, Gateway.ReplyBytes, A.Encodable, C.Encodable;
    assert [] + sc.data == sc.data;
  }

  /**
  In every interleaving, failures included, even in the middle of a write, the node only ever asks for
  the address the client sent, the target gets a prefix of the client's payload, and the client gets a
  prefix of the handshake answers followed by the target's data; what either of those who are still up
  has before it continues that prefix.  While both are up and relay, nothing is lost, doubled or
  reordered on the way up or down.
  */
  lemma TwoHopIsByteExact(sc: Scene, steps: seq<Step>)
    requires sc.Proper() && Exec(sc.auth, sc.Start(), steps).Some?
    ensures var s := Exec(sc.auth, sc.Start(), steps).value;
            && (s.node.Dialling? || s.node.Forwarding? ==> s.node.dest == sc.req.addr)
            && s.toTarget <= sc.payload
            && s.toClient <= sc.Preface() + SUCCESS_REPLY + sc.data
            && (s.nodeUp && s.node.Forwarding? ==> s.toTarget + s.toNode <= sc.payload)
            && (s.gatewayUp && s.gateway.Relaying? ==>
                  s.node.Forwarding? && s.toClient + s.toGateway <= sc.Preface() + SUCCESS_REPLY + sc.data)
            && (s.gatewayUp && s.nodeUp && s.gateway.Relaying? ==>
                  && s.toTarget + s.toNode + s.fromClient == sc.payload
                  && s.toClient + s.toGateway + s.fromTarget == sc.Preface() + SUCCESS_REPLY + sc.data)
  {
    hide Exec, Inv, A.Encodable, C.Encodable, Scene.Preface;
    RunKeepsInv(sc, steps);
    InvIsExact(sc, Exec(sc.auth, sc.Start(), steps).value);
  }

  lemma InvIsExact(sc: Scene, s: Net)
    requires Inv(sc, s)
    ensures s.node.Dialling? || s.node.Forwarding? ==> s.node.dest == sc.req.addr
    ensures s.toTarget <= sc.payload && s.toClient <= sc.Preface() + SUCCESS_REPLY + sc.data
    ensures s.nodeUp && s.node.Forwarding? ==> s.toTarget + s.toNode <= sc.payload
    ensures s.gatewayUp && s.gateway.Relaying? ==>
              s.node.Forwarding? && s.toClient + s.toGateway <= sc.Preface() + SUCCESS_REPLY + sc.data
    ensures s.gatewayUp && s.nodeUp && s.gateway.Relaying? ==>
              && s.toTarget + s.toNode + s.fromClient == sc.payload
              && s.toClient + s.toGateway + s.fromTarget == sc.Preface() + SUCCESS_REPLY + sc.data
  {
    hide Gateway.Ask, Gateway.ReplyBytes, ClientSide, DownSide, GatewaySaid, NodeHeard, Moved, Scene.Preface;
    ToldSoFar(sc, s);
    MovedIsPart(sc, s);
    if s.nodeUp {
      NodeWaiting(sc, s);
    }
    if s.gatewayUp && s.gateway.Relaying? {
      RelayIsExact(sc, s);
    }
  }

  lemma RelayIsExact(sc: Scene, s: Net)
    requires Inv(sc, s) && s.gatewayUp && s.gateway.Relaying?
    ensures s.node.Forwarding? && s.toClient + s.toGateway <= sc.Preface() + SUCCESS_REPLY + sc.data
    ensures s.nodeUp ==>
              && s.toTarget + s.toNode + s.fromClient == sc.payload
              && s.toClient + s.toGateway + s.fromTarget == sc.Preface() + SUCCESS_REPLY + sc.data
  {
    hide Gateway.ReplyBytes, UpSide, Scene.Preface, Delivered, Moved, Fetched, GatewayHeard, NodeSaid;
    var d, head := Delivered(sc, s.toClient), sc.Preface() + SUCCESS_REPLY;
    RelayedDown(sc, s);
    Behind(head, d, s.toGateway, s.fromTarget, sc.data);
    if s.nodeUp {
      ForwardingHeard(sc, s);
    }
  }

  lemma Behind(head: bytes, a: bytes, b: bytes, c: bytes, all: bytes)
    requires a + b <= all
    ensures head + a + b <= head + all
    ensures a + b + c == all ==> head + a + b + c == head + all
  {
    assert head + a + b == head + (a + b);
    SameTail(head, a + b, all);
    assert head + a + b + c == head + (a + b + c);
  }

  /** At the instant the gateway starts to relay, every stream stands at its first relay byte. */
  lemma RelayStartsAtFirstByte(sc: Scene, steps: seq<Step>)
    requires sc.Proper() && Exec(sc.auth, sc.Start(), steps).Some?
    requires var s := Exec(sc.auth, sc.Start(), steps).value;
             Next(sc.auth, s, TakeNodeReply).Some? && Next(sc.auth, s, TakeNodeReply).value.gateway.Relaying?
    ensures AtFirstByte(sc, Next(sc.auth, Exec(sc.auth, sc.Start(), steps).value, TakeNodeReply).value)
  {
    hide Exec, AtFirstByte, Inv;
    RunKeepsInv(sc, steps);
    var s := Exec(sc.auth, sc.Start(), steps).value;
    assert NodeNext(s, TakeNodeReply).None?;
    ReplyStep(sc, s);
  }

  // ----- nobody waits for ever -----

  function StepsLeft(s: Net): nat {
    (match s.gateway
     case AwaitGreeting => 6
     case AwaitProof => 5
     case AwaitRequest => 4
     case Picking(_) => 3
     case AwaitSelection(_) => 2
     case AwaitReply(_) => 1
     case _ => 0)
    + match s.node
      case Absent => 3
      case AwaitHello => 3
      case AwaitAsk => 2
      case Dialling(_) => 1
      case _ => 0
  }

  /** While both are up the two are never out of step, and what one of them waits for is there. */
  lemma InStep(sc: Scene, s: Net)
    requires UpSide(sc, s) && DownSide(sc, s) && s.gatewayUp && s.nodeUp
    ensures s.gateway.AwaitSelection? ==>
              (s.node.AwaitHello? && s.toNode == Gateway.HELLO) || (s.node.AwaitAsk? && s.toGateway == AGREED)
    ensures s.gateway.AwaitReply? ==>
              || (s.node.AwaitAsk? && s.toNode == Gateway.Ask(sc.req.addr))
              || s.node.Dialling?
              || (s.node.Rejected? && s.toGateway == Gateway.ReplyBytes(s.node.code))
              || (s.node.Forwarding? && s.toGateway == SUCCESS_REPLY + Fetched(sc, s.fromTarget))
  {
    AskNotEmpty(sc.req.addr);
    hide Gateway.Ask, Gateway.ReplyBytes, Fetched, Delivered;
    var ask := Gateway.Ask(sc.req.addr);
    if s.gateway.AwaitSelection? {
      assert [] + s.toNode == s.toNode && [] + s.toGateway == s.toGateway;
      assert |NodeHeard(sc, s.node, s.toTarget)| <= 3;
    } else if s.gateway.AwaitReply? {
      assert |NodeSaid(s.node, Fetched(sc, s.fromTarget))| >= 2;
      assert Gateway.HELLO + ask + [] == Gateway.HELLO + ask;
      SameTail(Gateway.HELLO, s.toNode, ask);
      if s.node.Rejected? {
        SameTail(AGREED, s.toGateway, Gateway.ReplyBytes(s.node.code));
      } else if s.node.Forwarding? {
        SameTail(AGREED, s.toGateway, SUCCESS_REPLY + Fetched(sc, s.fromTarget));
      }
    }
  }

  /**
  While both parties are up and the gateway has neither begun to relay nor been refused by the node, one
  of them can take a step of the handshake, whatever the target does; and it brings that end nearer.
  */
  lemma HandshakeNeverStalls(sc: Scene, steps: seq<Step>, target: NodeAgent.Target) returns (step: Step)
    requires sc.Proper() && Exec(sc.auth, sc.Start(), steps).Some?
    requires var s := Exec(sc.auth, sc.Start(), steps).value;
             s.gatewayUp && s.nodeUp && !s.gateway.Relaying? && !s.gateway.TurnedDown?
    ensures var s := Exec(sc.auth, sc.Start(), steps).value;
            Next(sc.auth, s, step).Some? && StepsLeft(Next(sc.auth, s, step).value) < StepsLeft(s)
    ensures !step.Fails() && (step.Dial? ==> step.target == target)
  {
    hide Inv, Exec, Next, StepsLeft;
    RunKeepsInv(sc, steps);
    var s := Exec(sc.auth, sc.Start(), steps).value;
    if Early(s.gateway) {
      step := EarlyStep(sc, s);
    } else {
      step := LaterStep(sc, s, target);
    }
  }

  lemma EarlyStep(sc: Scene, s: Net) returns (step: Step)
    requires sc.Proper() && Inv(sc, s) && s.gatewayUp && Early(s.gateway)
    ensures Nearer(sc.auth, s, step) && !step.Fails() && !step.Dial?
  {
    hide Inv, G.Decode, C.Decode, R.Decode, Scene.Proper;
    match s.gateway {
      case AwaitGreeting => step := TakeGreeting; GreetingStep(sc, s);
      case AwaitProof => step := TakeProof; ProofStep(sc, s);
      case AwaitRequest => step := TakeRequest; RequestStep(sc, s);
      case Picking(_) => step := Pick; PickStep(sc, s);
    }
  }

  predicate Nearer(auth: Option<C.UsernamePassword>, s: Net, step: Step) {
    Next(auth, s, step).Some? && StepsLeft(Next(auth, s, step).value) < StepsLeft(s)
  }

  lemma LaterStep(sc: Scene, s: Net, target: NodeAgent.Target) returns (step: Step)
    requires sc.Proper() && Inv(sc, s) && s.gatewayUp && s.nodeUp
    requires s.gateway.AwaitSelection? || s.gateway.AwaitReply?
    ensures Nearer(sc.auth, s, step) && !step.Fails() && (step.Dial? ==> step.target == target)
  {
    InStep(sc, s);
    hide Inv, Gateway.Ask, Gateway.ReplyBytes, Fetched, Nearer, A.Encodable, C.Encodable;
    if s.node.AwaitHello? {
      step := HelloNext(sc.auth, s);
    } else if s.gateway.AwaitSelection? {
      step := SelectionNext(sc.auth, s);
    } else if s.node.AwaitAsk? {
      step := AskNext(sc.auth, s, sc.req.addr);
    } else if s.node.Dialling? {
      step := DialNext(sc.auth, s, target);
    } else if s.node.Rejected? {
      assert s.toGateway == Gateway.ReplyBytes(s.node.code) + [];
      step := ReplyNext(sc.auth, s, s.node.code, []);
    } else {
      step := ReplyNext(sc.auth, s, P.SUCCESS, Fetched(sc, s.fromTarget));
    }
  }

  lemma HelloNext(auth: Option<C.UsernamePassword>, s: Net) returns (step: Step)
    requires s.nodeUp && s.node.AwaitHello? && s.toNode == Gateway.HELLO
    ensures Nearer(auth, s, step) && !step.Fails() && !step.Dial?
  {
    step := TakeHello;
    assert GatewayNext(auth, s, step).None?;
    G.RoundTripIff(G.Greeting([G.NO_AUTH]), []);
    assert G.Encode(G.Greeting([G.NO_AUTH])) + [] == Gateway.HELLO;
  }

  lemma SelectionNext(auth: Option<C.UsernamePassword>, s: Net) returns (step: Step)
    requires s.gatewayUp && s.gateway.AwaitSelection? && s.toGateway == AGREED
    ensures Nearer(auth, s, step) && !step.Fails() && !step.Dial?
  {
    hide Gateway.Ask;
    step := TakeSelection;
    assert GatewayNext(auth, s, step).Some?;
  }

  lemma AskNext(auth: Option<C.UsernamePassword>, s: Net, dest: A.SocksAddr) returns (step: Step)
    requires s.nodeUp && s.node.AwaitAsk? && A.Encodable(dest, false) && s.toNode == Gateway.Ask(dest)
    ensures Nearer(auth, s, step) && !step.Fails() && !step.Dial?
  {
    hide R.Decode, A.Encodable, Gateway.Ask;
    step := TakeAsk;
    AskIsUnderstood(dest);
    assert GatewayNext(auth, s, step).None?;
  }

  lemma DialNext(auth: Option<C.UsernamePassword>, s: Net, target: NodeAgent.Target) returns (step: Step)
    requires s.nodeUp && s.node.Dialling?
    ensures Nearer(auth, s, step) && step == Dial(target)
  {
    hide Gateway.ReplyBytes;
    step := Dial(target);
    assert GatewayNext(auth, s, step).None?;
  }

  lemma ReplyNext(auth: Option<C.UsernamePassword>, s: Net, code: u8, tail: bytes) returns (step: Step)
    requires s.gatewayUp && s.gateway.AwaitReply? && s.toGateway == Gateway.ReplyBytes(code) + tail
    ensures Nearer(auth, s, step) && !step.Fails() && !step.Dial?
  {
    hide Gateway.ReplyBytes, Gateway.TakeReply;
    step := TakeNodeReply;
    ReplyIsTakenWhole(s.toGateway, code, tail);
    assert GatewayNext(auth, s, step).Some?;
  }

  lemma AskIsUnderstood(dest: A.SocksAddr)
    requires A.Encodable(dest, false)
    ensures R.Decode(Gateway.Ask(dest)) == Ok((R.Request(R.Connect, dest), |Gateway.Ask(dest)|))
  {
    hide R.Decode, R.Frame, A.Encodable;
    R.RoundTripIff(R.Request(R.Connect, dest), 0x00, []);
    assert Gateway.Ask(dest) + [] == Gateway.Ask(dest);
  }

  // ----- who is left without a reply -----

  /** How the run's attempt to reach the target ended, if there was one. */
  function Dialled(steps: seq<Step>): Option<NodeAgent.Target> {
    if steps == [] then None
    else
      var last := steps[|steps| - 1];
      if last.Dial? then Some(last.target) else Dialled(steps[..|steps| - 1])
  }

  predicate Decided(s: Net, dialled: Option<NodeAgent.Target>) {
    s.nodeUp ==>
      && (s.node.Rejected? <==> dialled.Some? && dialled.value != NodeAgent.Connected)
      && (s.node.Forwarding? <==> dialled == Some(NodeAgent.Connected))
  }

  lemma {:induction false} GatewayLeavesNode(auth: Option<C.UsernamePassword>, s: Net, step: Step)
    requires GatewayNext(auth, s, step).Some?
    ensures var v := GatewayNext(auth, s, step).value;
            v.nodeUp == s.nodeUp && (v.node == s.node || (s.node.Absent? && v.node.AwaitHello?)) && !step.Dial?
    decreases step
  {
    hide Gateway.Ask, Gateway.ReplyBytes, Gateway.TakeReply;
    if step.GatewayBreaks? {
      GatewayLeavesNode(auth, s, step.during);
    }
  }

  lemma NodeDecides(s: Net, step: Step, dialled: Option<NodeAgent.Target>)
    requires NodeNext(s, step).Some? && s.nodeUp && Decided(s, dialled)
    ensures Decided(NodeNext(s, step).value, if step.Dial? then Some(step.target) else dialled)
  {
    hide Gateway.ReplyBytes;
  }

  lemma {:induction false} DialDecides(auth: Option<C.UsernamePassword>, s: Net, steps: seq<Step>)
    requires s.node.Absent? && Exec(auth, s, steps).Some?
    ensures Decided(Exec(auth, s, steps).value, Dialled(steps))
  {
    hide GatewayNext, NodeNext;
    if steps != [] {
      var prefix, step := steps[..|steps| - 1], steps[|steps| - 1];
      var m := Exec(auth, s, prefix).value;
      DialDecides(auth, s, prefix);
      if m.gatewayUp && GatewayNext(auth, m, step).Some? {
        GatewayLeavesNode(auth, m, step);
      } else {
        NodeDecides(m, step, Dialled(prefix));
      }
    }
  }

  /**
  A client that speaks properly, and whose gateway and node stay up, is told success exactly when the
  target was reached, and is left without any reply exactly when it was not: of the node's refusal the
  gateway passes nothing on.
  */
  lemma UnansweredIffDialFailed(sc: Scene, steps: seq<Step>)
    requires sc.Proper() && Exec(sc.auth, sc.Start(), steps).Some?
    requires var s := Exec(sc.auth, sc.Start(), steps).value;
             s.gatewayUp && s.nodeUp && (s.gateway.Relaying? || s.gateway.TurnedDown?)
    ensures var s := Exec(sc.auth, sc.Start(), steps).value;
            && Dialled(steps).Some?
            && (s.toClient == sc.Preface() <==> Dialled(steps).value != NodeAgent.Connected)
            && (sc.Preface() + SUCCESS_REPLY <= s.toClient <==> Dialled(steps).value == NodeAgent.Connected)
  {
    hide Exec, Dialled, Speech, R.Frame, Proof, DownSide, Moved, Gateway.Ask;
    RunKeepsInv(sc, steps);
    DialDecides(sc.auth, sc.Start(), steps);
    SuccessIsLong();
    hide Gateway.ReplyBytes;
    var s := Exec(sc.auth, sc.Start(), steps).value;
    assert s.gateway.Relaying? ==> |s.toClient| >= |sc.Preface()| + |SUCCESS_REPLY|;
  }

  lemma SuccessIsLong()
    ensures |SUCCESS_REPLY| > 0
  {
  }

  /** Once refused, the gateway says nothing more, and nobody has a step left but to fail. */
  lemma RefusedIsTheEnd(sc: Scene, steps: seq<Step>, step: Step)
    requires sc.Proper() && Exec(sc.auth, sc.Start(), steps).Some?
    requires Exec(sc.auth, sc.Start(), steps).value.gateway.TurnedDown?
    requires Next(sc.auth, Exec(sc.auth, sc.Start(), steps).value, step).Some?
    ensures step.Fails()
    ensures var s := Exec(sc.auth, sc.Start(), steps).value;
            var v := Next(sc.auth, s, step).value;
            v.gateway.TurnedDown? && v.toClient == s.toClient && v.toTarget == s.toTarget == []
  {
    RunKeepsInv(sc, steps);
    hide Exec, GatewayNext, NodeNext, ClientSide, DownSide, Speech, R.Frame, Gateway.Ask;
    var s := Exec(sc.auth, sc.Start(), steps).value;
    if s.gatewayUp && GatewayNext(sc.auth, s, step).Some? {
      RefusedGateway(sc.auth, s, step);
    } else {
      RefusingNode(s, step);
    }
  }

  lemma {:induction false} RefusedGateway(auth: Option<C.UsernamePassword>, s: Net, step: Step)
    requires s.gateway.TurnedDown? && GatewayNext(auth, s, step).Some?
    ensures step.Fails() && GatewayNext(auth, s, step).value == s.(gatewayUp := false)
    decreases step
  {
    hide Gateway.Ask, Gateway.ReplyBytes, Gateway.TakeReply, G.Decode, C.Decode, R.Decode;
    if step.GatewayBreaks? {
      RefusedGateway(auth, s, step.during);
    }
  }

  lemma {:induction false} RefusingNode(s: Net, step: Step)
    requires s.node.Rejected? && NodeNext(s, step).Some?
    ensures step.Fails() && NodeNext(s, step).value == s.(nodeUp := false)
    decreases step
  {
    hide Gateway.ReplyBytes, G.Decode, R.Decode;
    if step.NodeBreaks? {
      RefusingNode(s, step.during);
    }
  }

  lemma StaysUp(auth: Option<C.UsernamePassword>, s: Net, step: Step)
    requires Next(auth, s, step).Some? && !step.Fails()
    ensures var v := Next(auth, s, step).value;
            v.gatewayUp == s.gatewayUp && v.nodeUp == s.nodeUp
  {
    hide Gateway.Ask, Gateway.ReplyBytes, Gateway.TakeReply, G.Decode, C.Decode, R.Decode;
  }

  /**
  From every point of the handshake it can be brought to its end, whatever becomes of the attempt to
  reach the target: in the relay if the target is reached, else in a refusal the client never hears of.
  */
  lemma {:induction false} HandshakeEnds(sc: Scene, steps: seq<Step>, target: NodeAgent.Target)
    returns (all: seq<Step>)
    requires sc.Proper() && Exec(sc.auth, sc.Start(), steps).Some?
    requires var s := Exec(sc.auth, sc.Start(), steps).value; s.gatewayUp && s.nodeUp
    ensures steps <= all && Exec(sc.auth, sc.Start(), all).Some?
    ensures Dialled(all) == if Dialled(steps).Some? then Dialled(steps) else Some(target)
    ensures var s := Exec(sc.auth, sc.Start(), all).value;
            && s.gatewayUp && s.nodeUp
            && (s.gateway.Relaying? <==> Dialled(all) == Some(NodeAgent.Connected))
            && (s.gateway.TurnedDown? <==> Dialled(all) != Some(NodeAgent.Connected))
    decreases StepsLeft(Exec(sc.auth, sc.Start(), steps).value)
  {
    var s := Exec(sc.auth, sc.Start(), steps).value;
    if s.gateway.Relaying? || s.gateway.TurnedDown? {
      all := steps;
      UnansweredIffDialFailed(sc, steps);
      EndIsDecided(sc, steps);
    } else {
      var step := HandshakeNeverStalls(sc, steps, target);
      StaysUp(sc.auth, s, step);
      assert (steps + [step])[..|steps|] == steps;
      DialledOnce(sc, steps, step);
      all := HandshakeEnds(sc, steps + [step], target);
    }
  }

  lemma EndIsDecided(sc: Scene, steps: seq<Step>)
    requires sc.Proper() && Exec(sc.auth, sc.Start(), steps).Some?
    requires Exec(sc.auth, sc.Start(), steps).value.nodeUp
    ensures var s := Exec(sc.auth, sc.Start(), steps).value;
            && (s.gateway.Relaying? ==> Dialled(steps) == Some(NodeAgent.Connected))
            && (s.gateway.TurnedDown? ==> Dialled(steps).Some? && Dialled(steps) != Some(NodeAgent.Connected))
  {
    RunKeepsInv(sc, steps);
    DialDecides(sc.auth, sc.Start(), steps);
    hide Exec, Dialled, ClientSide, DownSide, Speech, R.Frame, Gateway.Ask;
  }

  /** The target is dialled at most once. */
  lemma DialledOnce(sc: Scene, steps: seq<Step>, step: Step)
    requires sc.Proper() && Exec(sc.auth, sc.Start(), steps).Some?
    requires var s := Exec(sc.auth, sc.Start(), steps).value; s.nodeUp && Next(sc.auth, s, step).Some?
    ensures step.Dial? ==> Dialled(steps).None? && Dialled(steps + [step]) == Some(step.target)
    ensures !step.Dial? ==> Dialled(steps + [step]) == Dialled(steps)
  {
    assert (steps + [step])[..|steps|] == steps;
    DialDecides(sc.auth, sc.Start(), steps);
    hide Exec, Speech, R.Frame;
  }

  /** So it does happen: for every proper client and every way a target can fail to be reached. */
  lemma ClientIsLeftUnanswered(sc: Scene, target: NodeAgent.Target) returns (steps: seq<Step>)
    requires sc.Proper() && target != NodeAgent.Connected
    ensures Exec(sc.auth, sc.Start(), steps).Some?
    ensures var s := Exec(sc.auth, sc.Start(), steps).value;
            s.gatewayUp && s.nodeUp && s.gateway.TurnedDown? && s.toClient == sc.Preface()
  {
    assert Exec(sc.auth, sc.Start(), []) == Some(sc.Start());
    assert Dialled([]).None?;
    hide Exec, Dialled, Speech, R.Frame;
    steps := HandshakeEnds(sc, [], target);
    UnansweredIffDialFailed(sc, steps);
  }

  // ----- everything can be delivered -----

  lemma ExecAppend(auth: Option<C.UsernamePassword>, s: Net, steps: seq<Step>, step: Step)
    requires Exec(auth, s, steps).Some?
    ensures Exec(auth, s, steps + [step]) == Next(auth, Exec(auth, s, steps).value, step)
  {
    assert (steps + [step])[..|steps|] == steps;
  }

  /** The gateway passes on all it has from the client, and the node delivers it. */
  lemma UpIsEmptied(auth: Option<C.UsernamePassword>, s: Net)
    requires s.gatewayUp && s.nodeUp && s.gateway.Relaying? && s.node.Forwarding?
    ensures var v := s.(fromClient := [], toNode := s.toNode + s.fromClient);
            && Next(auth, s, MoveUp(|s.fromClient|)) == Some(v)
            && Next(auth, v, DeliverUp(|v.toNode|)) == Some(v.(toNode := [], toTarget := s.toTarget + v.toNode))
  {
    var v := s.(fromClient := [], toNode := s.toNode + s.fromClient);
    AllOf(s.fromClient);
    AllOf(v.toNode);
    assert GatewayNext(auth, v, DeliverUp(|v.toNode|)).None?;
  }

  lemma AllOf(s: bytes)
    ensures s[..|s|] == s && s[|s|..] == []
  {
  }

  /** And the same the other way. */
  lemma DownIsEmptied(auth: Option<C.UsernamePassword>, s: Net)
    requires s.gatewayUp && s.nodeUp && s.gateway.Relaying? && s.node.Forwarding?
    ensures var v := s.(fromTarget := [], toGateway := s.toGateway + s.fromTarget);
            && Next(auth, s, MoveDown(|s.fromTarget|)) == Some(v)
            && Next(auth, v, DeliverDown(|v.toGateway|))
               == Some(v.(toGateway := [], toClient := s.toClient + v.toGateway))
  {
    AllOf(s.fromTarget);
    AllOf(s.toGateway + s.fromTarget);
    assert GatewayNext(auth, s, MoveDown(|s.fromTarget|)).None?;
  }

  lemma RelayCanComplete(sc: Scene, steps: seq<Step>) returns (all: seq<Step>)
    requires sc.Proper() && Exec(sc.auth, sc.Start(), steps).Some?
    requires var s := Exec(sc.auth, sc.Start(), steps).value; s.gatewayUp && s.nodeUp && s.gateway.Relaying?
    ensures steps <= all && Exec(sc.auth, sc.Start(), all).Some?
    ensures var s := Exec(sc.auth, sc.Start(), all).value;
            s.toTarget == sc.payload && s.toClient == sc.Preface() + SUCCESS_REPLY + sc.data
  {
    hide Exec, Next, A.Encodable, C.Encodable, Scene.Preface, Speech, Gateway.ReplyBytes;
    var start, s := sc.Start(), Exec(sc.auth, sc.Start(), steps).value;
    TwoHopIsByteExact(sc, steps);
    UpIsEmptied(sc.auth, s);
    var up, toNode := steps + [MoveUp(|s.fromClient|)], s.toNode + s.fromClient;
    ExecAppend(sc.auth, start, steps, MoveUp(|s.fromClient|));
    ExecAppend(sc.auth, start, up, DeliverUp(|toNode|));
    all := up + [DeliverUp(|toNode|)];
    var v := s.(fromClient := [], toNode := [], toTarget := s.toTarget + toNode);
    assert Exec(sc.auth, start, all) == Some(v);
    DownIsEmptied(sc.auth, v);
    var down, toGateway := all + [MoveDown(|v.fromTarget|)], v.toGateway + v.fromTarget;
    ExecAppend(sc.auth, start, all, MoveDown(|v.fromTarget|));
    ExecAppend(sc.auth, start, down, DeliverDown(|toGateway|));
    all := down + [DeliverDown(|toGateway|)];
    assert s.toTarget + toNode == s.toTarget + s.toNode + s.fromClient;
    assert s.toClient + toGateway == s.toClient + s.toGateway + s.fromTarget;
  }

  /**
  From every point of a run with both parties up at which the target has not failed to be reached, the
  run can go on until the target has all of the payload and the client all of the data.
  */
  lemma SessionCanComplete(sc: Scene, steps: seq<Step>) returns (all: seq<Step>)
    requires sc.Proper() && Exec(sc.auth, sc.Start(), steps).Some?
    requires var s := Exec(sc.auth, sc.Start(), steps).value; s.gatewayUp && s.nodeUp
    requires Dialled(steps).None? || Dialled(steps) == Some(NodeAgent.Connected)
    ensures steps <= all && Exec(sc.auth, sc.Start(), all).Some?
    ensures var s := Exec(sc.auth, sc.Start(), all).value;
            s.toTarget == sc.payload && s.toClient == sc.Preface() + SUCCESS_REPLY + sc.data
  {
    hide Exec, Next, Scene.Proper, Scene.Preface, Dialled;
    all := HandshakeEnds(sc, steps, NodeAgent.Connected);
    all := RelayCanComplete(sc, all);
  }

  /** What the client is told before its data, byte by byte. */
  lemma ToldInBytes(sc: Scene)
    ensures sc.Preface() + SUCCESS_REPLY
            == (if sc.auth.Some? then [5, 2, 1, 0] else [5, 0]) + [5, 0, 0, 1, 0, 0, 0, 0, 0, 0]
  {
    Gateway.ReplyInBytes(0);
  }

  // ----- failures can happen anywhere -----

  /** `got` is `before` with up to `n` bytes of what `after` adds to it. */
  predicate Cutoff(before: bytes, after: bytes, n: nat, got: bytes) {
    before <= got <= after && |got| - |before| == if |after| - |before| <= n then |after| - |before| else n
  }

  /** Steps only ever add to what was said, until they take it off a queue. */
  lemma GatewayOnlyAdds(auth: Option<C.UsernamePassword>, s: Net, step: Step)
    requires !step.Fails() && GatewayNext(auth, s, step).Some?
    ensures var v := GatewayNext(auth, s, step).value;
            s.toClient <= v.toClient && s.toNode <= v.toNode
  {
    hide Gateway.Ask, Gateway.ReplyBytes, Gateway.TakeReply, G.Decode, C.Decode, R.Decode;
  }

  lemma NodeOnlyAdds(s: Net, step: Step)
    requires !step.Fails() && NodeNext(s, step).Some?
    ensures var v := NodeNext(s, step).value;
            s.toGateway <= v.toGateway && s.toTarget <= v.toTarget
  {
    hide Gateway.ReplyBytes, G.Decode, R.Decode;
  }

  /** A gateway that is up can fail between any two steps, and any number of bytes into what a step writes. */
  lemma GatewayCanFailAnywhere(auth: Option<C.UsernamePassword>, s: Net, step: Step, n: nat)
    requires s.gatewayUp
    ensures Next(auth, s, GatewayFails) == Some(s.(gatewayUp := false))
    ensures !step.Fails() && GatewayNext(auth, s, step).Some? ==>
              var v, w := GatewayNext(auth, s, step).value, Next(auth, s, GatewayBreaks(step, n));
              && w.Some? && w.value == v.(gatewayUp := false, toClient := w.value.toClient, toNode := w.value.toNode)
              && Cutoff(s.toClient, v.toClient, n, w.value.toClient) && Cutoff(s.toNode, v.toNode, n, w.value.toNode)
  {
    if !step.Fails() && GatewayNext(auth, s, step).Some? {
      GatewayOnlyAdds(auth, s, step);
      var v := GatewayNext(auth, s, step).value;
      PartlyIsCutoff(s.toClient, v.toClient, n);
      PartlyIsCutoff(s.toNode, v.toNode, n);
      hide Partly, Cutoff;
      BrokenGateway(auth, s, step, n);
    }
  }

  lemma BrokenGateway(auth: Option<C.UsernamePassword>, s: Net, step: Step, n: nat)
    requires GatewayNext(auth, s, step).Some?
    ensures var v := GatewayNext(auth, s, step).value;
            GatewayNext(auth, s, GatewayBreaks(step, n))
            == Some(v.(gatewayUp := false, toClient := Partly(s.toClient, v.toClient, n),
                       toNode := Partly(s.toNode, v.toNode, n)))
  {
  }

  lemma PartlyIsCutoff(before: bytes, after: bytes, n: nat)
    requires before <= after
    ensures Cutoff(before, after, n, Partly(before, after, n))
  {
  }

  /** And so can a node. */
  lemma NodeCanFailAnywhere(auth: Option<C.UsernamePassword>, s: Net, step: Step, n: nat)
    requires s.nodeUp
    ensures Next(auth, s, NodeFails) == Some(s.(nodeUp := false))
    ensures !step.Fails() && NodeNext(s, step).Some? ==>
              var v, w := NodeNext(s, step).value, Next(auth, s, NodeBreaks(step, n));
              && w.Some? && w.value == v.(nodeUp := false, toGateway := w.value.toGateway, toTarget := w.value.toTarget)
              && Cutoff(s.toGateway, v.toGateway, n, w.value.toGateway)
              && Cutoff(s.toTarget, v.toTarget, n, w.value.toTarget)
  {
    assert GatewayNext(auth, s, NodeFails).None? && GatewayNext(auth, s, NodeBreaks(step, n)).None?;
    if !step.Fails() && NodeNext(s, step).Some? {
      NodeOnlyAdds(s, step);
      var v := NodeNext(s, step).value;
      PartlyIsCutoff(s.toGateway, v.toGateway, n);
      PartlyIsCutoff(s.toTarget, v.toTarget, n);
      hide Partly, Cutoff;
      BrokenNode(s, step, n);
    }
  }

  lemma BrokenNode(s: Net, step: Step, n: nat)
    requires NodeNext(s, step).Some?
    ensures var v := NodeNext(s, step).value;
            NodeNext(s, NodeBreaks(step, n))
            == Some(v.(nodeUp := false, toGateway := Partly(s.toGateway, v.toGateway, n),
                       toTarget := Partly(s.toTarget, v.toTarget, n)))
  {
  }
}
