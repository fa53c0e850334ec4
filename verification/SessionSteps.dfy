/** The frame by frame steps of gateway and node, tied to the sessions that run on real streams. */
module SessionSteps {
  import opened Prelude
  import opened Wire
  import opened Handshaking
  import opened TwoHop
  import A = Address
  import G = Greetings
  import C = Credentials
  import R = Requests
  import P = Replies
  import Gateway
  import NodeAgent

  function Then(auth: Option<C.UsernamePassword>, s: Option<Net>, step: Step): Option<Net> {
    if s.None? then None else Next(auth, s.value, step)
  }

  lemma ExecThen(auth: Option<C.UsernamePassword>, s: Net, steps: seq<Step>, step: Step)
    ensures Exec(auth, s, steps + [step]) == Then(auth, Exec(auth, s, steps), step)
  {
    hide Next;
    assert (steps + [step])[..|steps|] == steps;
  }

  /** A gateway with all that a client and a node have to say before it. */
  function Facing(input: bytes, answer: bytes): Net {
    Net(AwaitGreeting, Absent, true, true, input, [], [], answer, [], [])
  }

  function FrontSteps(auth: Option<C.UsernamePassword>): seq<Step> {
    (if auth.Some? then [TakeGreeting] + [TakeProof] else [TakeGreeting]) + [TakeRequest]
  }

  function GatewaySteps(auth: Option<C.UsernamePassword>): seq<Step> {
    FrontSteps(auth) + [Pick] + [TakeSelection] + [TakeNodeReply]
  }

  lemma GreetingFits(buf: bytes)
    requires G.Decode(buf).Ok?
    ensures 2 + |G.Decode(buf).value.methods| <= |buf|
  {
  }

  lemma ProofFits(buf: bytes)
    requires C.Decode(buf).Ok?
    ensures C.Decode(buf).value.WireLen() <= |buf|
  {
    C.DecodeIsCanonical(buf);
  }

  lemma RequestFits(buf: bytes)
    requires R.Decode(buf).Ok?
    ensures R.Decode(buf).value.1 <= |buf|
  {
    R.DecodeIsCanonical(buf);
  }

  lemma GreetingNext(auth: Option<C.UsernamePassword>, s: Net)
    requires s.gatewayUp && s.gateway.AwaitGreeting?
    ensures var g := G.Decode(s.fromClient);
            var v := Next(auth, s, TakeGreeting);
            && (v.Some? <==> g.Ok? && MethodFor(auth, g.value) != G.NO_ACCEPTABLE)
            && (v.Some? ==>
                  && 2 + |g.value.methods| <= |s.fromClient|
                  && v.value == s.(gateway := if auth.Some? then AwaitProof else AwaitRequest,
                                   fromClient := s.fromClient[2 + |g.value.methods|..],
                                   toClient := s.toClient + G.Selection(MethodFor(auth, g.value))))
  {
    hide G.Decode;
    if G.Decode(s.fromClient).Ok? {
      GreetingFits(s.fromClient);
    }
  }

  lemma ProofNext(auth: Option<C.UsernamePassword>, s: Net)
    requires s.gatewayUp && s.gateway.AwaitProof?
    ensures var c := C.Decode(s.fromClient);
            var v := Next(auth, s, TakeProof);
            && (v.Some? <==> c.Ok? && auth == Some(c.value))
            && (v.Some? ==>
                  && c.value.WireLen() <= |s.fromClient|
                  && v.value == s.(gateway := AwaitRequest, fromClient := s.fromClient[c.value.WireLen()..],
                                   toClient := s.toClient + C.Verdict(C.ACCEPTED)))
  {
    hide C.Decode;
    if C.Decode(s.fromClient).Ok? {
      ProofFits(s.fromClient);
    }
  }

  lemma RequestNext(auth: Option<C.UsernamePassword>, s: Net)
    requires s.gatewayUp && s.gateway.AwaitRequest?
    ensures var r := R.Decode(s.fromClient);
            var v := Next(auth, s, TakeRequest);
            && (v.Some? <==> r.Ok? && r.value.0.command == R.Connect)
            && (v.Some? ==>
                  && r.value.1 <= |s.fromClient|
                  && v.value == s.(gateway := Picking(r.value.0.addr), fromClient := s.fromClient[r.value.1..]))
  {
    hide R.Decode;
    if R.Decode(s.fromClient).Ok? {
      RequestFits(s.fromClient);
    }
  }

  /** The request, wherever it begins. */
  lemma RequestIsAsked(auth: Option<C.UsernamePassword>, s: Net, input: bytes, n: nat, verdict: Option<u8>)
    requires s.gatewayUp && s.gateway.AwaitRequest? && n <= |input| && s.fromClient == input[n..]
    ensures var f, v := Asked(s.fromClient, verdict, n), Next(auth, s, TakeRequest);
            && (v.Some? <==> f.request.Some? && f.request.value.command == R.Connect)
            && (v.Some? ==> f.used <= |input|
                            && v.value == s.(gateway := Picking(f.request.value.addr), fromClient := input[f.used..]))
  {
    hide Next, R.Decode;
    RequestNext(auth, s);
    var r := R.Decode(s.fromClient);
    if r.Ok? {
      RequestFits(s.fromClient);
      assert s.fromClient[r.value.1..] == input[n + r.value.1..];
    }
  }

  /** What is left to do once the method is selected. */
  function RestOfFront(auth: Option<C.UsernamePassword>, s: Net): Option<Net> {
    if auth.Some? then Then(auth, Next(auth, s, TakeProof), TakeRequest) else Next(auth, s, TakeRequest)
  }

  lemma RestIsAfterSelection(auth: Option<C.UsernamePassword>, s: Net, m: u8, input: bytes, n: nat)
    requires s.gatewayUp && n <= |input| && s.fromClient == input[n..]
    requires if auth.Some? then s.gateway.AwaitProof? && m == G.USER_PASS else s.gateway.AwaitRequest? && m == G.NO_AUTH
    ensures var f, v := AfterSelection(auth, m, s.fromClient), RestOfFront(auth, s);
            && (v.Some? <==> f.request.Some? && f.request.value.command == R.Connect)
            && (v.Some? ==>
                  && n + f.used <= |input|
                  && v.value == s.(gateway := Picking(f.request.value.addr), fromClient := input[n + f.used..],
                                   toClient := s.toClient + if auth.Some? then C.Verdict(C.ACCEPTED) else [])
                  && f.selection.None? && f.verdict == if auth.Some? then Some(C.ACCEPTED) else None)
  {
    hide Next, C.Decode, Asked;
    NoSelectionAfter(auth, m, s.fromClient);
    if auth.Some? {
      ProofNext(auth, s);
      var s2 := Next(auth, s, TakeProof);
      if s2.Some? {
        var w := C.Decode(s.fromClient).value.WireLen();
        assert s2.value.fromClient == input[n + w..];
        RequestIsAsked(auth, s2.value, input, n + w, Some(C.ACCEPTED));
        UsedShifts(s2.value.fromClient, Some(C.ACCEPTED), n, w);
        VerdictOf(s2.value.fromClient, Some(C.ACCEPTED), w);
      }
    } else {
      RequestIsAsked(auth, s, input, n, None);
      UsedShifts(s.fromClient, None, n, 0);
      VerdictOf(s.fromClient, None, 0);
      assert s.toClient + [] == s.toClient;
    }
  }

  lemma VerdictOf(input: bytes, verdict: Option<u8>, used: nat)
    ensures Asked(input, verdict, used).verdict == verdict
  {
  }

  lemma FrontStepsUnfold(auth: Option<C.UsernamePassword>, s: Net)
    ensures Exec(auth, s, FrontSteps(auth))
            == var s1 := Next(auth, s, TakeGreeting); if s1.None? then None else RestOfFront(auth, s1.value)
  {
    assert Exec(auth, s, []) == Some(s) && [] + [TakeGreeting] == [TakeGreeting];
    hide Exec, Next;
    ExecThen(auth, s, [], TakeGreeting);
    ExecThen(auth, s, [TakeGreeting], TakeProof);
    ExecThen(auth, s, if auth.Some? then [TakeGreeting] + [TakeProof] else [TakeGreeting], TakeRequest);
  }

  /** Whoever the client is, the first steps end where the first half of the session does. */
  lemma FrontStepsAreFrontEnd(auth: Option<C.UsernamePassword>, input: bytes, answer: bytes)
    ensures var f, v := FrontEnd(auth, input), Exec(auth, Facing(input, answer), FrontSteps(auth));
            && (v.Some? <==> f.request.Some? && f.request.value.command == R.Connect)
            && (v.Some? ==>
                  && f.used <= |input|
                  && v.value == Facing(input, answer).(gateway := Picking(f.request.value.addr),
                                                       fromClient := input[f.used..], toClient := f.Answer()))
  {
    hide Exec, Next, RestOfFront, FrontSteps, AfterSelection, G.Decode;
    var s := Facing(input, answer);
    FrontStepsUnfold(auth, s);
    GreetingNext(auth, s);
    var g := G.Decode(input);
    if g.Ok? {
      var m := MethodFor(auth, g.value);
      GreetingFits(input);
      if m == G.NO_ACCEPTABLE {
        NobodyAsks(auth, input[2 + |g.value.methods|..]);
      } else {
        RestIsAfterSelection(auth, Next(auth, s, TakeGreeting).value, m, input, 2 + |g.value.methods|);
        assert [] + G.Selection(m) == G.Selection(m);
      }
    }
  }

  lemma NobodyAsks(auth: Option<C.UsernamePassword>, input: bytes)
    ensures AfterSelection(auth, G.NO_ACCEPTABLE, input).request.None?
  {
  }

  lemma UsedShifts(input: bytes, verdict: Option<u8>, n: nat, w: nat)
    ensures Asked(input, verdict, n + w) == var f := Asked(input, verdict, w); f.(used := n + f.used)
  {
    hide R.Decode;
  }

  /** The steps with the node end where the chained handshake does. */
  lemma ChainStepsAreChain(auth: Option<C.UsernamePassword>, s: Net)
    requires s.gatewayUp && s.gateway.Picking? && s.node.Absent? && s.toNode == []
    ensures var v := Then(auth, Then(auth, Next(auth, s, Pick), TakeSelection), TakeNodeReply);
            var c := Gateway.ChainOn(s.gateway.dest, s.toGateway);
            && ((v.Some? && v.value.gateway.Relaying?) <==> c.ok)
            && (c.ok ==>
                  && c.used <= |s.toGateway| && v.value.toNode == c.sent && v.value.toGateway == s.toGateway[c.used..]
                  && v.value.fromClient == s.fromClient && v.value.toClient == s.toClient + SUCCESS_REPLY)
  {
    hide Gateway.Ask, Gateway.ReplyBytes;
    var s1 := s.(gateway := AwaitSelection(s.gateway.dest), node := AwaitHello, toNode := Gateway.HELLO);
    assert [] + Gateway.HELLO == Gateway.HELLO;
    assert Next(auth, s, Pick) == Some(s1);
    SelectionIs(auth, s1);
    var s2 := Next(auth, s1, TakeSelection);
    hide Next;
    if s2.Some? {
      ReplyIs(auth, s2.value);
      var r := Gateway.TakeReply(s.toGateway[2..]);
      if r.Some? {
        TakenFits(s.toGateway[2..]);
        assert s.toGateway[2..][r.value.1..] == s.toGateway[2 + r.value.1..];
      }
    }
  }

  lemma SelectionIs(auth: Option<C.UsernamePassword>, s: Net)
    requires s.gatewayUp && s.gateway.AwaitSelection?
    ensures var v, a := Next(auth, s, TakeSelection), s.toGateway;
            && (v.Some? <==> |a| >= 2 && a[0] == VERSION && a[1] == G.NO_AUTH)
            && (v.Some? ==> v.value == s.(gateway := AwaitReply(s.gateway.dest), toGateway := a[2..],
                                          toNode := s.toNode + Gateway.Ask(s.gateway.dest)))
  {
    hide Gateway.Ask;
  }

  lemma ReplyIs(auth: Option<C.UsernamePassword>, s: Net)
    requires s.gatewayUp && s.gateway.AwaitReply?
    ensures var v, r := Next(auth, s, TakeNodeReply), Gateway.TakeReply(s.toGateway);
            && (v.Some? <==> r.Some?)
            && (v.Some? ==>
                  && r.value.1 <= |s.toGateway|
                  && (v.value.gateway.Relaying? <==> r.value.0 == P.SUCCESS)
                  && (r.value.0 == P.SUCCESS ==>
                        v.value == s.(gateway := Relaying, toGateway := s.toGateway[r.value.1..],
                                      toClient := s.toClient + SUCCESS_REPLY)))
  {
    hide Gateway.ReplyBytes, Gateway.TakeReply;
    if Gateway.TakeReply(s.toGateway).Some? {
      TakenFits(s.toGateway);
    }
  }

  lemma TakenFits(buf: bytes)
    requires Gateway.TakeReply(buf).Some?
    ensures Gateway.TakeReply(buf).value.1 <= |buf|
  {
  }

  /**
  Whatever a client and a node say, the gateway's steps lead to the relay exactly when its session is
  answered with success, and then both have been told what the session has to say to them, and both
  incoming streams stand where it leaves them.
  */
  lemma GatewayStepsAreSession(auth: Option<C.UsernamePassword>, input: bytes, answer: bytes)
    ensures var v := Exec(auth, Facing(input, answer), GatewaySteps(auth));
            var log := Gateway.Session(auth, input, true, Some(answer));
            && ((v.Some? && v.value.gateway.Relaying?) <==> log.outcome.reply == Some(P.SUCCESS))
            && (log.outcome.reply == Some(P.SUCCESS) ==>
                  && log.front.used <= |input| && log.outcome.chain.Some? && log.outcome.chain.value.used <= |answer|
                  && v.value.toClient == log.Answer() && v.value.fromClient == input[log.front.used..]
                  && v.value.toNode == log.outcome.chain.value.sent
                  && v.value.toGateway == answer[log.outcome.chain.value.used..])
  {
    hide Exec, Next, FrontSteps, FrontEnd, Gateway.ChainOn, Gateway.ReplyBytes, Front.Answer;
    var s, front := Facing(input, answer), FrontSteps(auth);
    FrontStepsAreFrontEnd(auth, input, answer);
    ExecThen(auth, s, front, Pick);
    ExecThen(auth, s, front + [Pick], TakeSelection);
    ExecThen(auth, s, front + [Pick] + [TakeSelection], TakeNodeReply);
    var p := Exec(auth, s, front);
    if p.Some? {
      ChainStepsAreChain(auth, p.value);
    }
  }

  lemma HelloNextIs(s: Net)
    requires s.nodeUp && s.node.AwaitHello?
    ensures var g, v := G.Decode(s.toNode), Next(None, s, TakeHello);
            && (v.Some? <==> g.Ok? && MethodFor(None, g.value) != G.NO_ACCEPTABLE)
            && (v.Some? ==>
                  && 2 + |g.value.methods| <= |s.toNode|
                  && v.value == s.(node := AwaitAsk, toNode := s.toNode[2 + |g.value.methods|..],
                                   toGateway := s.toGateway + AGREED))
  {
    if G.Decode(s.toNode).Ok? {
      GreetingFits(s.toNode);
    }
    hide G.Decode;
    assert GatewayNext(None, s, TakeHello).None?;
  }

  lemma AskNextIs(s: Net)
    requires s.nodeUp && s.node.AwaitAsk?
    ensures var r, v := R.Decode(s.toNode), Next(None, s, TakeAsk);
            && (v.Some? <==> r.Ok? && r.value.0.command == R.Connect)
            && (v.Some? ==> r.value.1 <= |s.toNode|
                            && v.value == s.(node := Dialling(r.value.0.addr), toNode := s.toNode[r.value.1..]))
  {
    hide R.Decode;
    if R.Decode(s.toNode).Ok? {
      RequestFits(s.toNode);
    }
    assert GatewayNext(None, s, TakeAsk).None?;
  }

  lemma DialNextIs(s: Net, target: NodeAgent.Target)
    requires s.nodeUp && s.node.Dialling?
    ensures var v := Next(None, s, Dial(target));
            var code := NodeAgent.ReplyCode(R.Request(R.Connect, s.node.dest), target);
            v == Some(s.(node := if code == P.SUCCESS then Forwarding(s.node.dest) else Rejected(code),
                         toGateway := s.toGateway + Gateway.ReplyBytes(code)))
  {
    hide Gateway.ReplyBytes, NodeAgent.ReplyCode;
    assert GatewayNext(None, s, Dial(target)).None?;
  }

  /** What a node without credentials makes of its input, in terms of the two frames it takes. */
  lemma NodeFrontEnd(input: bytes)
    ensures var g, f := G.Decode(input), FrontEnd(None, input);
            && (g.Err? || MethodFor(None, g.value) == G.NO_ACCEPTABLE ==> f.request.None?)
            && (g.Ok? && MethodFor(None, g.value) != G.NO_ACCEPTABLE ==>
                  && 2 + |g.value.methods| <= |input|
                  && var n := 2 + |g.value.methods|;
                     var r := R.Decode(input[n..]);
                     && f.selection == Some(G.NO_AUTH) && f.verdict.None?
                     && (f.request.Some? <==> r.Ok?)
                     && (r.Ok? ==> f.request.value == r.value.0 && f.used == n + r.value.1))
  {
    if G.Decode(input).Ok? {
      GreetingFits(input);
    }
    hide G.Decode, R.Decode;
  }

  /**
  Whatever it is sent, the node's steps lead to a dial exactly when its session takes a request to
  connect; then they have said and consumed what the session does, and forward exactly when it is
  answered with success.
  */
  lemma NodeStepsAreSession(s: Net, target: NodeAgent.Target)
    requires s.nodeUp && s.node.AwaitHello? && s.toGateway == []
    ensures var v := Then(None, Then(None, Next(None, s, TakeHello), TakeAsk), Dial(target));
            var f := FrontEnd(None, s.toNode);
            && (v.Some? <==> f.request.Some? && f.request.value.command == R.Connect)
            && (v.Some? ==>
                  && f.used <= |s.toNode| && v.value.toNode == s.toNode[f.used..]
                  && v.value.toGateway == NodeAgent.Answer(None, s.toNode, target)
                  && (v.value.node.Forwarding? <==> NodeAgent.ReplyCode(f.request.value, target) == P.SUCCESS)
                  && (v.value.node.Forwarding? ==> v.value.node.dest == f.request.value.addr))
  {
    hide Next, G.Decode, R.Decode, FrontEnd, Gateway.ReplyBytes, NodeAgent.ReplyCode;
    NodeFrontEnd(s.toNode);
    HelloNextIs(s);
    var s1 := Next(None, s, TakeHello);
    if s1.Some? {
      AskNextIs(s1.value);
      var n := 2 + |G.Decode(s.toNode).value.methods|;
      var s2 := Next(None, s1.value, TakeAsk);
      if s2.Some? {
        DialNextIs(s2.value, target);
        var r := R.Decode(s1.value.toNode).value;
        assert s2.value.toNode == s.toNode[n + r.1..];
        assert r.0 == R.Request(R.Connect, r.0.addr);
        assert [] + AGREED == AGREED + [];
      }
    }
  }
}
