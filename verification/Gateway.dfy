/** A gateway session: the client's request, the chained handshake with a node, and the reply. */
module Gateway {
  import opened Prelude
  import opened Wire
  import opened Handshaking
  import A = Address
  import G = Greetings
  import C = Credentials
  import R = Requests
  import P = Replies

  /** A greeting that offers no authentication only. */
  const HELLO: bytes := [VERSION, 1, 0]

  // ----- the node's reply -----

  /** Bytes the gateway reads after the header of a reply; for a name it counts the length byte twice. */
  function ReplyTail(buf: bytes): Option<nat>
    requires |buf| >= 4
  {
    if buf[3] == A.IPV4 then Some(4 + 2)
    else if buf[3] == A.IPV6 then Some(16 + 2)
    else if buf[3] == A.DOMAIN then
      if |buf| < 5 then None else Some(1 + (1 + buf[4] as int + 2))
    else None
  }

  /** The reply code and the bytes consumed, once they are all there. */
  function TakeReply(buf: bytes): Option<(u8, nat)> {
    if |buf| < 4 || buf[0] != VERSION then None
    else
      var n := ReplyTail(buf);
      if n.None? || |buf| < 4 + n.value then None else Some((buf[1], 4 + n.value))
  }

  /**
  Of a well-formed reply the gateway takes the code, and it stops at the end of the frame exactly
  when the bound address is not a name; of a name it swallows one byte more.
  */
  lemma ReplyIsTakenExactlyIff(r: P.Reply, rsv: u8, tail: bytes)
    requires A.Encodable(r.bindAddr, true)
    ensures var buf := P.Frame(r, rsv) + tail;
            && (TakeReply(buf) == Some((r.code, |P.Frame(r, rsv)|)) <==> !r.bindAddr.host.Domain?)
            && (r.bindAddr.host.Domain? ==>
                  TakeReply(buf) == if tail == [] then None else Some((r.code, |P.Frame(r, rsv)| + 1)))
  {
    hide ValidUtf8;
    var buf := P.Frame(r, rsv) + tail;
    assert buf[3] == r.bindAddr.Atyp();
  }

  // ----- chaining -----

  /** What is said to the node, how much of its answer is consumed, and whether it agreed. */
  datatype Chained = Chained(sent: bytes, used: nat, ok: bool)

  function Ask(dest: A.SocksAddr): bytes {
    R.Frame(R.Request(R.Connect, dest), 0x00)
  }

  method AskBytes(dest: A.SocksAddr) returns (v: bytes)
    ensures v == Ask(dest)
  {
    v := R.ToBytes(R.Request(R.Connect, dest));
  }

  function ChainOn(dest: A.SocksAddr, answer: bytes): Chained {
    if |answer| < 2 || answer[0] != VERSION || answer[1] != G.NO_AUTH then Chained(HELLO, 0, false)
    else
      var r := TakeReply(answer[2..]);
      if r.None? then Chained(HELLO + Ask(dest), 0, false)
      else Chained(HELLO + Ask(dest), 2 + r.value.1, r.value.0 == P.SUCCESS)
  }

  method ReadReply(node: TcpStream) returns (r: Result<u8, SessionError>)
    requires node.Valid()
    modifies node`pos
    ensures node.Valid() && (r.Ok? <==> TakeReply(old(node.Rest())).Some?)
    ensures r.Ok? ==> (r.value, node.pos - old(node.pos)) == TakeReply(old(node.Rest())).value
    ensures r.Err? ==> r.error == Transport || r.error == Protocol
  {
    var hdr := node.ReadExact(4);
    if hdr.None? { return Err(Transport); }
    if hdr.value[0] != VERSION { return Err(Protocol); }
    var len: nat;
    if hdr.value[3] == A.IPV4 {
      len := 4 + 2;
    } else if hdr.value[3] == A.IPV6 {
      len := 16 + 2;
    } else if hdr.value[3] == A.DOMAIN {
      var dlen := node.ReadExact(1);
      if dlen.None? { return Err(Transport); }
      len := 1 + dlen.value[0] as int + 2;
    } else {
      return Err(Protocol);
    }
    var addr := node.ReadExact(len);
    if addr.None? { return Err(Transport); }
    r := Ok(hdr.value[1]);
  }

  method Chain(node: TcpStream, dest: A.SocksAddr) returns (r: Result<(), SessionError>)
    requires node.Valid()
    modifies node
    ensures node.Valid()
    ensures var answer := old(node.Rest());
            var c := ChainOn(dest, answer);
            && node.written == old(node.written) + Cut(c.sent, old(node.room))
            && (r.Ok? <==> c.ok && |c.sent| <= old(node.room))
            && (r.Ok? ==> node.pos == old(node.pos) + c.used)
            && (r == Err(Relay) <==> && [5, 0] <= answer && |c.sent| <= old(node.room)
                                     && TakeReply(answer[2..]).Some? && TakeReply(answer[2..]).value.0 != 0)
            && r != Err(NoNode)
  {
    hide R.Frame, Ask, TakeReply, Cut;
    ghost var answer := node.Rest();
    CutAppend(HELLO, Ask(dest), node.room);
    var sent := node.WriteAll(HELLO);
    if !sent { return Err(Transport); }
    CutAppend(Ask(dest), [], node.room);
    var sel := node.ReadExact(2);
    if sel.None? { return Err(Transport); }
    if sel.value[0] != VERSION { return Err(Protocol); }
    if sel.value[1] != G.NO_AUTH { return Err(Protocol); }
    var request := AskBytes(dest);
    sent := node.WriteAll(request);
    if !sent { return Err(Transport); }
    assert node.Rest() == answer[2..];
    var rep := ReadReply(node);
    if rep.Err? { return Err(rep.error); }
    r := if rep.value == P.SUCCESS then Ok(()) else Err(Relay);
  }

  // ----- the whole session -----

  function ReplyBytes(code: u8): bytes {
    P.Frame(P.Simple(code), 0x00)
  }

  /** What comes of a request: a reply to the client, and a conversation with a node. */
  datatype Outcome = Outcome(reply: Option<u8>, chain: Option<Chained>) {
    function Answer(): bytes {
      if reply.Some? then ReplyBytes(reply.value) else []
    }
  }

  /** `picked` tells whether the control plane named a node, `answer` what that node says if it can be reached. */
  function Serve(request: R.Request, picked: bool, answer: Option<bytes>): Outcome {
    if request.command != R.Connect then Outcome(Some(P.COMMAND_NOT_SUPPORTED), None)
    else if !picked then Outcome(Some(P.HOST_UNREACHABLE), None)
    else if answer.None? then Outcome(None, None)
    else
      var c := ChainOn(request.addr, answer.value);
      Outcome(if c.ok then Some(P.SUCCESS) else None, Some(c))
  }

  /** A session that no write failure cuts short. */
  datatype Log = Log(front: Front, outcome: Outcome) {
    function Answer(): bytes {
      front.Answer() + outcome.Answer()
    }
  }

  function Session(auth: Option<C.UsernamePassword>, input: bytes, picked: bool, answer: Option<bytes>): Log {
    var f := FrontEnd(auth, input);
    Log(f, if f.request.None? then Outcome(None, None) else Serve(f.request.value, picked, answer))
  }

  method RunServe(client: TcpStream, request: R.Request, picked: bool, node: Option<TcpStream>)
    returns (r: Result<(), SessionError>)
    requires client.Valid() && (node.Some? ==> node.value.Valid() && node.value != client)
    modifies client`written, client`room, if node.Some? then {node.value} else {}
    ensures client.Valid() && (node.Some? ==> node.value.Valid())
    ensures var o := Serve(request, picked, if node.Some? then Some(old(node.value.Rest())) else None);
            && (o.chain.Some? ==> node.Some?)
            && client.written == old(client.written)
                 + (if o.chain.Some? && |o.chain.value.sent| > old(node.value.room) then []
                    else Cut(o.Answer(), old(client.room)))
            && (node.Some? ==>
                  node.value.written == old(node.value.written)
                    + if o.chain.Some? then Cut(o.chain.value.sent, old(node.value.room)) else [])
            && (r == Err(NoNode) <==> request.command == R.Connect && !picked)
            && (r.Ok? <==> && o.reply == Some(P.SUCCESS) && |o.Answer()| <= old(client.room)
                           && |o.chain.value.sent| <= old(node.value.room))
            && (r.Ok? ==> node.value.pos == old(node.value.pos) + o.chain.value.used)
  {
    hide ChainOn, ReplyBytes, Cut;
    ghost var o := Serve(request, picked, if node.Some? then Some(node.value.Rest()) else None);
    CutAppend(o.Answer(), [], client.room);
    if request.command != R.Connect {
      TryReply(client, P.COMMAND_NOT_SUPPORTED);
      return Err(Protocol);
    }
    if !picked {
      TryReply(client, P.HOST_UNREACHABLE);
      return Err(NoNode);
    }
    if node.None? { return Err(Transport); }
    CutAppend(o.chain.value.sent, [], node.value.room);
    var chained := Chain(node.value, request.addr);
    if chained.Err? { return Err(chained.error); }
    var sent := client.WriteAll(ReplyBytes(P.SUCCESS));
    r := if sent then Ok(()) else Err(Transport);
  }

  /**
  The session on real streams.  The relay starts exactly when the session is answered with success
  and both peers take all that is written; then both streams stand where the session leaves them.
  In every case the client gets what the session has to say to it as far as it takes it, and of the
  reply nothing if the node did not take all that is said to it; the node gets its part as far as it
  takes it, and nothing if the client did not take its answers.
  */
  method Run(client: TcpStream, auth: Option<C.UsernamePassword>, picked: bool, node: Option<TcpStream>)
    returns (r: Result<(), SessionError>)
    requires client.Valid() && (node.Some? ==> node.value.Valid() && node.value != client)
    modifies client, if node.Some? then {node.value} else {}
    ensures client.Valid() && (node.Some? ==> node.value.Valid())
    ensures var answer := if node.Some? then Some(old(node.value.Rest())) else None;
            var log := Session(auth, old(client.Rest()), picked, answer);
            var chain := log.outcome.chain;
            && (chain.Some? ==> node.Some?)
            && client.written == old(client.written)
                 + Cut(if chain.Some? && |chain.value.sent| > old(node.value.room) then log.front.Answer()
                       else log.Answer(), old(client.room))
            && (node.Some? ==>
                  node.value.written == old(node.value.written)
                    + if chain.Some? && |log.front.Answer()| <= old(client.room)
                      then Cut(chain.value.sent, old(node.value.room)) else [])
            && (r.Ok? <==> && log.outcome.reply == Some(P.SUCCESS) && |log.Answer()| <= old(client.room)
                           && |log.outcome.chain.value.sent| <= old(node.value.room))
            && (r.Ok? ==> && client.pos == old(client.pos) + log.front.used
                          && node.value.pos == old(node.value.pos) + log.outcome.chain.value.used)
  {
    hide FrontEnd, Serve, Cut, Front.Answer, Outcome.Answer;
    ghost var answer := if node.Some? then Some(node.value.Rest()) else None;
    ghost var log := Session(auth, client.Rest(), picked, answer);
    CutAppend(log.front.Answer(), log.outcome.Answer(), client.room);
    ServeSucceedsChained(log.front, picked, answer);
    assert log.front.Answer() + [] == log.front.Answer();
    var request := RunFrontEnd(client, auth);
    if request.Err? { return Err(request.error); }
    r := RunServe(client, request.value, picked, node);
  }

  lemma ServeSucceedsChained(f: Front, picked: bool, answer: Option<bytes>)
    ensures f.request.Some? ==>
              var o := Serve(f.request.value, picked, answer);
              && (o.chain.Some? ==> answer.Some?)
              && (o.reply == Some(P.SUCCESS) ==> o.chain.Some?)
    ensures Outcome(None, None).Answer() == []
  {
  }

  /** A reply on the way out, its failure ignored. */
  method TryReply(client: TcpStream, code: u8)
    modifies client`written, client`room
    ensures client.written == old(client.written) + Cut(ReplyBytes(code), old(client.room))
  {
    var ok := client.WriteAll(ReplyBytes(code));
  }

  /** A node that accepts no authentication and then answers with success and a whole bound address. */
  predicate Agrees(answer: bytes) {
    && |answer| >= 7 && answer[..4] == [5, 0, 5, 0]
    && if answer[5] == 1 then |answer| >= 12
       else if answer[5] == 4 then |answer| >= 24
       else answer[5] == 3 && |answer| >= 10 + answer[6] as int
  }

  lemma ReplyInBytes(code: u8)
    ensures ReplyBytes(code) == [5, code, 0, 1, 0, 0, 0, 0, 0, 0]
  {
    P.FrameForm(P.Simple(code), 0);
  }

  lemma ChainInBytes(dest: A.SocksAddr, answer: bytes)
    ensures var c := ChainOn(dest, answer);
            && (c.ok <==> Agrees(answer))
            && c.sent == [5, 1, 0] + if [5, 0] <= answer then R.Frame(R.Request(R.Connect, dest), 0) else []
  {
    hide R.Frame;
    if |answer| >= 2 {
      var buf := answer[2..];
      assert forall i :: 0 <= i < |buf| ==> buf[i] == answer[2 + i];
    }
  }

  /**
  Everything a client is told, byte by byte: whoever speaks acceptably is told that a command other
  than CONNECT is not supported, that the host is unreachable if no node is named, success if the node
  agrees, and otherwise nothing.
  */
  lemma AnswersInBytes(
    auth: Option<C.UsernamePassword>, g: G.Greeting, req: R.Request, rsv: u8, payload: bytes, picked: bool,
    answer: Option<bytes>)
    requires Acceptable(auth, g, req)
    ensures var log := Session(auth, Speech(auth, g, req, rsv) + payload, picked, answer);
            && log.Answer() == (if auth.Some? then [5, 2, 1, 0] else [5, 0])
                 + (if req.command != R.Connect then [5, 7, 0, 1, 0, 0, 0, 0, 0, 0]
                    else if !picked then [5, 4, 0, 1, 0, 0, 0, 0, 0, 0]
                    else if answer.Some? && Agrees(answer.value) then [5, 0, 0, 1, 0, 0, 0, 0, 0, 0]
                    else [])
            && (log.outcome.chain.Some? <==> req.command == R.Connect && picked && answer.Some?)
            && (log.outcome.chain.Some? ==>
                  log.outcome.chain.value.sent == [5, 1, 0]
                    + if [5, 0] <= answer.value then R.Frame(R.Request(R.Connect, req.addr), 0) else [])
  {
    hide FrontEnd, Speech, Acceptable, R.Frame, ReplyBytes, ChainOn, Agrees;
    SpeechIsUnderstood(auth, g, req, rsv, payload);
    ReplyInBytes(0);
    ReplyInBytes(4);
    ReplyInBytes(7);
    if answer.Some? {
      ChainInBytes(req.addr, answer.value);
    }
  }

  // ----- when a client is told that it is connected -----

  /**
  Success is only ever answered to a client that offered the configured method, proved itself if that
  is asked for, and asked to connect; after a node was named, was asked for that same address without
  authentication, and itself answered with success.
  */
  lemma SuccessOnlyAfter(auth: Option<C.UsernamePassword>, input: bytes, picked: bool, answer: Option<bytes>)
    returns (g: G.Greeting, rsv: u8)
    requires Session(auth, input, picked, answer).outcome.reply == Some(P.SUCCESS)
    ensures var log := Session(auth, input, picked, answer);
            && log.front.request.Some? && log.front.selection.Some? && log.front.used <= |input|
            && var req := log.front.request.value;
               && req.command == R.Connect && Acceptable(auth, g, req)
               && input[..log.front.used] == Speech(auth, g, req, rsv)
               && log.front.selection.value in g.methods && log.front.selection.value != G.NO_ACCEPTABLE
               && picked && answer.Some? && G.Selection(G.NO_AUTH) <= answer.value
               && log.outcome.chain == Some(Chained(HELLO + Ask(req.addr), log.outcome.chain.value.used, true))
               && TakeReply(answer.value[2..]) == Some((P.SUCCESS, log.outcome.chain.value.used - 2))
  {
    hide R.Frame, TakeReply, Speech;
    var f := FrontEnd(auth, input);
    g, rsv := OnlySpeechIsUnderstood(auth, input);
    SelectionWasOffered(auth, input, g, rsv);
    var r := TakeReply(answer.value[2..]).value;
    assert r == (r.0, r.1);
  }

  lemma SelectionWasOffered(auth: Option<C.UsernamePassword>, input: bytes, g: G.Greeting, rsv: u8)
    requires FrontEnd(auth, input).request.Some?
    requires Acceptable(auth, g, FrontEnd(auth, input).request.value) && FrontEnd(auth, input).used <= |input|
    requires input[..FrontEnd(auth, input).used] == Speech(auth, g, FrontEnd(auth, input).request.value, rsv)
    ensures FrontEnd(auth, input).selection == Some(if auth.Some? then G.USER_PASS else G.NO_AUTH)
  {
    hide Speech, FrontEnd, A.Encodable, C.Encodable;
    var f := FrontEnd(auth, input);
    assert input == Speech(auth, g, f.request.value, rsv) + input[f.used..];
    SpeechIsUnderstood(auth, g, f.request.value, rsv, input[f.used..]);
  }

  /**
  And it always is: a client that speaks so is told success whenever the node agrees, and both
  incoming streams are left at the first byte after the handshake.
  */
  lemma SuccessAlwaysAfter(
    auth: Option<C.UsernamePassword>, g: G.Greeting, req: R.Request, rsv: u8, payload: bytes,
    reply: P.Reply, rsv': u8, down: bytes)
    requires Acceptable(auth, g, req) && req.command == R.Connect
    requires reply.code == P.SUCCESS && A.Encodable(reply.bindAddr, true) && !reply.bindAddr.host.Domain?
    ensures var handshake := G.Selection(G.NO_AUTH) + P.Frame(reply, rsv');
            var log := Session(auth, Speech(auth, g, req, rsv) + payload, true, Some(handshake + down));
            && log.outcome.reply == Some(P.SUCCESS)
            && log.front.used == |Speech(auth, g, req, rsv)|
            && log.outcome.chain == Some(Chained(HELLO + Ask(req.addr), |handshake|, true))
  {
    hide FrontEnd, Speech, Acceptable, P.Frame, TakeReply, R.Frame, A.Encodable;
    SpeechIsUnderstood(auth, g, req, rsv, payload);
    ReplyIsTakenExactlyIff(reply, rsv', down);
    var answer := G.Selection(G.NO_AUTH) + P.Frame(reply, rsv') + down;
    assert answer[2..] == P.Frame(reply, rsv') + down;
  }
}
