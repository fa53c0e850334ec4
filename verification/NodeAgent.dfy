/** A node session: the request chained by a gateway, the connection to the target, and the reply. */
module NodeAgent {
  import opened Prelude
  import opened Wire
  import opened Handshaking
  import A = Address
  import G = Greetings
  import C = Credentials
  import R = Requests
  import P = Replies
  import Gateway

  /** How the attempt to reach the target ends. */
  datatype Target = Connected | Refused | Unreachable | TimedOut

  function ReplyCode(request: R.Request, target: Target): u8 {
    if request.command != R.Connect then P.COMMAND_NOT_SUPPORTED
    else
      match target
      case Connected => P.SUCCESS
      case Refused => P.CONNECTION_REFUSED
      case Unreachable => P.NETWORK_UNREACHABLE
      case TimedOut => P.TTL_EXPIRED
  }

  /** All a node says on the incoming connection before it relays; every request is answered. */
  function Answer(auth: Option<C.UsernamePassword>, input: bytes, target: Target): bytes {
    var f := FrontEnd(auth, input);
    f.Answer() + Reported(f, target)
  }

  function Reported(f: Front, target: Target): bytes {
    if f.request.None? then [] else Gateway.ReplyBytes(ReplyCode(f.request.value, target))
  }

  /** The session on a real stream; the relay starts exactly when success was answered in full. */
  method Run(gw: TcpStream, auth: Option<C.UsernamePassword>, target: Target)
    returns (r: Result<A.SocksAddr, SessionError>)
    requires gw.Valid()
    modifies gw
    ensures gw.Valid()
    ensures var f := FrontEnd(auth, old(gw.Rest()));
            var answer := Answer(auth, old(gw.Rest()), target);
            && gw.written == old(gw.written) + Cut(answer, old(gw.room))
            && (r.Ok? <==> && f.request.Some? && ReplyCode(f.request.value, target) == P.SUCCESS
                           && |answer| <= old(gw.room))
            && (r.Ok? ==> r.value == f.request.value.addr && gw.pos == old(gw.pos) + f.used)
  {
    hide FrontEnd, Cut, Front.Answer, Gateway.ReplyBytes;
    ghost var f := FrontEnd(auth, gw.Rest());
    CutAppend(f.Answer(), Reported(f, target), gw.room);
    assert f.Answer() + [] == f.Answer();
    var request := RunFrontEnd(gw, auth);
    if request.Err? { return Err(request.error); }
    var code := ReplyCode(request.value, target);
    if code != P.SUCCESS {
      Gateway.TryReply(gw, code);
      return Err(if request.value.command != R.Connect then Protocol else Transport);
    }
    var sent := gw.WriteAll(Gateway.ReplyBytes(code));
    r := if sent then Ok(request.value.addr) else Err(Transport);
  }

  /** Everything a node tells whoever speaks acceptably, byte by byte. */
  lemma AnswersInBytes(
    auth: Option<C.UsernamePassword>, g: G.Greeting, req: R.Request, rsv: u8, payload: bytes, target: Target)
    requires Acceptable(auth, g, req)
    ensures var code := if req.command != R.Connect then 7
                        else match target
                             case Connected => 0
                             case Refused => 5
                             case Unreachable => 3
                             case TimedOut => 6;
            Answer(auth, Speech(auth, g, req, rsv) + payload, target)
            == (if auth.Some? then [5, 2, 1, 0] else [5, 0]) + [5, code, 0, 1, 0, 0, 0, 0, 0, 0]
  {
    hide FrontEnd, Speech, Acceptable, Gateway.ReplyBytes;
    SpeechIsUnderstood(auth, g, req, rsv, payload);
    Gateway.ReplyInBytes(ReplyCode(req, target));
  }

  /** What a gateway says to a node is a speech the node understands, and asks for the same address. */
  lemma UnderstandsGateway(dest: A.SocksAddr, payload: bytes, target: Target)
    requires A.Encodable(dest, false)
    ensures var said := Gateway.HELLO + Gateway.Ask(dest);
            && FrontEnd(None, said + payload) == Front(Some(G.NO_AUTH), None, Some(R.Request(R.Connect, dest)), |said|)
            && Answer(None, said + payload, target)
               == G.Selection(G.NO_AUTH) + Gateway.ReplyBytes(ReplyCode(R.Request(R.Connect, dest), target))
  {
    hide FrontEnd, R.Frame, A.Encodable, Gateway.ReplyBytes;
    var g, req := G.Greeting([G.NO_AUTH]), R.Request(R.Connect, dest);
    assert Speech(None, g, req, 0x00) == Gateway.HELLO + Gateway.Ask(dest);
    SpeechIsUnderstood(None, g, req, 0x00, payload);
  }
}
