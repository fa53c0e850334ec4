/**
The first half of a SOCKS5 session, which gateway and node run alike on their incoming connection:
greeting, method selection, credentials if selected, and the request.
*/
module Handshaking {
  import opened Prelude
  import opened Wire
  import A = Address
  import G = Greetings
  import C = Credentials
  import R = Requests

  datatype SessionError = Transport | Protocol | NoNode | Relay

  /** As much of `data` as a peer with `room` bytes of patience takes. */
  function Cut(data: bytes, room: nat): bytes {
    if |data| <= room then data else data[..room]
  }

  lemma CutAppend(a: bytes, b: bytes, room: nat)
    ensures |a| <= room ==> Cut(a + b, room) == a + Cut(b, room - |a|)
    ensures |a| > room ==> Cut(a + b, room) == Cut(a, room)
    ensures |Cut(a, room)| == if |a| <= room then |a| else room
    ensures Cut(a, room) <= a && (|a| <= room ==> Cut(a, room) == a)
  {
  }

  /**
  One connection.  `input` is what the peer sends in time: a read that asks for more fails, be it by
  the end of the stream or by its deadline.  The peer takes `room` more bytes before writes fail.
  */
  class TcpStream {
    const input: bytes
    var pos: nat
    var written: bytes
    var room: nat

    ghost predicate Valid()
      reads this
    {
      pos <= |input|
    }

    ghost function Rest(): bytes
      requires Valid()
      reads this
    {
      input[pos..]
    }

    constructor (input: bytes, room: nat)
      ensures Valid() && Rest() == input && written == [] && this.room == room
    {
      this.input, pos, written, this.room := input, 0, [], room;
    }

    method ReadExact(n: nat) returns (r: Option<bytes>)
      requires Valid()
      modifies this`pos
      ensures Valid() && (r.Some? <==> n <= |old(Rest())|)
      ensures r.Some? ==> r.value == old(Rest())[..n] && pos == old(pos) + n && Rest() == old(Rest())[n..]
    {
      if pos + n <= |input| {
        r := Some(input[pos..pos + n]);
        pos := pos + n;
      } else {
        pos := |input|;
        r := None;
      }
    }

    method WriteAll(data: bytes) returns (ok: bool)
      modifies this`written, this`room
      ensures ok <==> |data| <= old(room)
      ensures written == old(written) + Cut(data, old(room))
      ensures room == old(room) - |Cut(data, old(room))|
    {
      ok := |data| <= room;
      var taken := Cut(data, room);
      written := written + taken;
      room := room - |taken|;
    }
  }

  // ----- the stream readers -----

  /** Succeeds exactly where the buffer parser does, and consumes exactly its frame. */
  method ReadGreeting(s: TcpStream) returns (g: Result<G.Greeting, SessionError>)
    requires s.Valid()
    modifies s`pos
    ensures s.Valid() && (g.Ok? <==> G.Decode(old(s.Rest())).Ok?)
    ensures g.Ok? ==> g.value == G.Decode(old(s.Rest())).value && s.pos == old(s.pos) + 2 + |g.value.methods|
  {
    var hdr := s.ReadExact(2);
    if hdr.None? { return Err(Transport); }
    var nmethods := hdr.value[1];
    if nmethods == 0 { return Err(Protocol); }
    var methods := s.ReadExact(nmethods);
    if methods.None? { return Err(Transport); }
    var buf := hdr.value + methods.value;
    assert buf == old(s.Rest())[..2 + nmethods as int];
    var parsed := G.Parse(buf);
    if parsed.Err? { return Err(Protocol); }
    assert buf[2..2 + nmethods as int] == old(s.Rest())[2..2 + nmethods as int];
    g := Ok(parsed.value);
  }

  /** A length byte of at least `least`, and as many bytes as it says. */
  method ReadField(s: TcpStream, least: nat) returns (f: Result<bytes, SessionError>)
    requires s.Valid()
    modifies s`pos
    ensures s.Valid()
    ensures var buf := old(s.Rest());
            f.Ok? <==> buf != [] && buf[0] as int >= least && |buf| >= 1 + buf[0] as int
    ensures f.Ok? ==> var n := old(s.Rest())[0] as int;
                      && f.value == old(s.Rest())[1..1 + n] && s.pos == old(s.pos) + 1 + n
                      && s.Rest() == old(s.Rest())[1 + n..]
  {
    var len := s.ReadExact(1);
    if len.None? { return Err(Transport); }
    if len.value[0] as int < least { return Err(Protocol); }
    var field := s.ReadExact(len.value[0]);
    if field.None? { return Err(Transport); }
    f := Ok(field.value);
  }

  /** The byte-by-byte credential reads against the buffer parser, in the same sense. */
  method ReadCredentials(s: TcpStream) returns (c: Result<C.UsernamePassword, SessionError>)
    requires s.Valid()
    modifies s`pos
    ensures s.Valid() && (c.Ok? <==> C.Decode(old(s.Rest())).Ok?)
    ensures c.Ok? ==> c.value == C.Decode(old(s.Rest())).value && s.pos == old(s.pos) + c.value.WireLen()
  {
    hide ValidUtf8;
    ghost var buf := s.Rest();
    var ver := s.ReadExact(1);
    if ver.None? { return Err(Transport); }
    if ver.value[0] != AUTH_VERSION { return Err(Protocol); }
    ghost var tail := buf[1..];
    assert s.Rest() == tail;
    var uname := ReadField(s, 1);
    if uname.Err? {
      assert |buf| < 2 || buf[1] == 0 || |buf| < 2 + buf[1] as int;
      return Err(uname.error);
    }
    ghost var p := 2 + buf[1] as int;
    assert uname.value == buf[2..p] && s.Rest() == buf[p..];
    var passwd := ReadField(s, 0);
    if passwd.Err? {
      assert |buf| < p + 1 || |buf| < p + 1 + buf[p] as int;
      return Err(passwd.error);
    }
    assert passwd.value == buf[p + 1..p + 1 + buf[p] as int];
    if !ValidUtf8(uname.value) { return Err(Protocol); }
    if !ValidUtf8(passwd.value) { return Err(Protocol); }
    c := Ok(C.UsernamePassword(uname.value, passwd.value));
  }

  /** The bytes of one request frame, as far as its header and length byte announce it. */
  method ReadFrame(s: TcpStream) returns (full: Result<bytes, SessionError>)
    requires s.Valid()
    modifies s`pos
    ensures s.Valid() && (full.Ok? <==> R.Announced(old(s.Rest())).Some?)
    ensures full.Ok? ==> && full.value == old(s.Rest())[..R.Announced(old(s.Rest())).value]
                         && s.pos == old(s.pos) + |full.value|
  {
    hide R.AddrLen;
    var hdr := s.ReadExact(4);
    if hdr.None? { return Err(Transport); }
    var atyp := hdr.value[3];
    if atyp == A.DOMAIN {
      var lenByte := s.ReadExact(1);
      if lenByte.None? { return Err(Transport); }
      var total := R.AddrLen(atyp, Some(lenByte.value[0]));
      if total.Err? { return Err(Protocol); }
      var addr := s.ReadExact(total.value - 1);
      if addr.None? { return Err(Transport); }
      full := Ok(hdr.value + lenByte.value + addr.value);
    } else {
      var total := R.AddrLen(atyp, None);
      if total.Err? { return Err(Protocol); }
      var addr := s.ReadExact(total.value);
      if addr.None? { return Err(Transport); }
      full := Ok(hdr.value + addr.value);
    }
  }

  /** The request reader against the buffer parser, in the same sense. */
  method ReadRequest(s: TcpStream) returns (r: Result<R.Request, SessionError>)
    requires s.Valid()
    modifies s`pos
    ensures s.Valid() && (r.Ok? <==> R.Decode(old(s.Rest())).Ok?)
    ensures r.Ok? ==> && r.value == R.Decode(old(s.Rest())).value.0
                      && s.pos == old(s.pos) + R.Decode(old(s.Rest())).value.1
  {
    hide R.Decode, R.Announced;
    R.AnnouncedIsEnough(s.Rest());
    var full := ReadFrame(s);
    if full.Err? { return Err(full.error); }
    var parsed := R.Parse(full.value);
    if parsed.Err? { return Err(Protocol); }
    r := Ok(parsed.value.0);
  }

  // ----- greeting, credentials and request together -----

  /** How far the first half gets on a given input: what is answered, what is asked, what is consumed. */
  datatype Front = Front(selection: Option<u8>, verdict: Option<u8>, request: Option<R.Request>, used: nat) {
    /** The bytes answered. */
    function Answer(): bytes {
      (if selection.Some? then G.Selection(selection.value) else [])
      + if verdict.Some? then C.Verdict(verdict.value) else []
    }
  }

  /** With credentials configured only username/password is allowed, otherwise only no authentication. */
  function MethodFor(auth: Option<C.UsernamePassword>, g: G.Greeting): u8 {
    G.Negotiate(g, auth.Some?, auth.None?)
  }

  /** Credentials, if the method asks for them, and the request. */
  function AfterSelection(auth: Option<C.UsernamePassword>, m: u8, input: bytes): Front {
    if m == G.NO_ACCEPTABLE then Front(None, None, None, 0)
    else if m == G.USER_PASS then
      var c := C.Decode(input);
      if c.Err? then Front(None, None, None, 0)
      else if auth != Some(c.value) then Front(None, Some(C.REJECTED), None, c.value.WireLen())
      else
        C.DecodeIsCanonical(input);
        Asked(input[c.value.WireLen()..], Some(C.ACCEPTED), c.value.WireLen())
    else Asked(input, None, 0)
  }

  function Asked(input: bytes, verdict: Option<u8>, used: nat): Front {
    var r := R.Decode(input);
    if r.Err? then Front(None, verdict, None, used) else Front(None, verdict, Some(r.value.0), used + r.value.1)
  }

  function FrontEnd(auth: Option<C.UsernamePassword>, input: bytes): Front {
    var g := G.Decode(input);
    if g.Err? then Front(None, None, None, 0)
    else
      var n, m := 2 + |g.value.methods|, MethodFor(auth, g.value);
      var rest := AfterSelection(auth, m, input[n..]);
      rest.(selection := Some(m), used := n + rest.used)
  }

  method CheckCredentials(s: TcpStream, auth: Option<C.UsernamePassword>) returns (r: Result<(), SessionError>)
    requires s.Valid()
    modifies s
    ensures s.Valid()
    ensures var c := C.Decode(old(s.Rest()));
            var verdict := if c.Err? then [] else C.Verdict(if auth == Some(c.value) then C.ACCEPTED else C.REJECTED);
            && s.written == old(s.written) + Cut(verdict, old(s.room))
            && s.room == old(s.room) - |Cut(verdict, old(s.room))|
            && (r.Ok? <==> c.Ok? && auth == Some(c.value) && |verdict| <= old(s.room))
            && (c.Ok? ==> s.pos == old(s.pos) + c.value.WireLen())
  {
    var c := ReadCredentials(s);
    if c.Err? { return Err(c.error); }
    var ok := auth == Some(c.value);
    var sent := s.WriteAll(C.Verdict(if ok then C.ACCEPTED else C.REJECTED));
    if !sent { return Err(Transport); }
    r := if ok then Ok(()) else Err(Protocol);
  }

  method RunAfterSelection(s: TcpStream, auth: Option<C.UsernamePassword>, m: u8)
    returns (r: Result<R.Request, SessionError>)
    requires s.Valid()
    modifies s
    ensures s.Valid()
    ensures var f := AfterSelection(auth, m, old(s.Rest()));
            && s.written == old(s.written) + Cut(f.Answer(), old(s.room))
            && s.room == old(s.room) - |Cut(f.Answer(), old(s.room))|
            && (r.Ok? <==> f.request.Some? && |f.Answer()| <= old(s.room))
            && (r.Ok? ==> r.value == f.request.value && s.pos == old(s.pos) + f.used)
  {
    hide C.Decode, R.Decode, ValidUtf8;
    ghost var input := s.Rest();
    if m == G.NO_ACCEPTABLE { return Err(Protocol); }
    if m == G.USER_PASS {
      var ok := CheckCredentials(s, auth);
      if ok.Err? { return Err(ok.error); }
      assert s.Rest() == input[C.Decode(input).value.WireLen()..];
    }
    r := ReadRequest(s);
  }

  /** The first half on a stream: its request, its answers so far as the peer takes them, its progress. */
  method RunFrontEnd(s: TcpStream, auth: Option<C.UsernamePassword>) returns (r: Result<R.Request, SessionError>)
    requires s.Valid()
    modifies s
    ensures s.Valid()
    ensures var f := FrontEnd(auth, old(s.Rest()));
            && s.written == old(s.written) + Cut(f.Answer(), old(s.room))
            && s.room == old(s.room) - |Cut(f.Answer(), old(s.room))|
            && (r.Ok? <==> f.request.Some? && |f.Answer()| <= old(s.room))
            && (r.Ok? ==> r.value == f.request.value && s.pos == old(s.pos) + f.used)
  {
    hide G.Decode, AfterSelection, MethodFor;
    ghost var input := s.Rest();
    var g := ReadGreeting(s);
    if g.Err? { return Err(g.error); }
    assert s.Rest() == input[2 + |g.value.methods|..];
    var m := MethodFor(auth, g.value);
    ghost var after := AfterSelection(auth, m, s.Rest());
    NoSelectionAfter(auth, m, s.Rest());
    CutAppend(G.Selection(m), after.Answer(), s.room);
    var sent := s.WriteAll(G.Selection(m));
    if !sent { return Err(Transport); }
    r := RunAfterSelection(s, auth, m);
  }

  lemma NoSelectionAfter(auth: Option<C.UsernamePassword>, m: u8, input: bytes)
    ensures AfterSelection(auth, m, input).selection.None?
  {
  }

  /**
  What every client is answered, byte by byte, and whether a request is looked for: a method is wanted
  by the configuration alone, credentials are told apart only after it is offered.
  */
  lemma AnswersInBytes(auth: Option<C.UsernamePassword>, input: bytes)
    ensures var f, g := FrontEnd(auth, input), G.Decode(input);
            if g.Err? then f.Answer() == [] && f.request.None?
            else
              var rest := input[2 + |g.value.methods|..];
              if auth.None? then
                if 0 !in g.value.methods then f.Answer() == [5, 0xFF] && f.request.None?
                else f.Answer() == [5, 0] && (f.request.Some? <==> R.Decode(rest).Ok?)
              else if 2 !in g.value.methods then f.Answer() == [5, 0xFF] && f.request.None?
              else
                var c := C.Decode(rest);
                if c.Err? then f.Answer() == [5, 2] && f.request.None?
                else if c.value != auth.value then
                  && f.Answer() == [5, 2, 1, 1] && f.request.None?
                  && f.used == 2 + |g.value.methods| + c.value.WireLen()
                else
                  && f.Answer() == [5, 2, 1, 0] && c.value.WireLen() <= |rest|
                  && (f.request.Some? <==> R.Decode(rest[c.value.WireLen()..]).Ok?)
  {
    hide G.Decode, C.Decode, R.Decode, ValidUtf8;
    if G.Decode(input).Ok? {
      G.DecodeIsCanonical(input);
      var rest := input[2 + |G.Decode(input).value.methods|..];
      if C.Decode(rest).Ok? {
        C.DecodeIsCanonical(rest);
      }
    }
  }

  // ----- exactly which clients get to ask -----

  /** What a client says to ask for `req`, with the credentials the server is configured with. */
  function Speech(auth: Option<C.UsernamePassword>, g: G.Greeting, req: R.Request, rsv: u8): bytes
    requires |g.methods| <= 255
  {
    G.Encode(g) + Proof(auth) + R.Frame(req, rsv)
  }

  function Proof(auth: Option<C.UsernamePassword>): bytes {
    if auth.Some? then C.Encode(auth.value) else []
  }

  /** The greeting offers what the server wants, and everything fits its length byte. */
  predicate Acceptable(auth: Option<C.UsernamePassword>, g: G.Greeting, req: R.Request) {
    && 1 <= |g.methods| <= 255
    && (if auth.Some? then 2 in g.methods && C.Encodable(auth.value) else 0 in g.methods)
    && A.Encodable(req.addr, false)
  }

  /** Everyone who speaks so is understood, whatever follows, and their speech is consumed to the byte. */
  lemma SpeechIsUnderstood(auth: Option<C.UsernamePassword>, g: G.Greeting, req: R.Request, rsv: u8, payload: bytes)
    requires Acceptable(auth, g, req)
    ensures FrontEnd(auth, Speech(auth, g, req, rsv) + payload)
            == Front(Some(if auth.Some? then G.USER_PASS else G.NO_AUTH),
                     if auth.Some? then Some(C.ACCEPTED) else None,
                     Some(req), |Speech(auth, g, req, rsv)|)
  {
    hide G.Decode, G.Encode, C.Decode, R.Decode, R.Frame, C.Encode, A.Encodable, C.Encodable, ValidUtf8;
    var frame := R.Frame(req, rsv);
    var input := Speech(auth, g, req, rsv) + payload;
    GreetingOf(g, Proof(auth) + frame + payload);
    assert input == G.Encode(g) + (Proof(auth) + frame + payload);
    assert input[2 + |g.methods|..] == Proof(auth) + frame + payload;
    R.RoundTripIff(req, rsv, payload);
    if auth.Some? {
      var rest := C.Encode(auth.value) + (frame + payload);
      assert Proof(auth) + frame + payload == rest;
      C.RoundTripIff(auth.value, frame + payload);
      CredentialsLength(auth.value);
      assert rest[auth.value.WireLen()..] == frame + payload;
    } else {
      assert Proof(auth) + frame + payload == frame + payload;
    }
  }

  lemma GreetingOf(g: G.Greeting, tail: bytes)
    requires 1 <= |g.methods| <= 255
    ensures G.Decode(G.Encode(g) + tail) == Ok(g) && |G.Encode(g)| == 2 + |g.methods|
  {
    G.RoundTripIff(g, tail);
  }

  lemma CredentialsLength(c: C.UsernamePassword)
    ensures |C.Encode(c)| == c.WireLen()
  {
  }

  /** And nobody else gets to ask: a request is only ever taken from such a speech. */
  lemma OnlySpeechIsUnderstood(auth: Option<C.UsernamePassword>, input: bytes) returns (g: G.Greeting, rsv: u8)
    requires FrontEnd(auth, input).request.Some?
    ensures var f := FrontEnd(auth, input);
            && Acceptable(auth, g, f.request.value)
            && f.used <= |input| && input[..f.used] == Speech(auth, g, f.request.value, rsv)
  {
    hide G.Decode, G.Encode, C.Decode, R.Decode, R.Frame, C.Encode, A.Encodable, C.Encodable, ValidUtf8;
    var f := FrontEnd(auth, input);
    g := G.Decode(input).value;
    G.DecodeIsCanonical(input);
    GreetingOf(g, []);
    var n := 2 + |g.methods|;
    var p := n + |Proof(auth)|;
    if auth.Some? {
      C.DecodeIsCanonical(input[n..]);
      CredentialsLength(auth.value);
      assert input[n..p] == Proof(auth);
      assert input[n..][auth.value.WireLen()..] == input[p..];
    }
    R.DecodeIsCanonical(input[p..]);
    rsv := input[p + 2];
    assert f.used == p + R.Decode(input[p..]).value.1;
    ThreeParts(input, n, p, f.used);
  }

  lemma ThreeParts(s: bytes, a: nat, b: nat, c: nat)
    requires a <= b <= c <= |s|
    ensures s[..c] == s[..a] + s[a..b] + s[b..][..c - b]
  {
  }
}
