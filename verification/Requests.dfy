/** SOCKS5 requests: section 4 of RFC 1928. */
module Requests {
  import opened Prelude
  import opened Wire
  import A = Address

  datatype Command = Connect | Bind | UdpAssociate

  function CommandByte(c: Command): u8 {
    match c
    case Connect => 0x01
    case Bind => 0x02
    case UdpAssociate => 0x03
  }

  function CommandOf(v: u8): Parsed<Command> {
    if v == 0x01 then Ok(Connect)
    else if v == 0x02 then Ok(Bind)
    else if v == 0x03 then Ok(UdpAssociate)
    else Err(Unsupported(v))
  }

  datatype Request = Request(command: Command, addr: A.SocksAddr)

  /** A request on the wire with the given reserved byte. */
  function Frame(r: Request, rsv: u8): bytes {
    [VERSION, CommandByte(r.command), rsv, r.addr.Atyp()] + A.Encode(r.addr)
  }

  /** The request at the start of `buf` and the bytes it takes; the reserved byte may be anything. */
  function Decode(buf: bytes): Parsed<(Request, nat)> {
    if |buf| < 1 then Err(Truncated)
    else if buf[0] != VERSION then Err(BadVersion(buf[0]))
    else if |buf| < 2 then Err(Truncated)
    else if CommandOf(buf[1]).Err? then Err(CommandOf(buf[1]).error)
    else if |buf| < 4 then Err(Truncated)
    else
      var a := A.Decode(buf[3], buf[4..], false);
      if a.Err? then Err(a.error)
      else Ok((Request(CommandOf(buf[1]).value, a.value.0), 4 + a.value.1))
  }

  /** Bytes that follow the header, given its ATYP and, for a name, the length byte. */
  function AddrLen(atyp: u8, domainLen: Option<u8>): (n: Parsed<nat>)
    ensures n.Ok? ==> n.value >= 2 + (if atyp == A.DOMAIN then 1 else 0)
    ensures n.Err? <==> atyp !in {1, 3, 4} || (atyp == 3 && (domainLen.None? || domainLen.value == 0))
    ensures n.Err? ==> n.error == Unsupported(atyp)
  {
    if atyp == A.IPV4 then Ok(4 + 2)
    else if atyp == A.IPV6 then Ok(16 + 2)
    else if atyp == A.DOMAIN then
      var len := if domainLen.Some? then domainLen.value else 0;
      if len == 0 then Err(Unsupported(A.DOMAIN)) else Ok(1 + len as int + 2)
    else Err(Unsupported(atyp))
  }

  /** The frame byte by byte. */
  lemma FrameForm(r: Request, rsv: u8)
    ensures var command := match r.command case Connect => 1 case Bind => 2 case UdpAssociate => 3;
            var port := [r.addr.port / 256, r.addr.port % 256];
            Frame(r, rsv) == match r.addr.host
                             case V4(o) => [5, command, rsv, 1] + o + port
                             case V6(o) => [5, command, rsv, 4] + o + port
                             case Domain(name) => [5, command, rsv, 3, |name| % 256] + name + port
  {
    A.WireForm(r.addr);
  }

  /**
  When a request is refused and with what; every refusal but `Truncated`, and every acceptance, stands
  whatever follows; and 262 bytes are always enough to tell.
  */
  lemma RefusedIff(buf: bytes, tail: bytes)
    ensures var d := Decode(buf);
            && (forall v :: d == Err(BadVersion(v)) <==> buf != [] && buf[0] == v && v != 5)
            && (forall code :: d == Err(Unsupported(code)) <==>
                  && |buf| >= 2 && buf[0] == 5
                  && if 1 <= buf[1] <= 3 then |buf| >= 4 && A.Unfit(buf[3], buf[4..], false, code) else code == buf[1])
            && d != Err(InvalidCredentialLength)
            && (d == Err(Truncated) ==> |buf| < 262)
            && (d != Err(Truncated) ==> Decode(buf + tail) == d)
  {
    hide A.Decode, A.Unfit;
    if |buf| >= 4 {
      A.RefusedIffUnfit(buf[3], buf[4..], tail, false);
      assert (buf + tail)[4..] == buf[4..] + tail;
    }
  }

  /** A request is read back from its frame, whatever follows, exactly when its name has 1 to 255 bytes. */
  lemma RoundTripIff(r: Request, rsv: u8, tail: bytes)
    ensures Decode(Frame(r, rsv) + tail) == Ok((r, |Frame(r, rsv)|)) <==> A.Encodable(r.addr, false)
  {
    hide A.Decode, A.Encode;
    var buf := Frame(r, rsv) + tail;
    assert buf[4..] == A.Encode(r.addr) + tail;
    A.RoundTripIff(r.addr, tail, false);
  }

  /** What is accepted is the frame of what is returned, and every strict prefix of it is truncated. */
  lemma DecodeIsCanonical(buf: bytes)
    requires Decode(buf).Ok?
    ensures var (r, n) := Decode(buf).value;
            && 4 <= n <= |buf| && buf[..n] == Frame(r, buf[2]) && A.Encodable(r.addr, false)
            && forall k :: 0 <= k < n ==> Decode(buf[..k]) == Err(Truncated)
  {
    hide A.Decode, A.Encode;
    A.DecodeIsCanonical(buf[3], buf[4..], false);
    var (r, n) := Decode(buf).value;
    assert buf[..n] == buf[..4] + buf[4..][..n - 4];
    forall k | 0 <= k < n
      ensures Decode(buf[..k]) == Err(Truncated)
    {
      if k >= 4 {
        assert buf[..k][4..] == buf[4..][..k - 4];
      }
    }
  }

  /** So a frame decides its own end: what follows an accepted request cannot change it. */
  lemma DecodeIgnoresTail(buf: bytes, tail: bytes)
    requires Decode(buf).Ok?
    ensures Decode(buf + tail) == Decode(buf)
    ensures Decode(buf[..Decode(buf).value.1]) == Decode(buf)
  {
    DecodeIsCanonical(buf);
    var (r, n) := Decode(buf).value;
    assert buf + tail == Frame(r, buf[2]) + (buf[n..] + tail);
    RoundTripIff(r, buf[2], buf[n..] + tail);
    assert buf[..n] == Frame(r, buf[2]) + [];
    RoundTripIff(r, buf[2], []);
  }

  /** The header and the length byte announce the length of the frame. */
  lemma AddrLenIsExact(buf: bytes)
    requires Decode(buf).Ok?
    ensures var domainLen := if buf[3] == A.DOMAIN then Some(buf[4]) else None;
            AddrLen(buf[3], domainLen) == Ok(Decode(buf).value.1 - 4)
  {
  }

  /** The end of the frame that a header and length byte announce, once all of it is there. */
  function Announced(buf: bytes): (n: Option<nat>)
    ensures n.Some? ==> n.value <= |buf|
  {
    if |buf| < 4 || (buf[3] == A.DOMAIN && |buf| < 5) then None
    else
      var len := AddrLen(buf[3], if buf[3] == A.DOMAIN then Some(buf[4]) else None);
      if len.Ok? && 4 + len.value <= |buf| then Some(4 + len.value) else None
  }

  /** A reader that stops where the frame is announced to end sees what a parser of everything sees. */
  lemma AnnouncedIsEnough(buf: bytes)
    ensures Decode(buf).Ok? ==> Announced(buf) == Some(Decode(buf).value.1)
    ensures Announced(buf).Some? ==>
              var full := buf[..Announced(buf).value];
              Decode(full) == Decode(buf) || (Decode(buf).Err? && Decode(full).Err?)
  {
    hide Decode, AddrLen;
    if Decode(buf).Ok? {
      DecodeIsCanonical(buf);
      AddrLenIsExact(buf);
      DecodeIgnoresTail(buf, []);
    }
    if Announced(buf).Some? {
      var full, tail := buf[..Announced(buf).value], buf[Announced(buf).value..];
      assert full + tail == buf;
      if Decode(full).Ok? {
        DecodeIgnoresTail(full, tail);
      }
    }
  }

  method Parse(buf: bytes) returns (r: Parsed<(Request, nat)>)
    ensures r == Decode(buf)
  {
    hide A.Decode;
    var rd := new Reader(buf);
    var ver := rd.ReadU8();
    if ver.Err? { return Err(ver.error); }
    if ver.value != VERSION { return Err(BadVersion(ver.value)); }
    var cmd := rd.ReadU8();
    if cmd.Err? { return Err(cmd.error); }
    var command := CommandOf(cmd.value);
    if command.Err? { return Err(command.error); }
    var rsv := rd.ReadU8();
    if rsv.Err? { return Err(rsv.error); }
    var atyp := rd.ReadU8();
    if atyp.Err? { return Err(atyp.error); }
    assert rd.Rest() == buf[4..];
    var addr := A.Read(rd, atyp.value, false);
    if addr.Err? { return Err(addr.error); }
    r := Ok((Request(command.value, addr.value), rd.pos));
  }

  method ToBytes(r: Request) returns (v: bytes)
    ensures v == Frame(r, 0x00) && |v| == 4 + r.addr.WireLen()
  {
    var addr := A.ToVec(r.addr);
    v := [VERSION];
    v := v + [CommandByte(r.command)];
    v := v + [0x00];
    v := v + [r.addr.Atyp()];
    v := v + addr;
  }
}
