/** SOCKS5 replies: section 6 of RFC 1928. */
module Replies {
  import opened Prelude
  import opened Wire
  import A = Address

  const SUCCESS: u8 := 0x00
  const NETWORK_UNREACHABLE: u8 := 0x03
  const HOST_UNREACHABLE: u8 := 0x04
  const CONNECTION_REFUSED: u8 := 0x05
  const TTL_EXPIRED: u8 := 0x06
  const COMMAND_NOT_SUPPORTED: u8 := 0x07

  datatype Reply = Reply(code: u8, bindAddr: A.SocksAddr)

  function Frame(r: Reply, rsv: u8): bytes {
    [VERSION, r.code, rsv, r.bindAddr.Atyp()] + A.Encode(r.bindAddr)
  }

  function Simple(code: u8): Reply {
    Reply(code, A.SocksAddr(A.V4([0, 0, 0, 0]), 0))
  }

  /** The reply at the start of `buf` and the bytes it takes; an empty name is accepted here. */
  function Decode(buf: bytes): Parsed<(Reply, nat)> {
    if |buf| < 1 then Err(Truncated)
    else if buf[0] != VERSION then Err(BadVersion(buf[0]))
    else if |buf| < 4 then Err(Truncated)
    else
      var a := A.Decode(buf[3], buf[4..], true);
      if a.Err? then Err(a.error) else Ok((Reply(buf[1], a.value.0), 4 + a.value.1))
  }

  /** The frame byte by byte. */
  lemma FrameForm(r: Reply, rsv: u8)
    ensures var port := [r.bindAddr.port / 256, r.bindAddr.port % 256];
            Frame(r, rsv) == match r.bindAddr.host
                             case V4(o) => [5, r.code, rsv, 1] + o + port
                             case V6(o) => [5, r.code, rsv, 4] + o + port
                             case Domain(name) => [5, r.code, rsv, 3, |name| % 256] + name + port
    ensures Frame(Simple(r.code), 0) == [5, r.code, 0, 1, 0, 0, 0, 0, 0, 0]
  {
    A.WireForm(r.bindAddr);
  }

  /**
  When a reply is refused and with what; every refusal but `Truncated`, and every acceptance, stands
  whatever follows; and 262 bytes are always enough to tell.
  */
  lemma RefusedIff(buf: bytes, tail: bytes)
    ensures var d := Decode(buf);
            && (forall v :: d == Err(BadVersion(v)) <==> buf != [] && buf[0] == v && v != 5)
            && (forall code :: d == Err(Unsupported(code)) <==>
                  |buf| >= 4 && buf[0] == 5 && A.Unfit(buf[3], buf[4..], true, code))
            && d != Err(InvalidCredentialLength)
            && (d == Err(Truncated) ==> |buf| < 262)
            && (d != Err(Truncated) ==> Decode(buf + tail) == d)
  {
    hide A.Decode, A.Unfit;
    if |buf| >= 4 {
      A.RefusedIffUnfit(buf[3], buf[4..], tail, true);
      assert (buf + tail)[4..] == buf[4..] + tail;
    }
  }

  /** A reply is read back from its frame, whatever follows, exactly when its name has at most 255 bytes. */
  lemma RoundTripIff(r: Reply, rsv: u8, tail: bytes)
    ensures Decode(Frame(r, rsv) + tail) == Ok((r, |Frame(r, rsv)|)) <==> A.Encodable(r.bindAddr, true)
  {
    hide A.Decode, A.Encode;
    var buf := Frame(r, rsv) + tail;
    assert buf[4..] == A.Encode(r.bindAddr) + tail;
    A.RoundTripIff(r.bindAddr, tail, true);
  }

  /** What is accepted is the frame of what is returned, and every strict prefix of it is truncated. */
  lemma DecodeIsCanonical(buf: bytes)
    requires Decode(buf).Ok?
    ensures var (r, n) := Decode(buf).value;
            && 4 <= n <= |buf| && buf[..n] == Frame(r, buf[2]) && A.Encodable(r.bindAddr, true)
            && forall k :: 0 <= k < n ==> Decode(buf[..k]) == Err(Truncated)
  {
    hide A.Decode, A.Encode;
    A.DecodeIsCanonical(buf[3], buf[4..], true);
    var (r, n) := Decode(buf).value;
    assert buf[..n] == buf[..4] + buf[4..][..n - 4];
    forall k | 0 <= k < n
      ensures Decode(buf[..k]) == Err(Truncated)
    {
      if k >= 4 {
        assert buf[..k][4..] == buf[4..][..k - 4];
      }
    }
  }

  method Parse(buf: bytes) returns (r: Parsed<Reply>)
    ensures var d := Decode(buf);
            r == if d.Ok? then Ok(d.value.0) else Err(d.error)
  {
    hide A.Decode;
    var rd := new Reader(buf);
    var ver := rd.ReadU8();
    if ver.Err? { return Err(ver.error); }
    if ver.value != VERSION { return Err(BadVersion(ver.value)); }
    var code := rd.ReadU8();
    if code.Err? { return Err(code.error); }
    var rsv := rd.ReadU8();
    if rsv.Err? { return Err(rsv.error); }
    var atyp := rd.ReadU8();
    if atyp.Err? { return Err(atyp.error); }
    assert rd.Rest() == buf[4..];
    var addr := A.Read(rd, atyp.value, true);
    if addr.Err? { return Err(addr.error); }
    r := Ok(Reply(code.value, addr.value));
  }

  method ToBytes(r: Reply) returns (v: bytes)
    ensures v == Frame(r, 0x00) && |v| == 4 + r.bindAddr.WireLen()
  {
    var addr := A.ToVec(r.bindAddr);
    v := [VERSION];
    v := v + [r.code];
    v := v + [0x00];
    v := v + [r.bindAddr.Atyp()];
    v := v + addr;
  }
}
