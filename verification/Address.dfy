/** Destination addresses and their wire form: the part of a frame that follows the ATYP byte. */
module Address {
  import opened Prelude
  import opened Wire

  const IPV4: u8 := 0x01
  const DOMAIN: u8 := 0x03
  const IPV6: u8 := 0x04

  type Octets4 = s: bytes | |s| == 4 witness [0, 0, 0, 0]
  type Octets16 = s: bytes | |s| == 16 witness [0, 0, 0, 0, 0, 0, 0, 0, 0, 0, 0, 0, 0, 0, 0, 0]

  datatype Host = V4(octets: Octets4) | V6(octets16: Octets16) | Domain(name: Text)

  datatype SocksAddr = SocksAddr(host: Host, port: u16) {
    function Atyp(): u8 {
      match host
      case V4(_) => IPV4
      case V6(_) => IPV6
      case Domain(_) => DOMAIN
    }

    function WireLen(): nat {
      match host
      case V4(_) => 4 + 2
      case V6(_) => 16 + 2
      case Domain(name) => 1 + |name| + 2
    }
  }

  /** The length byte of a name is its length cut down to eight bits. */
  function EncodeHost(host: Host): bytes {
    match host
    case V4(o) => o
    case V6(o) => o
    case Domain(name) => [|name| % 0x100] + name
  }

  function Encode(a: SocksAddr): bytes {
    EncodeHost(a.host) + PortBytes(a.port)
  }

  /** Whether a name of this length fits the length byte; requests also insist on a name at all. */
  predicate Encodable(a: SocksAddr, emptyOk: bool) {
    a.host.Domain? ==> |a.host.name| <= 255 && (emptyOk || a.host.name != [])
  }

  /** The host at the start of `buf`, with the bytes it takes. */
  function DecodeHost(atyp: u8, buf: bytes, emptyOk: bool): Parsed<(Host, nat)> {
    if atyp == IPV4 then
      if |buf| < 4 then Err(Truncated) else Ok((V4(buf[..4]), 4))
    else if atyp == IPV6 then
      if |buf| < 16 then Err(Truncated) else Ok((V6(buf[..16]), 16))
    else if atyp == DOMAIN then
      if buf == [] then Err(Truncated)
      else if buf[0] == 0 && !emptyOk then Err(Unsupported(DOMAIN))
      else if |buf| < 1 + buf[0] as int then Err(Truncated)
      else if !ValidUtf8(buf[1..1 + buf[0] as int]) then Err(Unsupported(DOMAIN))
      else Ok((Domain(buf[1..1 + buf[0] as int]), 1 + buf[0] as int))
    else Err(Unsupported(atyp))
  }

  /** An address and port at the start of `buf`. */
  function Decode(atyp: u8, buf: bytes, emptyOk: bool): Parsed<(SocksAddr, nat)> {
    var h := DecodeHost(atyp, buf, emptyOk);
    if h.Err? then Err(h.error)
    else
      var (host, n) := h.value;
      if |buf| < n + 2 then Err(Truncated)
      else Ok((SocksAddr(host, PortOf(buf[n], buf[n + 1])), n + 2))
  }

  // ----- laws -----

  /** The wire form byte by byte: a port is sent with its high byte first. */
  lemma WireForm(a: SocksAddr)
    ensures Encode(a) == (match a.host
                          case V4(o) => o
                          case V6(o) => o
                          case Domain(name) => [|name| % 256] + name) + [a.port / 256, a.port % 256]
    ensures a.Atyp() == match a.host case V4(_) => 1 case V6(_) => 4 case Domain(_) => 3
  {
  }

  /** What makes an address unsupported, with the code reported: its type, or a name that is empty or no text. */
  predicate Unfit(atyp: u8, buf: bytes, emptyOk: bool, code: u8) {
    if atyp == 1 || atyp == 4 then false
    else if atyp != 3 then code == atyp
    else
      && code == 3 && buf != []
      && if buf[0] == 0 then !emptyOk
         else |buf| >= 1 + buf[0] as int && !ValidUtf8(buf[1..1 + buf[0] as int])
  }

  lemma HostRefused(atyp: u8, buf: bytes, tail: bytes, emptyOk: bool)
    ensures var d := DecodeHost(atyp, buf, emptyOk);
            && (d.Err? ==> d.error == Truncated || d.error.Unsupported?)
            && (forall code :: d == Err(Unsupported(code)) <==> Unfit(atyp, buf, emptyOk, code))
            && (d == Err(Truncated) ==> |buf| < 256)
            && (d.Ok? ==> d.value.1 <= 256)
            && (d != Err(Truncated) ==> DecodeHost(atyp, buf + tail, emptyOk) == d)
  {
    var d, more := DecodeHost(atyp, buf, emptyOk), buf + tail;
    assert ValidUtf8([]);
    hide ValidUtf8;
    if d != Err(Truncated) {
      if atyp == 1 {
        assert more[..4] == buf[..4];
      } else if atyp == 4 {
        assert more[..16] == buf[..16];
      } else if atyp == 3 {
        assert more[0] == buf[0];
        if |buf| >= 1 + buf[0] as int {
          assert more[1..1 + buf[0] as int] == buf[1..1 + buf[0] as int];
        }
      }
    }
    if atyp == 3 && buf != [] && buf[0] == 0 {
      assert buf[1..1 + buf[0] as int] == [];
    }
  }

  /**
  An address is refused exactly if it is unfit.  Every answer but `Truncated` is final, and no
  address needs more than 258 bytes.
  */
  lemma RefusedIffUnfit(atyp: u8, buf: bytes, tail: bytes, emptyOk: bool)
    ensures var d := Decode(atyp, buf, emptyOk);
            && (d.Err? ==> d.error == Truncated || d.error.Unsupported?)
            && (forall code :: d == Err(Unsupported(code)) <==> Unfit(atyp, buf, emptyOk, code))
            && (d == Err(Truncated) ==> |buf| < 258)
            && (d != Err(Truncated) ==> Decode(atyp, buf + tail, emptyOk) == d)
  {
    hide ValidUtf8, DecodeHost, Unfit;
    HostRefused(atyp, buf, tail, emptyOk);
    var h := DecodeHost(atyp, buf, emptyOk);
    if h.Ok? && h.value.1 + 2 <= |buf| {
      var n := h.value.1;
      assert (buf + tail)[n] == buf[n] && (buf + tail)[n + 1] == buf[n + 1];
    }
  }

  lemma HostRoundTrip(h: Host, tail: bytes, emptyOk: bool)
    ensures var a := SocksAddr(h, 0);
            (DecodeHost(a.Atyp(), EncodeHost(h) + tail, emptyOk) == Ok((h, |EncodeHost(h)|))) <==> Encodable(a, emptyOk)
  {
    hide ValidUtf8;
    var buf := EncodeHost(h) + tail;
    match h
    case V4(o) => assert buf[..4] == o;
    case V6(o) => assert buf[..16] == o;
    case Domain(name) =>
      if |name| <= 255 {
        assert buf[0] == |name| && buf[1..1 + |name|] == name;
      }
  }

  /** An address is read back from its encoding, whatever follows, exactly when its length byte can hold its name. */
  lemma RoundTripIff(a: SocksAddr, tail: bytes, emptyOk: bool)
    ensures (Decode(a.Atyp(), Encode(a) + tail, emptyOk) == Ok((a, |Encode(a)|))) <==> Encodable(a, emptyOk)
  {
    hide ValidUtf8, DecodeHost, EncodeHost, PortOf;
    var buf, more := Encode(a) + tail, PortBytes(a.port) + tail;
    assert buf == EncodeHost(a.host) + more;
    HostRoundTrip(a.host, more, emptyOk);
    assert a.Atyp() == SocksAddr(a.host, 0).Atyp() && |Encode(a)| == |EncodeHost(a.host)| + 2;
    PortRoundTrip(a.port, 0, 0);
    var n := |EncodeHost(a.host)|;
    assert PortOf(buf[n], buf[n + 1]) == a.port;
    if Decode(a.Atyp(), buf, emptyOk) == Ok((a, n + 2)) {
      var d := DecodeHost(a.Atyp(), buf, emptyOk);
      assert d.value == (d.value.0, d.value.1) == (a.host, n);
    }
  }

  lemma HostIsCanonical(atyp: u8, buf: bytes, emptyOk: bool)
    requires DecodeHost(atyp, buf, emptyOk).Ok?
    ensures var (h, n) := DecodeHost(atyp, buf, emptyOk).value;
            && n <= |buf| && buf[..n] == EncodeHost(h)
            && Encodable(SocksAddr(h, 0), emptyOk) && SocksAddr(h, 0).Atyp() == atyp
            && (forall k :: 0 <= k < n ==> DecodeHost(atyp, buf[..k], emptyOk) == Err(Truncated))
            && forall k :: n <= k <= |buf| ==> DecodeHost(atyp, buf[..k], emptyOk) == Ok((h, n))
  {
    hide ValidUtf8;
    var (h, n) := DecodeHost(atyp, buf, emptyOk).value;
    forall k | n <= k <= |buf|
      ensures buf[..k][..n] == buf[..n] && (n > 0 ==> buf[..k][1..n] == buf[1..n])
    {}
  }

  /**
  What is accepted is exactly the encoding of what is returned, and nothing shorter is accepted or
  refused: every strict prefix is merely truncated.
  */
  lemma DecodeIsCanonical(atyp: u8, buf: bytes, emptyOk: bool)
    requires Decode(atyp, buf, emptyOk).Ok?
    ensures var (a, n) := Decode(atyp, buf, emptyOk).value;
            && n <= |buf| && buf[..n] == Encode(a) && Encodable(a, emptyOk) && a.Atyp() == atyp
            && forall k :: 0 <= k < n ==> Decode(atyp, buf[..k], emptyOk) == Err(Truncated)
  {
    hide ValidUtf8, DecodeHost, EncodeHost;
    HostIsCanonical(atyp, buf, emptyOk);
    var (a, n) := Decode(atyp, buf, emptyOk).value;
    PortRoundTrip(0, buf[n - 2], buf[n - 1]);
    assert PortBytes(a.port) == buf[n - 2..n];
    assert buf[..n] == buf[..n - 2] + buf[n - 2..n];
  }

  lemma {:induction false} AsciiIsText(n: nat)
    ensures ValidUtf8(seq(n, _ => 0x61))
  {
    if n > 0 {
      AsciiIsText(n - 1);
      assert seq(n, _ => 0x61)[1..] == seq(n - 1, _ => 0x61);
    }
  }

  /** A name of 257 bytes is sent with length byte 1, and read back as another name at another port. */
  lemma LongNameIsMisread(port: u16) returns (a: SocksAddr, b: SocksAddr)
    ensures a.host.Domain? && |a.host.name| == 257 && a.port == port
    ensures b == SocksAddr(Domain([0x61]), 0x6161)
    ensures Decode(a.Atyp(), Encode(a), false) == Ok((b, 4))
  {
    AsciiIsText(257);
    AsciiIsText(1);
    var name := seq(257, _ => 0x61);
    assert seq(1, _ => 0x61) == [0x61];
    a, b := SocksAddr(Domain(name), port), SocksAddr(Domain([0x61]), 0x6161);
    hide ValidUtf8;
    var buf := Encode(a);
    assert buf[0] == 1 && buf[1..2] == [0x61] && buf[2] == 0x61 && buf[3] == 0x61;
  }

  // ----- writing and reading in place -----

  method Write(a: SocksAddr, out: array<u8>) returns (n: nat)
    requires out.Length >= a.WireLen()
    modifies out
    ensures n == a.WireLen() == |Encode(a)|
    ensures out[..n] == Encode(a) && out[n..] == old(out[n..])
  {
    n := a.WireLen();
    var pos := 0;
    match a.host {
      case V4(o) =>
        forall i | 0 <= i < 4 { out[i] := o[i]; }
        pos := 4;
      case V6(o) =>
        forall i | 0 <= i < 16 { out[i] := o[i]; }
        pos := 16;
      case Domain(name) =>
        out[0] := |name| % 0x100;
        forall i | 0 <= i < |name| { out[1 + i] := name[i]; }
        pos := 1 + |name|;
    }
    assert out[..pos] == EncodeHost(a.host);
    out[pos] := a.port / 0x100;
    out[pos + 1] := a.port % 0x100;
    assert out[..pos] == EncodeHost(a.host);
    assert out[..n] == out[..pos] + [out[pos], out[pos + 1]];
  }

  method ToVec(a: SocksAddr) returns (v: bytes)
    ensures v == Encode(a) && |v| == a.WireLen()
  {
    var buf := new u8[a.WireLen()];
    var n := Write(a, buf);
    v := buf[..];
  }

  method ReadHost(r: Reader, atyp: u8, emptyOk: bool) returns (h: Parsed<Host>)
    requires r.Valid()
    modifies r`pos
    ensures r.Valid()
    ensures var d := DecodeHost(atyp, old(r.Rest()), emptyOk);
            if d.Ok? then h == Ok(d.value.0) && r.pos == old(r.pos) + d.value.1 else h == Err(d.error)
  {
    hide ValidUtf8;
    if atyp == IPV4 {
      var b := r.ReadBytes(4);
      if b.Err? { return Err(b.error); }
      h := Ok(V4(b.value));
    } else if atyp == IPV6 {
      var b := r.ReadBytes(16);
      if b.Err? { return Err(b.error); }
      h := Ok(V6(b.value));
    } else if atyp == DOMAIN {
      var len := r.ReadU8();
      if len.Err? { return Err(len.error); }
      if len.value == 0 && !emptyOk {
        return Err(Unsupported(DOMAIN));
      }
      var name := r.ReadBytes(len.value);
      if name.Err? { return Err(name.error); }
      assert name.value == old(r.Rest())[1..1 + len.value as int];
      if !ValidUtf8(name.value) {
        return Err(Unsupported(DOMAIN));
      }
      h := Ok(Domain(name.value));
    } else {
      h := Err(Unsupported(atyp));
    }
  }

  /** The address part of a frame, read through the cursor. */
  method Read(r: Reader, atyp: u8, emptyOk: bool) returns (a: Parsed<SocksAddr>)
    requires r.Valid()
    modifies r`pos
    ensures r.Valid()
    ensures var d := Decode(atyp, old(r.Rest()), emptyOk);
            if d.Ok? then a == Ok(d.value.0) && r.pos == old(r.pos) + d.value.1 else a == Err(d.error)
  {
    hide ValidUtf8, DecodeHost;
    var host := ReadHost(r, atyp, emptyOk);
    if host.Err? { return Err(host.error); }
    var port := r.ReadU16();
    if port.Err? { return Err(port.error); }
    a := Ok(SocksAddr(host.value, port.value));
  }
}
