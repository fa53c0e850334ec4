/** Method negotiation: section 3 of RFC 1928. */
module Greetings {
  import opened Prelude
  import opened Wire

  const NO_AUTH: u8 := 0x00
  const USER_PASS: u8 := 0x02
  const NO_ACCEPTABLE: u8 := 0xFF

  datatype Greeting = Greeting(methods: bytes)

  function Selection(m: u8): bytes {
    [VERSION, m]
  }

  function Encode(g: Greeting): bytes
    requires |g.methods| <= 255
  {
    [VERSION, |g.methods|] + g.methods
  }

  function Decode(buf: bytes): Parsed<Greeting> {
    if |buf| < 1 then Err(Truncated)
    else if buf[0] != VERSION then Err(BadVersion(buf[0]))
    else if |buf| < 2 || |buf| < 2 + buf[1] as int then Err(Truncated)
    else if buf[1] == 0 then Err(Unsupported(0x00))
    else Ok(Greeting(buf[2..2 + buf[1] as int]))
  }

  function FrameLen(buf: bytes): Parsed<nat> {
    if |buf| < 2 then Err(Truncated) else Ok(2 + buf[1] as int)
  }

  /** The frames byte by byte. */
  lemma FrameForm(g: Greeting, m: u8)
    requires |g.methods| <= 255
    ensures Encode(g) == [5, |g.methods|] + g.methods && Selection(m) == [5, m]
  {
  }

  /** When a greeting is refused and with what; every answer but `Truncated` stands whatever follows. */
  lemma RefusedIff(buf: bytes, tail: bytes)
    ensures var d := Decode(buf);
            && (forall v :: d == Err(BadVersion(v)) <==> buf != [] && buf[0] == v && v != 5)
            && (d == Err(Truncated) <==> buf == [] || (buf[0] == 5 && (|buf| < 2 || |buf| < 2 + buf[1] as int)))
            && (forall code :: d == Err(Unsupported(code)) <==> |buf| >= 2 && buf[..2] == [5, 0] && code == 0)
            && d != Err(InvalidCredentialLength)
            && (d != Err(Truncated) ==> Decode(buf + tail) == d)
  {
    var d := Decode(buf);
    if d.Ok? {
      assert (buf + tail)[2..2 + buf[1] as int] == buf[2..2 + buf[1] as int];
    }
  }

  /** A greeting of 1 to 255 methods is read back from its frame whatever follows; an empty one is refused. */
  lemma RoundTripIff(g: Greeting, tail: bytes)
    requires |g.methods| <= 255
    ensures Decode(Encode(g) + tail) == Ok(g) <==> g.methods != []
    ensures FrameLen(Encode(g) + tail) == Ok(|Encode(g)|)
  {
    var buf := Encode(g) + tail;
    assert buf[2..2 + |g.methods|] == g.methods;
  }

  /** What is accepted is the frame of what is returned, and every strict prefix of it is truncated. */
  lemma DecodeIsCanonical(buf: bytes)
    requires Decode(buf).Ok?
    ensures var g := Decode(buf).value;
            && 1 <= |g.methods| <= 255 && FrameLen(buf) == Ok(|Encode(g)|) && |Encode(g)| <= |buf|
            && buf[..|Encode(g)|] == Encode(g)
            && forall k :: 0 <= k < |Encode(g)| ==> Decode(buf[..k]) == Err(Truncated)
  {
    var g := Decode(buf).value;
    assert buf[..|Encode(g)|] == buf[..2] + g.methods;
  }

  method Parse(buf: bytes) returns (r: Parsed<Greeting>)
    ensures r == Decode(buf)
  {
    var rd := new Reader(buf);
    var ver := rd.ReadU8();
    if ver.Err? { return Err(ver.error); }
    if ver.value != VERSION { return Err(BadVersion(ver.value)); }
    var nmethods := rd.ReadU8();
    if nmethods.Err? { return Err(nmethods.error); }
    var methods := rd.ReadBytes(nmethods.value);
    if methods.Err? { return Err(methods.error); }
    assert methods.value == buf[2..2 + nmethods.value as int];
    if methods.value == [] || |methods.value| > 255 {
      return Err(Unsupported(0x00));
    }
    r := Ok(Greeting(methods.value));
  }

  /** The selected method is one the client offered and the policy allows, or none if there is no such. */
  function Negotiate(g: Greeting, allowUserPass: bool, allowNoAuth: bool): (m: u8)
    ensures m == 0 || m == 2 || m == 0xFF
    ensures m == 0 <==> allowNoAuth && 0 in g.methods
    ensures m == 2 ==> allowUserPass && 2 in g.methods
    ensures m == 0xFF <==> !(allowNoAuth && 0 in g.methods) && !(allowUserPass && 2 in g.methods)
  {
    if allowNoAuth && NO_AUTH in g.methods then NO_AUTH
    else if allowUserPass && USER_PASS in g.methods then USER_PASS
    else NO_ACCEPTABLE
  }
}
