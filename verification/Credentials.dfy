/** Username and password sub-negotiation: section 2 of RFC 1929. */
module Credentials {
  import opened Prelude
  import opened Wire

  const ACCEPTED: u8 := 0x00
  const REJECTED: u8 := 0x01

  datatype UsernamePassword = UsernamePassword(username: Text, password: Text) {
    function WireLen(): nat {
      1 + 1 + |username| + 1 + |password|
    }
  }

  function Verdict(status: u8): bytes {
    [AUTH_VERSION, status]
  }

  /** The length bytes are the lengths cut down to eight bits. */
  function Encode(c: UsernamePassword): bytes {
    [AUTH_VERSION, |c.username| % 0x100] + c.username + [|c.password| % 0x100] + c.password
  }

  predicate Encodable(c: UsernamePassword) {
    1 <= |c.username| <= 255 && |c.password| <= 255
  }

  function Decode(buf: bytes): Parsed<UsernamePassword> {
    if |buf| < 1 then Err(Truncated)
    else if buf[0] != AUTH_VERSION then Err(BadVersion(buf[0]))
    else if |buf| < 2 then Err(Truncated)
    else if buf[1] == 0 then Err(InvalidCredentialLength)
    else
      var p := 2 + buf[1] as int;
      if |buf| < p + 1 then Err(Truncated)
      else
        var end := p + 1 + buf[p] as int;
        if |buf| < end then Err(Truncated)
        else if !ValidUtf8(buf[2..p]) || !ValidUtf8(buf[p + 1..end]) then Err(InvalidCredentialLength)
        else Ok(UsernamePassword(buf[2..p], buf[p + 1..end]))
  }

  /** The frames byte by byte. */
  lemma FrameForm(c: UsernamePassword, status: u8)
    ensures Encode(c) == [1, |c.username| % 256] + c.username + [|c.password| % 256] + c.password
    ensures Verdict(status) == [1, status]
  {
  }

  /** Whether all the bytes that the two length bytes announce are there. */
  predicate Complete(buf: bytes) {
    && |buf| >= 2 && |buf| >= 3 + buf[1] as int
    && |buf| >= 3 + buf[1] as int + buf[2 + buf[1] as int] as int
  }

  /**
  When credentials are refused and with what; every answer but `Truncated` stands whatever follows,
  and 513 bytes are always enough to tell.
  */
  lemma RefusedIff(buf: bytes, tail: bytes)
    ensures var d := Decode(buf);
            && (forall v :: d == Err(BadVersion(v)) <==> buf != [] && buf[0] == v && v != 1)
            && (d == Err(InvalidCredentialLength) <==>
                && |buf| >= 2 && buf[0] == 1
                && (buf[1] == 0 || (&& Complete(buf)
                                    && var p := 2 + buf[1] as int;
                                       !(ValidUtf8(buf[2..p]) && ValidUtf8(buf[p + 1..p + 1 + buf[p] as int])))))
            && (d.Err? ==> !d.error.Unsupported?)
            && (d == Err(Truncated) ==> |buf| < 513)
            && (d != Err(Truncated) ==> Decode(buf + tail) == d)
  {
    hide ValidUtf8;
    var more := buf + tail;
    if Complete(buf) {
      var p := 2 + buf[1] as int;
      var end := p + 1 + buf[p] as int;
      assert more[1] == buf[1] && more[p] == buf[p];
      assert more[2..p] == buf[2..p] && more[p + 1..end] == buf[p + 1..end];
    }
  }

  /** Credentials are read back from their frame, whatever follows, exactly when the length bytes can hold them. */
  lemma RoundTripIff(c: UsernamePassword, tail: bytes)
    ensures Decode(Encode(c) + tail) == Ok(c) <==> Encodable(c)
  {
    hide ValidUtf8;
    var buf, u, p := Encode(c) + tail, |c.username|, |c.password|;
    assert buf[1] == u % 0x100;
    if 1 <= u <= 255 {
      assert buf[2..2 + u] == c.username && buf[2 + u] == p % 0x100;
      if p <= 255 {
        assert buf[3 + u..3 + u + p] == c.password;
      }
    }
  }

  /** What is accepted is the frame of what is returned, and every strict prefix of it is truncated. */
  lemma DecodeIsCanonical(buf: bytes)
    requires Decode(buf).Ok?
    ensures var c := Decode(buf).value;
            var n := c.WireLen();
            && n <= |buf| && buf[..n] == Encode(c) && Encodable(c)
            && forall k :: 0 <= k < n ==> Decode(buf[..k]) == Err(Truncated)
  {
    hide ValidUtf8;
    var c := Decode(buf).value;
    var p, n := 2 + buf[1] as int, c.WireLen();
    assert buf[..n] == buf[..2] + buf[2..p] + [buf[p]] + buf[p + 1..n];
  }

  method Parse(buf: bytes) returns (r: Parsed<UsernamePassword>)
    ensures r == Decode(buf)
  {
    hide ValidUtf8, Reader.Rest;
    var rd := new Reader(buf);
    var ver := rd.ReadU8();
    if ver.Err? { return Err(ver.error); }
    assert rd.Rest() == buf[1..];
    if ver.value != AUTH_VERSION { return Err(BadVersion(ver.value)); }
    var ulen := rd.ReadU8();
    if ulen.Err? { return Err(ulen.error); }
    assert rd.Rest() == buf[2..];
    if ulen.value == 0 { return Err(InvalidCredentialLength); }
    ghost var p := 2 + ulen.value as int;
    var username := rd.ReadBytes(ulen.value);
    if username.Err? { return Err(username.error); }
    assert rd.Rest() == buf[p..] && username.value == buf[2..p];
    var plen := rd.ReadU8();
    if plen.Err? { return Err(plen.error); }
    assert rd.Rest() == buf[p + 1..] && plen.value == buf[p];
    var password := rd.ReadBytes(plen.value);
    if password.Err? { return Err(password.error); }
    assert password.value == buf[p + 1..p + 1 + plen.value as int];
    if !ValidUtf8(username.value) { return Err(InvalidCredentialLength); }
    if !ValidUtf8(password.value) { return Err(InvalidCredentialLength); }
    r := Ok(UsernamePassword(username.value, password.value));
  }

  method ToVec(c: UsernamePassword) returns (v: bytes)
    ensures v == Encode(c) && |v| == c.WireLen()
  {
    v := [AUTH_VERSION];
    v := v + [|c.username| % 0x100];
    v := v + c.username;
    v := v + [|c.password| % 0x100];
    v := v + c.password;
  }
}
