/** Bytes, text and the bounds-checked cursor that the SOCKS5 parsers read through. */
module Wire {
  import opened Prelude

  type u8 = x: int | 0 <= x < 0x100
  type u16 = x: int | 0 <= x < 0x1_0000
  type bytes = seq<u8>

  const VERSION: u8 := 0x05
  const AUTH_VERSION: u8 := 0x01

  datatype ProtocolError = BadVersion(v: u8) | Unsupported(code: u8) | Truncated | InvalidCredentialLength

  type Parsed<+T> = Result<T, ProtocolError>

  predicate Continuation(b: u8) {
    0x80 <= b <= 0xBF
  }

  /** Length of the well-formed UTF-8 sequence that `s` starts with, or zero. */
  function Utf8Head(s: bytes): nat {
    if |s| == 0 then 0
    else if s[0] <= 0x7F then 1
    else if |s| < 2 then 0
    else if 0xC2 <= s[0] <= 0xDF && Continuation(s[1]) then 2
    else if |s| < 3 then 0
    else if && (0xE0 <= s[0] <= 0xEF) && Continuation(s[1]) && Continuation(s[2])
            && (s[0] == 0xE0 ==> s[1] >= 0xA0) && (s[0] == 0xED ==> s[1] <= 0x9F) then 3
    else if |s| < 4 then 0
    else if && (0xF0 <= s[0] <= 0xF4) && Continuation(s[1]) && Continuation(s[2]) && Continuation(s[3])
            && (s[0] == 0xF0 ==> s[1] >= 0x90) && (s[0] == 0xF4 ==> s[1] <= 0x8F) then 4
    else 0
  }

  predicate ValidUtf8(s: bytes)
    decreases |s|
  {
    s == [] || (Utf8Head(s) > 0 && ValidUtf8(s[Utf8Head(s)..]))
  }

  /** A string, by its bytes. */
  type Text = s: bytes | ValidUtf8(s)

  // ----- text is what UTF-8 encodes -----

  /** A Unicode scalar value. */
  predicate Scalar(c: int) {
    0 <= c <= 0x10FFFF && !(0xD800 <= c <= 0xDFFF)
  }

  /** The encoding of one scalar value: section 3 of RFC 3629. */
  function EncodeScalar(c: int): bytes
    requires Scalar(c)
  {
    if c < 0x80 then [c]
    else if c < 0x800 then [0xC0 + c / 0x40, 0x80 + c % 0x40]
    else if c < 0x1_0000 then [0xE0 + c / 0x1000, 0x80 + c / 0x40 % 0x40, 0x80 + c % 0x40]
    else [0xF0 + c / 0x4_0000, 0x80 + c / 0x1000 % 0x40, 0x80 + c / 0x40 % 0x40, 0x80 + c % 0x40]
  }

  ghost predicate Scalars(cs: seq<int>) {
    forall i :: 0 <= i < |cs| ==> Scalar(cs[i])
  }

  ghost function EncodeAll(cs: seq<int>): bytes
    requires Scalars(cs)
  {
    if cs == [] then [] else EncodeScalar(cs[0]) + EncodeAll(cs[1..])
  }

  lemma EncodedHead(c: int, rest: bytes)
    requires Scalar(c)
    ensures Utf8Head(EncodeScalar(c) + rest) == |EncodeScalar(c)| > 0
  {
    var e, s := EncodeScalar(c), EncodeScalar(c) + rest;
    assert s[0] == e[0];
    if 0x80 <= c < 0x800 {
      assert s[1] == e[1];
    } else if 0x800 <= c < 0x1_0000 {
      assert s[1] == e[1] && s[2] == e[2];
      Digits(c);
    } else if 0x1_0000 <= c {
      assert s[1] == e[1] && s[2] == e[2] && s[3] == e[3];
      Digits(c);
    }
  }

  lemma Assembled(x0: nat, x1: nat, x2: nat, x3: nat)
    requires x1 < 0x40 && x2 < 0x40 && x3 < 0x40
    ensures var c := x0 * 0x4_0000 + x1 * 0x1000 + x2 * 0x40 + x3;
            && c % 0x40 == x3 && c / 0x40 == x0 * 0x1000 + x1 * 0x40 + x2 && c / 0x40 % 0x40 == x2
            && c / 0x1000 == x0 * 0x40 + x1 && c / 0x1000 % 0x40 == x1 && c / 0x4_0000 == x0
  {
  }

  /** The base-64 digits of a number. */
  lemma Digits(c: nat)
    ensures c / 0x40 == c / 0x1000 * 0x40 + c / 0x40 % 0x40
    ensures c / 0x1000 == c / 0x4_0000 * 0x40 + c / 0x1000 % 0x40
  {
    var x0, r0 := c / 0x4_0000, c % 0x4_0000;
    var x1, r1 := r0 / 0x1000, r0 % 0x1000;
    Assembled(x0, x1, r1 / 0x40, r1 % 0x40);
  }

  lemma HeadIsEncoded(s: bytes) returns (c: int)
    requires Utf8Head(s) > 0
    ensures Scalar(c) && Utf8Head(s) <= |s| && EncodeScalar(c) == s[..Utf8Head(s)]
  {
    var n := Utf8Head(s);
    if n == 1 {
      c := s[0];
    } else if n == 2 {
      var b0: int, b1: int := s[0], s[1];
      Assembled(0, 0, b0 - 0xC0, b1 - 0x80);
      c := (b0 - 0xC0) * 0x40 + (b1 - 0x80);
    } else if n == 3 {
      var b0: int, b1: int, b2: int := s[0], s[1], s[2];
      Assembled(0, b0 - 0xE0, b1 - 0x80, b2 - 0x80);
      c := (b0 - 0xE0) * 0x1000 + (b1 - 0x80) * 0x40 + (b2 - 0x80);
    } else {
      var b0: int, b1: int, b2: int, b3: int := s[0], s[1], s[2], s[3];
      Assembled(b0 - 0xF0, b1 - 0x80, b2 - 0x80, b3 - 0x80);
      c := (b0 - 0xF0) * 0x4_0000 + (b1 - 0x80) * 0x1000 + (b2 - 0x80) * 0x40 + (b3 - 0x80);
    }
  }

  lemma {:induction false} EncodedIsValid(cs: seq<int>)
    requires Scalars(cs)
    ensures ValidUtf8(EncodeAll(cs))
  {
    hide Utf8Head, EncodeScalar;
    if cs != [] {
      EncodedIsValid(cs[1..]);
      EncodedHead(cs[0], EncodeAll(cs[1..]));
      var s := EncodeAll(cs);
      assert s[|EncodeScalar(cs[0])|..] == EncodeAll(cs[1..]);
    }
  }

  lemma {:induction false} ValidIsEncoded(s: bytes) returns (cs: seq<int>)
    requires ValidUtf8(s)
    ensures Scalars(cs) && EncodeAll(cs) == s
    decreases |s|
  {
    hide Utf8Head, EncodeScalar;
    if s == [] {
      cs := [];
    } else {
      var c := HeadIsEncoded(s);
      var rest := ValidIsEncoded(s[Utf8Head(s)..]);
      cs := [c] + rest;
      assert cs[1..] == rest;
      assert s == s[..Utf8Head(s)] + s[Utf8Head(s)..];
    }
  }

  /** The bytes accepted as text are exactly the encodings of sequences of scalar values. */
  lemma TextIsUtf8(s: bytes)
    ensures ValidUtf8(s) <==> exists cs: seq<int> :: Scalars(cs) && EncodeAll(cs) == s
  {
    hide ValidUtf8, EncodeAll, Scalars;
    if ValidUtf8(s) {
      var cs := ValidIsEncoded(s);
    }
    if cs: seq<int> :| Scalars(cs) && EncodeAll(cs) == s {
      EncodedIsValid(cs);
    }
  }

  function PortBytes(port: u16): bytes {
    [port / 0x100, port % 0x100]
  }

  function PortOf(hi: u8, lo: u8): u16 {
    (hi as int) * 0x100 + lo as int
  }

  lemma PortRoundTrip(port: u16, hi: u8, lo: u8)
    ensures PortOf(port / 0x100, port % 0x100) == port
    ensures PortBytes(PortOf(hi, lo)) == [hi, lo]
  {
  }

  /** A cursor over a buffer that answers reads past its end with `Truncated`. */
  class Reader {
    const buf: bytes
    var pos: nat

    ghost predicate Valid()
      reads this
    {
      pos <= |buf|
    }

    ghost function Rest(): bytes
      requires Valid()
      reads this
    {
      buf[pos..]
    }

    constructor (buf: bytes)
      ensures Valid() && this.buf == buf && pos == 0 && Rest() == buf
    {
      this.buf, pos := buf, 0;
    }

    method ReadU8() returns (r: Parsed<u8>)
      requires Valid()
      modifies this`pos
      ensures Valid() && (r.Ok? <==> old(Rest()) != [])
      ensures r.Ok? ==> r.value == old(Rest())[0] && pos == old(pos) + 1 && Rest() == old(Rest())[1..]
      ensures r.Err? ==> r.error == Truncated && pos == old(pos)
    {
      if pos < |buf| {
        r := Ok(buf[pos]);
        pos := pos + 1;
      } else {
        r := Err(Truncated);
      }
    }

    method ReadU16() returns (r: Parsed<u16>)
      requires Valid()
      modifies this`pos
      ensures Valid() && (r.Ok? <==> |old(Rest())| >= 2)
      ensures r.Ok? ==> r.value == 256 * old(Rest())[0] as int + old(Rest())[1] as int && pos == old(pos) + 2
      ensures r.Err? ==> r.error == Truncated
    {
      var hi := ReadU8();
      if hi.Err? {
        return Err(Truncated);
      }
      var lo := ReadU8();
      if lo.Err? {
        return Err(Truncated);
      }
      r := Ok(PortOf(hi.value, lo.value));
    }

    method ReadBytes(n: nat) returns (r: Parsed<bytes>)
      requires Valid()
      modifies this`pos
      ensures Valid() && (r.Ok? <==> n <= |old(Rest())|)
      ensures r.Ok? ==> r.value == old(Rest())[..n] && pos == old(pos) + n && Rest() == old(Rest())[n..]
      ensures r.Err? ==> r.error == Truncated && pos == old(pos)
    {
      var end := pos + n;
      if end <= |buf| {
        r := Ok(buf[pos..end]);
        pos := end;
      } else {
        r := Err(Truncated);
      }
    }
  }
}
