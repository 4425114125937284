/** UTF-8 from its definition (RFC 3629, section 3): what a Rust string can hold is the encoding of scalar values. */
module Utf8Scalars {
  import opened AbiModel
  import opened Bits

  /** Code points without the surrogates. */
  type Scalar = c: int | 0 <= c <= 0xD7FF || 0xE000 <= c <= 0x10FFFF

  function EncodeScalar(c: Scalar): seq<byte> {
    if c < 0x80 then [c]
    else if c < 0x800 then [0xC0 + c / 0x40, 0x80 + c % 0x40]
    else if c < 0x1_0000 then [0xE0 + c / 0x1000, 0x80 + c / 0x40 % 0x40, 0x80 + c % 0x40]
    else [0xF0 + c / 0x4_0000, 0x80 + c / 0x1000 % 0x40, 0x80 + c / 0x40 % 0x40, 0x80 + c % 0x40]
  }

  function Encode(text: seq<Scalar>): seq<byte> {
    if text == [] then [] else EncodeScalar(text[0]) + Encode(text[1..])
  }

  lemma OneScalar(c: Scalar, rest: seq<byte>)
    ensures ValidUtf8(EncodeScalar(c) + rest) <==> ValidUtf8(rest)
  {
    var b := EncodeScalar(c) + rest;
    if c < 0x80 {
      assert b[1..] == rest;
    } else if c < 0x800 {
      assert b[2..] == rest;
    } else if c < 0x1_0000 {
      assert b[3..] == rest;
    } else {
      assert b[4..] == rest;
    }
  }

  lemma {:induction false} EncodedIsValid(text: seq<Scalar>)
    ensures ValidUtf8(Encode(text))
  {
    hide ValidUtf8, EncodeScalar;
    if text == [] {
      EmptyIsValid();
    } else {
      EncodedIsValid(text[1..]);
      OneScalar(text[0], Encode(text[1..]));
    }
  }

  lemma EmptyIsValid()
    ensures ValidUtf8([])
  {
  }

  lemma FirstScalar(b: seq<byte>) returns (c: Scalar, rest: seq<byte>)
    requires b != [] && ValidUtf8(b)
    ensures b == EncodeScalar(c) + rest && ValidUtf8(rest) && |rest| < |b|
  {
    if b[0] <= 0x7F {
      c, rest := b[0], b[1..];
    } else if b[0] <= 0xDF {
      c := TwoBytes(b[0], b[1]);
      rest := b[2..];
      assert b == [b[0], b[1]] + rest;
    } else if b[0] <= 0xEF {
      c := ThreeBytes(b[0], b[1], b[2]);
      rest := b[3..];
      assert b == [b[0], b[1], b[2]] + rest;
    } else {
      c := FourBytes(b[0], b[1], b[2], b[3]);
      rest := b[4..];
      assert b == [b[0], b[1], b[2], b[3]] + rest;
    }
  }

  lemma TwoBytes(x: byte, y: byte) returns (c: Scalar)
    requires 0xC2 <= x <= 0xDF && Continuation(y)
    ensures EncodeScalar(c) == [x, y]
  {
    c := (x - 0xC0) * 0x40 + (y - 0x80);
  }

  lemma ThreeBytes(x: byte, y: byte, z: byte) returns (c: Scalar)
    requires 0xE0 <= x <= 0xEF && Continuation(y) && Continuation(z)
    requires (x == 0xE0 ==> 0xA0 <= y) && (x == 0xED ==> y <= 0x9F)
    ensures EncodeScalar(c) == [x, y, z]
  {
    var m := (x - 0xE0) * 0x40 + (y - 0x80);
    c := m * 0x40 + (z - 0x80);
    assert c / 0x40 == m && c / 0x1000 == x - 0xE0;
  }

  lemma FourBytes(w: byte, x: byte, y: byte, z: byte) returns (c: Scalar)
    requires 0xF0 <= w <= 0xF4 && Continuation(x) && Continuation(y) && Continuation(z)
    requires (w == 0xF0 ==> 0x90 <= x) && (w == 0xF4 ==> x <= 0x8F)
    ensures EncodeScalar(c) == [w, x, y, z]
  {
    var l := (w - 0xF0) * 0x40 + (x - 0x80);
    var m := l * 0x40 + (y - 0x80);
    c := m * 0x40 + (z - 0x80);
    assert c / 0x40 == m && c / 0x1000 == l && c / 0x4_0000 == w - 0xF0;
  }

  lemma {:induction false} ValidIsEncoded(b: seq<byte>) returns (text: seq<Scalar>)
    requires ValidUtf8(b)
    ensures Encode(text) == b
    decreases |b|
  {
    hide ValidUtf8, EncodeScalar;
    if b == [] {
      text := [];
    } else {
      var c, rest := FirstScalar(b);
      var later := ValidIsEncoded(rest);
      text := [c] + later;
      assert text[1..] == later;
    }
  }

  /** A byte string is accepted as text exactly when it encodes scalar values, one after the other. */
  lemma ValidIff(b: seq<byte>)
    ensures ValidUtf8(b) <==> exists text: seq<Scalar> :: Encode(text) == b
  {
    hide ValidUtf8, Encode;
    if ValidUtf8(b) {
      var text := ValidIsEncoded(b);
    }
    forall text: seq<Scalar> ensures ValidUtf8(Encode(text)) {
      EncodedIsValid(text);
    }
  }
}
