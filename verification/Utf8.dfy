/** Which byte strings are text: the UTF-8 of section 3 of RFC 3629. */
module Utf8 {
  import opened Bytes
  import opened Values

  /** Unicode code points without the surrogates. */
  predicate Scalar(c: nat) { c < 0xD800 || 0xE000 <= c <= 0x10FFFF }

  /** One character's bytes: the lead byte, and six bits in every byte after it. */
  function EncScalar(c: nat): (b: seq<byte>)
    requires Scalar(c)
    ensures 1 <= |b| <= 4
  {
    if c < 0x80 then [c]
    else if c < 0x800 then [0xC0 + c / 64, 0x80 + c % 64]
    else if c < 0x1_0000 then [0xE0 + c / 4096, 0x80 + c / 64 % 64, 0x80 + c % 64]
    else [0xF0 + c / 262144, 0x80 + c / 4096 % 64, 0x80 + c / 64 % 64, 0x80 + c % 64]
  }

  predicate AllScalar(cs: seq<nat>) { forall i :: 0 <= i < |cs| ==> Scalar(cs[i]) }

  function EncScalars(cs: seq<nat>): seq<byte>
    requires AllScalar(cs)
  {
    if cs == [] then [] else EncScalar(cs[0]) + EncScalars(cs[1..])
  }

  // The code points behind two, three and four bytes.

  lemma TwoBytes(b: seq<byte>) returns (c: nat)
    requires |b| == 2 && 0xC2 <= b[0] <= 0xDF && Continuation(b[1])
    ensures Scalar(c) && EncScalar(c) == b
  {
    var x: nat, y: nat := b[0] - 0xC0, b[1] - 0x80;
    c := x * 64 + y;
    assert c / 64 == x && c % 64 == y;
  }

  lemma ThreeBytes(b: seq<byte>) returns (c: nat)
    requires |b| == 3 && 0xE0 <= b[0] <= 0xEF && Continuation(b[1]) && Continuation(b[2])
    requires (b[0] == 0xE0 ==> b[1] >= 0xA0) && (b[0] == 0xED ==> b[1] <= 0x9F)
    ensures Scalar(c) && EncScalar(c) == b
  {
    var x: nat, y: nat, z: nat := b[0] - 0xE0, b[1] - 0x80, b[2] - 0x80;
    c := (x * 64 + y) * 64 + z;
    Digits(x, y, z);
  }

  lemma FourBytes(b: seq<byte>) returns (c: nat)
    requires |b| == 4 && 0xF0 <= b[0] <= 0xF4 && Continuation(b[1]) && Continuation(b[2]) && Continuation(b[3])
    requires (b[0] == 0xF0 ==> b[1] >= 0x90) && (b[0] == 0xF4 ==> b[1] <= 0x8F)
    ensures Scalar(c) && EncScalar(c) == b
  {
    var w: nat, x: nat, y: nat, z: nat := b[0] - 0xF0, b[1] - 0x80, b[2] - 0x80, b[3] - 0x80;
    c := ((w * 64 + x) * 64 + y) * 64 + z;
    Digits(w * 64 + x, y, z);
    assert (w * 64 + x) / 64 == w && (w * 64 + x) % 64 == x;
    assert c / 262144 == c / 4096 / 64;
  }

  lemma Digits(x: nat, y: nat, z: nat)
    requires y < 64 && z < 64
    ensures var c := (x * 64 + y) * 64 + z;
      c / 4096 == x && c / 64 % 64 == y && c % 64 == z
  {
    var c := (x * 64 + y) * 64 + z;
    assert c / 64 == x * 64 + y;
    assert c / 4096 == c / 64 / 64;
  }

  /** A well-formed start is the bytes of one character. */
  lemma CharOf(b: seq<byte>) returns (c: nat)
    requires b != [] && CharLength(b) > 0
    ensures Scalar(c) && EncScalar(c) == b[..CharLength(b)]
  {
    hide EncScalar;
    var n := CharLength(b);
    if n == 1 {
      c := OneByte(b[0]);
      assert b[..1] == [b[0]];
    } else if n == 2 {
      c := TwoBytes(b[..2]);
    } else if n == 3 {
      c := ThreeBytes(b[..3]);
    } else {
      c := FourBytes(b[..4]);
    }
  }

  lemma OneByte(b: byte) returns (c: nat)
    requires b < 0x80
    ensures Scalar(c) && EncScalar(c) == [b]
  {
    c := b;
  }

  /** And every character's bytes are a well-formed start, whatever follows. */
  lemma LengthOf(c: nat, rest: seq<byte>)
    requires Scalar(c)
    ensures CharLength(EncScalar(c) + rest) == |EncScalar(c)|
    ensures (EncScalar(c) + rest)[|EncScalar(c)|..] == rest
  {
  }

  /** Text is exactly what Unicode characters are encoded to. */
  lemma {:induction false} Utf8Iff(b: seq<byte>)
    ensures IsUtf8(b) <==> exists cs :: AllScalar(cs) && EncScalars(cs) == b
    decreases |b|
  {
    if IsUtf8(b) {
      var cs := Characters(b);
    } else {
      forall cs | AllScalar(cs) ensures EncScalars(cs) != b {
        EncodedIsUtf8(cs);
      }
    }
  }

  lemma {:induction false} Characters(b: seq<byte>) returns (cs: seq<nat>)
    requires IsUtf8(b)
    ensures AllScalar(cs) && EncScalars(cs) == b
    decreases |b|
  {
    hide CharLength, EncScalar;
    if b == [] {
      cs := [];
    } else {
      var n := CharLength(b);
      var c := CharOf(b);
      LengthBound(b);
      var rest := Characters(b[n..]);
      cs := [c] + rest;
      assert cs[1..] == rest && b == b[..n] + b[n..];
    }
  }

  lemma LengthBound(b: seq<byte>)
    requires b != []
    ensures CharLength(b) <= |b|
  {
  }

  lemma {:induction false} EncodedIsUtf8(cs: seq<nat>)
    requires AllScalar(cs)
    ensures IsUtf8(EncScalars(cs))
    decreases |cs|
  {
    hide CharLength, EncScalar;
    if cs != [] {
      EncodedIsUtf8(cs[1..]);
      LengthOf(cs[0], EncScalars(cs[1..]));
      EncScalarLength(cs[0]);
    }
  }

  lemma EncScalarLength(c: nat)
    requires Scalar(c)
    ensures 1 <= |EncScalar(c)| <= 4
  {
  }
}
