/** The base64 text of section 4 of RFC 4648, as the replication stream writes and reads it. */
module Base64 {
  import opened Bytes
  import opened Options

  /** The 64 characters of the alphabet, in order. */
  function Symbol(v: nat): char
  {
    if v < 26 then 'A' + v as char
    else if v < 52 then 'a' + (v - 26) as char
    else if v < 62 then '0' + (v - 52) as char
    else if v == 62 then '+' else '/'
  }

  function Digit(c: char): (r: Option<nat>)
    ensures r.Some? ==> r.value < 64
  {
    if 'A' <= c <= 'Z' then Some((c - 'A') as nat)
    else if 'a' <= c <= 'z' then Some(26 + (c - 'a') as nat)
    else if '0' <= c <= '9' then Some(52 + (c - '0') as nat)
    else if c == '+' then Some(62)
    else if c == '/' then Some(63)
    else None
  }

  lemma DigitSymbol(v: nat)
    requires v < 64
    ensures Digit(Symbol(v)) == Some(v) && Symbol(v) != '='
  {
  }

  // The four six-bit digits of three bytes.

  function D0(b0: byte): nat { b0 / 4 }

  function D1(b0: byte, b1: byte): nat { b0 % 4 * 16 + b1 / 16 }

  function D2(b1: byte, b2: byte): nat { b1 % 16 * 4 + b2 / 64 }

  function D3(b2: byte): nat { b2 % 64 }

  /** The text without its padding. */
  function Unpadded(data: seq<byte>): seq<char>
  {
    if data == [] then []
    else if |data| == 1 then [Symbol(D0(data[0])), Symbol(D1(data[0], 0))]
    else if |data| == 2 then [Symbol(D0(data[0])), Symbol(D1(data[0], data[1])), Symbol(D2(data[1], 0))]
    else
      [Symbol(D0(data[0])), Symbol(D1(data[0], data[1])), Symbol(D2(data[1], data[2])), Symbol(D3(data[2]))]
      + Unpadded(data[3..])
  }

  function Padding(n: nat): seq<char>
  {
    if n % 3 == 1 then "==" else if n % 3 == 2 then "=" else ""
  }

  /** `trim_end_matches('=')`. */
  function Trim(s: seq<char>): seq<char>
  {
    if s != [] && s[|s| - 1] == '=' then Trim(s[..|s| - 1]) else s
  }

  /** The decoder holds 0, 2, 4 or 6 pending bits. */
  predicate IsWidth(bits: nat) { bits == 0 || bits == 2 || bits == 4 || bits == 6 }

  /** `1 << bits`. */
  function Pow2(bits: nat): (r: nat)
    requires IsWidth(bits)
    ensures r > 0
  {
    if bits == 0 then 1 else if bits == 2 then 4 else if bits == 4 then 16 else 64
  }

  /** `b >> bits`. */
  function Shr(b: nat, bits: nat): nat
    requires IsWidth(bits)
  {
    if bits == 0 then b else if bits == 2 then b / 4 else if bits == 4 then b / 16 else b / 64
  }

  /** `b & ((1 << bits) - 1)`. */
  function Low(b: nat, bits: nat): nat
    requires IsWidth(bits)
  {
    if bits == 0 then 0 else if bits == 2 then b % 4 else if bits == 4 then b % 16 else b % 64
  }

  /** Six more bits. */
  function Pushed(buf: nat, v: nat): nat { buf * 64 + v }

  /** The byte completed by six more bits, when there are at least two pending, fits in a `u8`. */
  lemma PushedFits(buf: nat, bits: nat, v: nat)
    requires IsWidth(bits) && buf < Pow2(bits) && v < 64
    ensures bits == 0 ==> Pushed(buf, v) < 64
    ensures bits >= 2 ==> Shr(Pushed(buf, v), bits - 2) < 256 && Low(Pushed(buf, v), bits - 2) < Pow2(bits - 2)
  {
  }

  /** A byte in front of what the rest decodes to. */
  function Emit(b: byte, rest: Option<seq<byte>>): Option<seq<byte>>
  {
    if rest.None? then None else Some([b] + rest.value)
  }

  /** The decoder from a state: `bits` pending bits with value `buf`. */
  function Bits(s: seq<char>, buf: nat, bits: nat): Option<seq<byte>>
    requires IsWidth(bits) && buf < Pow2(bits)
    decreases |s|
  {
    if s == [] then Some([])
    else
      match Digit(s[0])
      case None => None
      case Some(v) =>
        PushedFits(buf, bits, v);
        var b := Pushed(buf, v);
        if bits + 6 < 8 then Bits(s[1..], b, bits + 6)
        else Emit(Shr(b, bits - 2), Bits(s[1..], Low(b, bits - 2), bits - 2))
  }

  function Encode(data: seq<byte>): seq<char> { Unpadded(data) + Padding(|data|) }

  function Decode(s: seq<char>): Option<seq<byte>> { Bits(Trim(s), 0, 0) }

  /** The alphabet as ASCII codes: upper case, lower case, digits, plus and slash. */
  lemma SymbolCode(v: nat)
    requires v < 64
    ensures Symbol(v) as int ==
      if v < 26 then 65 + v else if v < 52 then 71 + v else if v < 62 then v - 4 else if v == 62 then 43 else 47
  {
  }

  /** A group of three bytes is its 24-bit number, the first byte highest, written in base 64. */
  lemma GroupDigits(b0: byte, b1: byte, b2: byte)
    ensures D0(b0) < 64 && D1(b0, b1) < 64 && D2(b1, b2) < 64 && D3(b2) < 64
    ensures 64 * (64 * (64 * D0(b0) + D1(b0, b1)) + D2(b1, b2)) + D3(b2) == 256 * (256 * b0 + b1) + b2
  {
  }

  /** An example of section 10 of RFC 4648. */
  lemma Example(data: seq<byte>)
    requires data == [0x66, 0x6F, 0x6F, 0x62]
    ensures Encode(data) == "Zm9vYg=="
  {
    var last := data[3..];
    assert last == [0x62];
    assert Unpadded(last) == "Yg";
    assert Unpadded(data) == "Zm9v" + "Yg";
  }

  // ---- Round trip ----

  lemma {:induction false} UnpaddedLast(data: seq<byte>)
    requires data != []
    ensures Unpadded(data) != [] && Unpadded(data)[|Unpadded(data)| - 1] != '='
    decreases |data|
  {
    hide Symbol, D0, D1, D2, D3;
    var b0, b1, b2 := data[0], if |data| > 1 then data[1] else 0, if |data| > 2 then data[2] else 0;
    FourDigits(b0, b1, b2);
    DigitSymbol(D1(b0, b1));
    DigitSymbol(D2(b1, b2));
    DigitSymbol(D3(b2));
    if |data| > 3 {
      UnpaddedLast(data[3..]);
    }
  }

  lemma TrimEncoded(data: seq<byte>)
    ensures Trim(Encode(data)) == Unpadded(data)
  {
    hide Unpadded;
    var u := Unpadded(data);
    if data != [] {
      UnpaddedLast(data);
      if |data| % 3 == 1 {
        TrimPadded(u + "=");
        assert u + "==" == u + "=" + "=";
      }
      TrimPadded(u);
      assert u + "" == u;
    } else {
      assert u == [] by { UnpaddedEmpty(); }
    }
  }

  lemma UnpaddedEmpty()
    ensures Unpadded([]) == []
  {
  }

  lemma TrimPadded(s: seq<char>)
    ensures Trim(s + "=") == Trim(s)
  {
    assert (s + "=")[..|s|] == s;
  }

  /** What the decoder makes of one character, in each of its four states. */
  lemma Bits0(s: seq<char>, v: nat)
    requires s != [] && v < 64 && s[0] == Symbol(v)
    ensures Bits(s, 0, 0) == Bits(s[1..], v, 6)
  {
    hide Symbol, Digit;
    DigitSymbol(v);
  }

  lemma Bits6(s: seq<char>, buf: nat, v: nat)
    requires s != [] && v < 64 && s[0] == Symbol(v) && buf < 64
    ensures Pushed(buf, v) / 16 < 256
    ensures Bits(s, buf, 6) == Emit(Pushed(buf, v) / 16, Bits(s[1..], Pushed(buf, v) % 16, 4))
  {
    hide Symbol, Digit;
    DigitSymbol(v);
  }

  lemma Bits4(s: seq<char>, buf: nat, v: nat)
    requires s != [] && v < 64 && s[0] == Symbol(v) && buf < 16
    ensures Pushed(buf, v) / 4 < 256
    ensures Bits(s, buf, 4) == Emit(Pushed(buf, v) / 4, Bits(s[1..], Pushed(buf, v) % 4, 2))
  {
    hide Symbol, Digit;
    DigitSymbol(v);
  }

  lemma Bits2(s: seq<char>, buf: nat, v: nat)
    requires s != [] && v < 64 && s[0] == Symbol(v) && buf < 4
    ensures Pushed(buf, v) < 256
    ensures Bits(s, buf, 2) == Emit(Pushed(buf, v), Bits(s[1..], 0, 0))
  {
    hide Symbol, Digit;
    DigitSymbol(v);
  }

  /** The bits of a byte that the decoder still holds after the first or the second digit of the group. */
  function High4(b1: byte): nat { b1 / 16 }

  function High2(b2: byte): nat { b2 / 64 }

  /** The arithmetic of one group: four six-bit digits are three bytes. */
  lemma FourDigits(b0: byte, b1: byte, b2: byte)
    ensures D0(b0) < 64 && D1(b0, b1) < 64 && D2(b1, b2) < 64 && D3(b2) < 64 && High4(b1) < 16 && High2(b2) < 4
    ensures Pushed(D0(b0), D1(b0, b1)) / 16 == b0 && Pushed(D0(b0), D1(b0, b1)) % 16 == High4(b1)
    ensures Pushed(High4(b1), D2(b1, b2)) / 4 == b1 && Pushed(High4(b1), D2(b1, b2)) % 4 == High2(b2)
    ensures Pushed(High2(b2), D3(b2)) == b2
  {
    assert Pushed(D0(b0), D1(b0, b1)) == 16 * b0 + High4(b1);
    assert Pushed(High4(b1), D2(b1, b2)) == 4 * b1 + High2(b2);
  }

  lemma SecondByte(s: seq<char>, b1: byte, b2: byte)
    requires s != [] && s[0] == Symbol(D2(b1, b2))
    ensures High4(b1) < 16 && High2(b2) < 4 && Bits(s, High4(b1), 4) == Emit(b1, Bits(s[1..], High2(b2), 2))
  {
    hide Bits, Symbol, D2, High4, High2, Pushed;
    FourDigits(0, b1, b2);
    Bits4(s, High4(b1), D2(b1, b2));
  }

  lemma ThirdByte(s: seq<char>, b2: byte)
    requires s != [] && s[0] == Symbol(D3(b2))
    ensures High2(b2) < 4 && Bits(s, High2(b2), 2) == Emit(b2, Bits(s[1..], 0, 0))
  {
    hide Bits, Symbol, D3, High2, Pushed;
    FourDigits(0, 0, b2);
    Bits2(s, High2(b2), D3(b2));
  }

  lemma BitsEnd(buf: nat, bits: nat)
    requires IsWidth(bits) && buf < Pow2(bits)
    ensures Bits([], buf, bits) == Some([])
  {
  }

  lemma {:induction false} BitsUnpadded(data: seq<byte>)
    ensures Bits(Unpadded(data), 0, 0) == Some(data)
    decreases |data|
  {
    hide Symbol, Bits, D0, D1, D2, D3, High4, High2, Pushed;
    var s := Unpadded(data);
    if data == [] {
      BitsEnd(0, 0);
    } else {
      var b0, b1, b2 := data[0], if |data| > 1 then data[1] else 0, if |data| > 2 then data[2] else 0;
      FourDigits(b0, b1, b2);
      Bits0(s, D0(b0));
      Bits6(s[1..], D0(b0), D1(b0, b1));
      assert s[1..][1..] == s[2..];
      if |data| == 1 {
        assert s[2..] == [] && data == [b0] + [];
        BitsEnd(High4(b1), 4);
      } else {
        SecondByte(s[2..], b1, b2);
        assert s[2..][1..] == s[3..];
        if |data| == 2 {
          assert s[3..] == [] && data == [b0] + ([b1] + []);
          BitsEnd(High2(b2), 2);
        } else {
          ThirdByte(s[3..], b2);
          assert s[3..][1..] == Unpadded(data[3..]);
          BitsUnpadded(data[3..]);
          assert data == [b0] + ([b1] + ([b2] + data[3..]));
        }
      }
    }
  }

  /** Decoding undoes encoding, for data of every length. */
  lemma DecodeEncode(data: seq<byte>)
    ensures Decode(Encode(data)) == Some(data)
  {
    hide Bits, Encode, Trim;
    TrimEncoded(data);
    BitsUnpadded(data);
  }

  /** The text is four characters for every three bytes begun. */
  lemma {:induction false} EncodedLength(data: seq<byte>)
    ensures |Encode(data)| == (|data| + 2) / 3 * 4
    decreases |data|
  {
    hide Encode;
    if data == [] {
      NothingEncoded();
    } else {
      var b1, b2 := if |data| > 1 then data[1] else 0, if |data| > 2 then data[2] else 0;
      ChunkStep(data, data[0], b1, b2);
      if |data| > 3 {
        EncodedLength(data[3..]);
      }
    }
  }

  lemma NothingEncoded()
    ensures Encode([]) == []
  {
  }

  // ---- The program's loops ----

  /** The four characters of a chunk of one, two or three bytes. */
  function Group(b0: byte, b1: byte, b2: byte, n: nat): seq<char>
  {
    [Symbol(D0(b0)),
     Symbol(D1(b0, b1)),
     if n > 1 then Symbol(D2(b1, b2)) else '=',
     if n > 2 then Symbol(D3(b2)) else '=']
  }

  lemma ChunkStep(data: seq<byte>, b0: byte, b1: byte, b2: byte)
    requires data != [] && b0 == data[0]
    requires b1 == if |data| > 1 then data[1] else 0
    requires b2 == if |data| > 2 then data[2] else 0
    ensures Encode(data) == Group(b0, b1, b2, |data|) + if |data| > 3 then Encode(data[3..]) else []
  {
    hide Symbol, D0, D1, D2, D3;
    if |data| == 3 {
      UnpaddedEmpty();
      assert data[3..] == [];
    }
  }

  method EncodeText(data: seq<byte>) returns (text: seq<char>)
    ensures text == Encode(data)
  {
    hide Symbol, Encode, Group;
    text := [];
    var i := 0;
    EncodeEmpty();
    assert data[0..] == data;
    while i < |data|
      invariant 0 <= i <= |data|
      invariant Encode(data) == text + if i < |data| then Encode(data[i..]) else []
    {
      ghost var rest := data[i..];
      var n := if |data| - i < 3 then |data| - i else 3;
      var b0 := data[i];
      var b1 := if n > 1 then data[i + 1] else 0;
      var b2 := if n > 2 then data[i + 2] else 0;
      ChunkStep(rest, b0, b1, b2);
      GroupSize(b0, b1, b2, n, |rest|);
      text := text + Group(b0, b1, b2, n);
      assert |rest| > 3 ==> rest[3..] == data[i + 3..];
      i := i + n;
    }
  }

  lemma EncodeEmpty()
    ensures Encode([]) == []
  {
  }

  lemma GroupSize(b0: byte, b1: byte, b2: byte, n: nat, m: nat)
    requires n == m || 3 <= n <= m
    ensures Group(b0, b1, b2, n) == Group(b0, b1, b2, m)
  {
  }

  /** The whole output, given the bytes so far and what the rest decodes to. */
  function Join(out: seq<byte>, rest: Option<seq<byte>>): Option<seq<byte>>
  {
    if rest.None? then None else Some(out + rest.value)
  }

  lemma JoinEmit(out: seq<byte>, b: byte, rest: Option<seq<byte>>)
    ensures Join(out, Emit(b, rest)) == Join(out + [b], rest)
    ensures Join([], rest) == rest && Join(out, Some([])) == Some(out) && Join(out, None) == None
  {
    if rest.Some? {
      assert out + ([b] + rest.value) == out + [b] + rest.value;
      assert [] + rest.value == rest.value;
    }
    assert out + [] == out;
  }

  method DecodeText(s: seq<char>) returns (r: Option<seq<byte>>)
    ensures r == Decode(s)
  {
    hide Join, Emit, Digit, Trim;
    var t := Trim(s);
    var out: seq<byte> := [];
    var buf: nat, bits: nat := 0, 0;
    assert t[0..] == t;
    JoinEmit([], 0, Bits(t, 0, 0));
    for i := 0 to |t|
      invariant IsWidth(bits) && buf < Pow2(bits)
      invariant Decode(s) == Join(out, Bits(t[i..], buf, bits))
    {
      assert t[i..][0] == t[i] && t[i..][1..] == t[i + 1..];
      var digit := Digit(t[i]);
      JoinEmit(out, 0, None);
      if digit.None? {
        return None;
      }
      DigitBound(t[i]);
      PushedFits(buf, bits, digit.value);
      var b := Pushed(buf, digit.value);
      if bits + 6 >= 8 {
        bits := bits - 2;
        JoinEmit(out, Shr(b, bits), Bits(t[i + 1..], Low(b, bits), bits));
        out := out + [Shr(b, bits)];
        buf := Low(b, bits);
      } else {
        bits := bits + 6;
        buf := b;
      }
    }
    JoinEmit(out, 0, None);
    r := Some(out);
  }

  lemma DigitBound(c: char)
    ensures Digit(c).Some? ==> Digit(c).value < 64
  {
  }
}
