/** The CRC-32 checksum that guards every record of the Raft log and of the binlog. */
module Crc {
  import opened Bytes

  const POLYNOMIAL: bv32 := 0xEDB8_8320

  function Shift(c: bv32): bv32
  {
    if c & 1 != 0 then (c >> 1) ^ POLYNOMIAL else c >> 1
  }

  function ShiftBy(c: bv32, n: nat): bv32
  {
    if n == 0 then c else Shift(ShiftBy(c, n - 1))
  }

  /** The byte shifted right by `k`. */
  function Halved(b: byte, k: nat): (r: nat)
    ensures r <= b
  {
    if k == 0 then b else Halved(b, k - 1) / 2
  }

  predicate Bit(b: byte, k: nat) { Halved(b, k) % 2 == 1 }

  function If(c: bool, w: bv32): bv32 { if c then w else 0 }

  /** The byte as a 32-bit word, bit by bit. */
  function Word(b: byte): bv32
  {
    If(Bit(b, 0), 1) | If(Bit(b, 1), 2) | If(Bit(b, 2), 4) | If(Bit(b, 3), 8)
    | If(Bit(b, 4), 16) | If(Bit(b, 5), 32) | If(Bit(b, 6), 64) | If(Bit(b, 7), 128)
  }

  /** One byte goes into the register. */
  function ByteStep(c: bv32, b: byte): bv32 { ShiftBy(c ^ Word(b), 8) }

  function Complement(c: bv32): (r: nat)
    ensures r < U32_LIMIT
  {
    WordNumber(c ^ 0xFFFF_FFFF)
  }

  /** The register after the bytes of `data`, from its all-ones start. */
  function Register(data: seq<byte>): bv32
  {
    if data == [] then 0xFFFF_FFFF
    else ByteStep(Register(data[..|data| - 1]), data[|data| - 1])
  }

  function Crc32(data: seq<byte>): (r: nat)
    ensures r < U32_LIMIT
  {
    Complement(Register(data))
  }

  // ---- What the checksum detects ----

  /** The polynomial has its highest bit set, so a shift loses nothing. */
  lemma ShiftInjective(a: bv32, b: bv32)
    ensures Shift(a) == Shift(b) ==> a == b
  {
  }

  lemma {:induction false} ShiftByInjective(a: bv32, b: bv32, n: nat)
    ensures ShiftBy(a, n) == ShiftBy(b, n) ==> a == b
    decreases n
  {
    hide Shift;
    if n > 0 {
      ShiftInjective(ShiftBy(a, n - 1), ShiftBy(b, n - 1));
      ShiftByInjective(a, b, n - 1);
    }
  }

  lemma XorInjective(r: bv32, a: bv32, b: bv32)
    ensures r ^ a == r ^ b ==> a == b
    ensures a ^ r == b ^ r ==> a == b
  {
  }

  function WordNumber(x: bv32): (r: nat)
    ensures r < U32_LIMIT
  {
    x as nat
  }

  function NumberWord(n: nat): bv32
    requires n < U32_LIMIT
  {
    n as bv32
  }

  lemma NumberBack(x: bv32)
    ensures NumberWord(WordNumber(x)) == x
  {
  }

  function Digit(b: byte, k: nat): (r: nat)
  {
    if Bit(b, k) then 1 else 0
  }

  lemma HalfStep(b: byte, k: nat)
    ensures Halved(b, k) == 2 * Halved(b, k + 1) + Digit(b, k)
  {
  }

  /** The eight bits determine the byte. */
  lemma BitsOf(b: byte)
    ensures b == Digit(b, 0) + 2 * Digit(b, 1) + 4 * Digit(b, 2) + 8 * Digit(b, 3) + 16 * Digit(b, 4)
      + 32 * Digit(b, 5) + 64 * Digit(b, 6) + 128 * Digit(b, 7)
  {
    hide Digit, Halved;
    LowBits(b);
    HighBits(b);
  }

  lemma LowBits(b: byte)
    ensures b == Digit(b, 0) + 2 * Digit(b, 1) + 4 * Digit(b, 2) + 8 * Digit(b, 3) + 16 * Halved(b, 4)
  {
    assert Halved(b, 0) == b;
    hide Digit, Halved;
    HalfStep(b, 0);
    HalfStep(b, 1);
    HalfStep(b, 2);
    HalfStep(b, 3);
  }

  lemma HighBits(b: byte)
    ensures Halved(b, 4) == Digit(b, 4) + 2 * Digit(b, 5) + 4 * Digit(b, 6) + 8 * Digit(b, 7)
  {
    LowBits(b);
    hide Digit, Halved;
    HalfStep(b, 4);
    HalfStep(b, 5);
    HalfStep(b, 6);
    HalfStep(b, 7);
    var rest := Halved(b, 8);
    assert Halved(b, 4) == Digit(b, 4) + 2 * Digit(b, 5) + 4 * Digit(b, 6) + 8 * Digit(b, 7) + 16 * rest;
    assert rest == 0;
  }

  lemma SameBits(a: byte, b: byte)
    requires Word(a) == Word(b)
    ensures Bit(a, 0) == Bit(b, 0) && Bit(a, 1) == Bit(b, 1) && Bit(a, 2) == Bit(b, 2) && Bit(a, 3) == Bit(b, 3)
    ensures Bit(a, 4) == Bit(b, 4) && Bit(a, 5) == Bit(b, 5) && Bit(a, 6) == Bit(b, 6) && Bit(a, 7) == Bit(b, 7)
  {
    hide Bit;
  }

  lemma WordInjective(a: byte, b: byte)
    ensures Word(a) == Word(b) ==> a == b
  {
    hide Bit, Word;
    if Word(a) == Word(b) {
      SameBits(a, b);
      BitsOf(a);
      BitsOf(b);
    }
  }

  lemma ComplementInjective(a: bv32, b: bv32)
    ensures Complement(a) == Complement(b) ==> a == b
  {
    hide WordNumber, NumberWord;
    NumberBack(a ^ 0xFFFF_FFFF);
    NumberBack(b ^ 0xFFFF_FFFF);
    XorInjective(0xFFFF_FFFF, a, b);
  }

  lemma StepInjective(c: bv32, d: bv32, x: byte)
    ensures ByteStep(c, x) == ByteStep(d, x) ==> c == d
  {
    hide ShiftBy, Word;
    ShiftByInjective(c ^ Word(x), d ^ Word(x), 8);
    XorInjective(Word(x), c, d);
  }

  lemma StepReads(c: bv32, x: byte, y: byte)
    ensures ByteStep(c, x) == ByteStep(c, y) ==> x == y
  {
    hide ShiftBy, Word;
    ShiftByInjective(c ^ Word(x), c ^ Word(y), 8);
    XorInjective(c, Word(x), Word(y));
    WordInjective(x, y);
  }

  lemma RegisterStep(data: seq<byte>, x: byte)
    ensures Register(data + [x]) == ByteStep(Register(data), x)
  {
    hide ByteStep;
    assert (data + [x])[..|data|] == data;
  }

  /** Registers that differ go on differing while the same bytes follow. */
  lemma {:induction false} StaysDifferent(p: seq<byte>, q: seq<byte>, rest: seq<byte>)
    requires Register(p) != Register(q)
    ensures Register(p + rest) != Register(q + rest)
    decreases |rest|
  {
    hide Register, ByteStep;
    if rest == [] {
      assert p + rest == p && q + rest == q;
    } else {
      var n := |rest| - 1;
      StaysDifferent(p, q, rest[..n]);
      assert p + rest == (p + rest[..n]) + [rest[n]] && q + rest == (q + rest[..n]) + [rest[n]];
      RegisterStep(p + rest[..n], rest[n]);
      RegisterStep(q + rest[..n], rest[n]);
      StepInjective(Register(p + rest[..n]), Register(q + rest[..n]), rest[n]);
    }
  }

  /** Changing one byte changes the checksum. */
  lemma OneByteDetected(p: seq<byte>, i: nat, b: byte)
    requires i < |p| && b != p[i]
    ensures Crc32(p[i := b]) != Crc32(p)
  {
    hide Register, ByteStep, Complement;
    var front, rest := p[..i], p[i + 1..];
    RegisterStep(front, p[i]);
    RegisterStep(front, b);
    StepReads(Register(front), p[i], b);
    StaysDifferent(front + [p[i]], front + [b], rest);
    assert p == front + [p[i]] + rest && p[i := b] == front + [b] + rest;
    ComplementInjective(Register(p), Register(p[i := b]));
  }

  method ShiftByte(start: bv32) returns (c: bv32)
    ensures c == ShiftBy(start, 8)
  {
    c := start;
    for n := 0 to 8
      invariant c == ShiftBy(start, n)
    {
      if c & 1 != 0 {
        c := (c >> 1) ^ POLYNOMIAL;
      } else {
        c := c >> 1;
      }
    }
  }

  method Checksum(data: seq<byte>) returns (r: nat)
    ensures r == Crc32(data)
  {
    hide Shift, ShiftBy, Word, Complement;
    var c: bv32 := 0xFFFF_FFFF;
    for i := 0 to |data|
      invariant c == Register(data[..i])
    {
      assert data[..i + 1][..i] == data[..i];
      c := ShiftByte(c ^ Word(data[i]));
    }
    assert data[..|data|] == data;
    r := Complement(c);
  }

  lemma OneMoreByte(data: seq<byte>, k: nat, before: bv32, x: byte, after: bv32)
    requires k < |data| && data[k] == x && Register(data[..k]) == before && ByteStep(before, x) == after
    ensures Register(data[..k + 1]) == after
  {
    hide ByteStep, Register;
    RegisterStep(data[..k], x);
    assert data[..k] + [x] == data[..k + 1];
  }

  lemma DigitWord(d: byte)
    requires 0x31 <= d <= 0x39
    ensures Word(d) == if d == 0x31 then 0x31 else if d == 0x32 then 0x32 else if d == 0x33 then 0x33
      else if d == 0x34 then 0x34 else if d == 0x35 then 0x35 else if d == 0x36 then 0x36
      else if d == 0x37 then 0x37 else if d == 0x38 then 0x38 else 0x39
  {
    hide Bit;
    BitsOf(d);
  }

  /** The register after each of the digits 1 to 9. */
  lemma DigitSteps()
    ensures ByteStep(0xFFFF_FFFF, 0x31) == 0x7C23_1048
    ensures ByteStep(0x7C23_1048, 0x32) == 0xB0AC_BB32
    ensures ByteStep(0xB0AC_BB32, 0x33) == 0x77B7_9C2D
    ensures ByteStep(0x77B7_9C2D, 0x34) == 0x641C_1F5C
    ensures ByteStep(0x641C_1F5C, 0x35) == 0x340A_C5E3
    ensures ByteStep(0x340A_C5E3, 0x36) == 0xF68D_2C9E
    ensures ByteStep(0xF68D_2C9E, 0x37) == 0xAFFC_9660
    ensures ByteStep(0xAFFC_9660, 0x38) == 0x651F_2550
    ensures ByteStep(0x651F_2550, 0x39) == 0x340B_C6D9
  {
    hide Word;
    DigitWord(0x31);
    DigitWord(0x32);
    DigitWord(0x33);
    DigitWord(0x34);
    DigitWord(0x35);
    DigitWord(0x36);
    DigitWord(0x37);
    DigitWord(0x38);
    DigitWord(0x39);
  }

  /** The check value of this checksum: that of the text 123456789. */
  lemma CheckValue(data: seq<byte>)
    requires |data| == 9 && forall i :: 0 <= i < 9 ==> data[i] == 0x31 + i
    ensures Crc32(data) == 0xCBF4_3926
  {
    hide Register, ByteStep, Crc32;
    DigitSteps();
    NothingRead(data);
    OneMoreByte(data, 0, 0xFFFF_FFFF, 0x31, 0x7C23_1048);
    OneMoreByte(data, 1, 0x7C23_1048, 0x32, 0xB0AC_BB32);
    OneMoreByte(data, 2, 0xB0AC_BB32, 0x33, 0x77B7_9C2D);
    OneMoreByte(data, 3, 0x77B7_9C2D, 0x34, 0x641C_1F5C);
    OneMoreByte(data, 4, 0x641C_1F5C, 0x35, 0x340A_C5E3);
    OneMoreByte(data, 5, 0x340A_C5E3, 0x36, 0xF68D_2C9E);
    OneMoreByte(data, 6, 0xF68D_2C9E, 0x37, 0xAFFC_9660);
    OneMoreByte(data, 7, 0xAFFC_9660, 0x38, 0x651F_2550);
    OneMoreByte(data, 8, 0x651F_2550, 0x39, 0x340B_C6D9);
    assert data[..9] == data;
    RegisterValue(data, 0x340B_C6D9, 0xCBF4_3926);
  }

  lemma NothingRead(data: seq<byte>)
    ensures Register(data[..0]) == 0xFFFF_FFFF
  {
  }

  lemma RegisterValue(data: seq<byte>, c: bv32, r: nat)
    requires Register(data) == c && Complement(c) == r
    ensures Crc32(data) == r
  {
  }
}
