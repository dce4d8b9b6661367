/** Column values and rows: their stored bytes, and the keys of UNIQUE indexes. */
module Values {
  import opened Bytes
  import opened Options
  import opened Varint

  /** A `Real` is its 64 bits; a `Text` is its UTF-8 bytes. */
  datatype Value = Null | Integer(i: int) | Real(bits: nat) | Text(utf8: seq<byte>) | Blob(bytes: seq<byte>)

  type Row = seq<Value>

  const MAX_VALUE_LEN := 256 * 1024 * 1024

  const MAX_COLUMNS := 4096

  predicate Continuation(b: byte) { 0x80 <= b <= 0xBF }

  /** How many bytes the character that starts `b` takes, 0 if it is not well-formed UTF-8. */
  function CharLength(b: seq<byte>): (n: nat)
    requires b != []
    ensures n <= |b|
  {
    if b[0] < 0x80 then 1
    else if |b| >= 2 && 0xC2 <= b[0] <= 0xDF && Continuation(b[1]) then 2
    else if |b| >= 3 && 0xE0 <= b[0] <= 0xEF && Continuation(b[1]) && Continuation(b[2])
      && (b[0] == 0xE0 ==> b[1] >= 0xA0) && (b[0] == 0xED ==> b[1] <= 0x9F) then 3
    else if |b| >= 4 && 0xF0 <= b[0] <= 0xF4 && Continuation(b[1]) && Continuation(b[2]) && Continuation(b[3])
      && (b[0] == 0xF0 ==> b[1] >= 0x90) && (b[0] == 0xF4 ==> b[1] <= 0x8F) then 4
    else 0
  }

  /** `str::from_utf8` succeeds. */
  predicate IsUtf8(b: seq<byte>)
    decreases |b|
  {
    b == [] || (CharLength(b) > 0 && IsUtf8(b[CharLength(b)..]))
  }

  /** What a value of the program can be: machine integers, 64-bit floats, valid text. */
  predicate IsValue(v: Value)
  {
    match v
    case Null => true
    case Integer(i) => IsI64(i)
    case Real(bits) => bits < U64_LIMIT
    case Text(b) => IsUtf8(b) && |b| < U64_LIMIT
    case Blob(b) => |b| < U64_LIMIT
  }

  predicate IsRow(row: Row) { |row| < U64_LIMIT && forall k :: 0 <= k < |row| ==> IsValue(row[k]) }

  /** A value that a reader accepting at most `limit` bytes of text or blob can read. */
  predicate Within(v: Value, limit: nat)
  {
    (v.Text? ==> |v.utf8| <= limit) && (v.Blob? ==> |v.bytes| <= limit)
  }

  function EncValue(v: Value): (b: seq<byte>)
    requires IsValue(v)
    ensures |b| > 0
  {
    match v
    case Null => [0]
    case Integer(i) => [1] + EncVarint(Zigzag(i))
    case Real(bits) => [2] + Le(bits, 8)
    case Text(t) => [3] + EncVarint(|t|) + t
    case Blob(t) => [4] + EncVarint(|t|) + t
  }

  /** A length and that many bytes. */
  function DecBytes(data: seq<byte>, limit: nat): (r: Option<(seq<byte>, nat)>)
    ensures r.Some? ==> 0 < r.value.1 <= |data|
  {
    match DecVarint(data)
    case None => None
    case Some((len, n)) =>
      if len > limit || |data| < n + len then None else Some((data[n..n + len], n + len))
  }

  /** `Value::deserialize` with its length guard as a parameter. */
  function DecValueUpTo(data: seq<byte>, limit: nat): (r: Option<(Value, nat)>)
    ensures r.Some? ==> 0 < r.value.1 <= |data|
  {
    if data == [] then None
    else if data[0] == 0 then Some((Null, 1))
    else if data[0] == 1 then
      match DecVarint(data[1..])
      case None => None
      case Some((u, n)) =>
        DecVarintRange(data[1..], 0);
        Some((Integer(Unzigzag(u)), 1 + n))
    else if data[0] == 2 then
      if |data| < 9 then None else Some((Real(FromLe(data[1..9])), 9))
    else if data[0] == 3 || data[0] == 4 then
      match DecBytes(data[1..], limit)
      case None => None
      case Some((b, n)) =>
        if data[0] == 4 then Some((Blob(b), 1 + n))
        else if IsUtf8(b) then Some((Text(b), 1 + n))
        else None
    else None
  }

  function DecValue(data: seq<byte>): (r: Option<(Value, nat)>)
    ensures r.Some? ==> 0 < r.value.1 <= |data|
  {
    DecValueUpTo(data, MAX_VALUE_LEN)
  }

  lemma DecEncBytes(b: seq<byte>, rest: seq<byte>, limit: nat)
    requires |b| < U64_LIMIT
    ensures DecBytes(EncVarint(|b|) + b + rest, limit) ==
      if |b| <= limit then Some((b, |EncVarint(|b|)| + |b|)) else None
  {
    var head := EncVarint(|b|);
    DecEncVarint(|b|, b + rest);
    assert head + b + rest == head + (b + rest);
    assert (head + b + rest)[|head|..|head| + |b|] == b;
  }

  /** Exactly the values within the limit read back, with the exact length, whatever follows. */
  lemma DecEncValueUpTo(v: Value, rest: seq<byte>, limit: nat)
    requires IsValue(v)
    ensures DecValueUpTo(EncValue(v) + rest, limit) ==
      if Within(v, limit) then Some((v, |EncValue(v)|)) else None
  {
    hide IsUtf8, EncVarint, DecBytes, Le, Zigzag;
    match v
    case Null =>
    case Integer(i) => DecEncInteger(i, rest, limit);
    case Real(bits) => DecEncReal(bits, rest, limit);
    case Text(b) => DecEncLong(v, b, rest, limit);
    case Blob(b) => DecEncLong(v, b, rest, limit);
  }

  lemma DecEncLong(v: Value, b: seq<byte>, rest: seq<byte>, limit: nat)
    requires IsValue(v) && (v == Text(b) || v == Blob(b))
    ensures DecValueUpTo(EncValue(v) + rest, limit) ==
      if |b| <= limit then Some((v, |EncValue(v)|)) else None
  {
    hide IsUtf8, EncVarint, DecBytes;
    var data := EncValue(v) + rest;
    assert data[0] == if v.Text? then 3 else 4;
    assert data[1..] == EncVarint(|b|) + b + rest;
    DecEncBytes(b, rest, limit);
  }

  lemma DecEncInteger(i: int, rest: seq<byte>, limit: nat)
    requires IsI64(i)
    ensures DecValueUpTo(EncValue(Integer(i)) + rest, limit) == Some((Integer(i), |EncValue(Integer(i))|))
  {
    hide DecVarint, EncVarint, Zigzag, Unzigzag;
    assert (EncValue(Integer(i)) + rest)[1..] == EncVarint(Zigzag(i)) + rest;
    ZigzagBound(i);
    DecEncVarint(Zigzag(i), rest);
    ZigzagRoundTrip(i);
  }

  lemma DecEncReal(bits: nat, rest: seq<byte>, limit: nat)
    requires bits < U64_LIMIT
    ensures DecValueUpTo(EncValue(Real(bits)) + rest, limit) == Some((Real(bits), |EncValue(Real(bits))|))
  {
    hide FromLe;
    var data := EncValue(Real(bits)) + rest;
    assert |Le(bits, 8)| == 8;
    assert data[1..9] == Le(bits, 8);
    RealRoundTrip(bits);
  }

  lemma RealRoundTrip(bits: nat)
    requires bits < U64_LIMIT
    ensures FromLe(Le(bits, 8)) == bits
  {
    Pow256Values();
    FromLeLe(bits, 8);
  }

  lemma ZigzagBound(i: int)
    requires IsI64(i)
    ensures 0 <= Zigzag(i) < U64_LIMIT
  {
  }

  /** `Value::deserialize` gives back every value whose text or blob is at most 256 MiB, and no other. */
  lemma DecEncValue(v: Value, rest: seq<byte>)
    requires IsValue(v)
    ensures DecValue(EncValue(v) + rest) == if Within(v, MAX_VALUE_LEN) then Some((v, |EncValue(v)|)) else None
  {
    DecEncValueUpTo(v, rest, MAX_VALUE_LEN);
  }

  /** No stored value is the beginning of another: the bytes determine the value and where it ends. */
  lemma ValuePrefixFree(v: Value, w: Value, x: seq<byte>, y: seq<byte>)
    requires IsValue(v) && IsValue(w)
    requires EncValue(v) + x == EncValue(w) + y
    ensures v == w && x == y
  {
    hide EncValue, DecValueUpTo, IsValue;
    DecEncValueUpTo(v, x, U64_LIMIT) by { WithinAny(v); }
    DecEncValueUpTo(w, y, U64_LIMIT) by { WithinAny(w); }
    WithinAny(v);
    WithinAny(w);
    assert x == (EncValue(v) + x)[|EncValue(v)|..];
    assert y == (EncValue(w) + y)[|EncValue(w)|..];
  }

  lemma WithinAny(v: Value)
    requires IsValue(v)
    ensures Within(v, U64_LIMIT)
  {
  }

  // ---- Rows ----

  function EncValues(row: Row): seq<byte>
    requires forall k :: 0 <= k < |row| ==> IsValue(row[k])
  {
    if row == [] then [] else EncValue(row[0]) + EncValues(row[1..])
  }

  function EncRow(row: Row): (b: seq<byte>)
    requires IsRow(row)
    ensures |b| > 0
  {
    EncVarint(|row|) + EncValues(row)
  }

  /** `n` values, one after another. */
  function DecValues(data: seq<byte>, n: nat): (r: Option<Row>)
    decreases n
  {
    if n == 0 then Some([])
    else
      match DecValue(data)
      case None => None
      case Some((v, k)) =>
        match DecValues(data[k..], n - 1)
        case None => None
        case Some(vs) => Some([v] + vs)
  }

  /** Bytes after the last column are ignored. */
  function DecRow(data: seq<byte>): Option<Row>
  {
    if data == [] then None
    else
      match DecVarint(data)
      case None => None
      case Some((count, n)) => if count > MAX_COLUMNS then None else DecValues(data[n..], count)
  }

  predicate RowWithin(row: Row) { forall k :: 0 <= k < |row| ==> Within(row[k], MAX_VALUE_LEN) }

  lemma {:induction false} DecEncValues(row: Row, rest: seq<byte>)
    requires forall k :: 0 <= k < |row| ==> IsValue(row[k])
    ensures DecValues(EncValues(row) + rest, |row|) == if RowWithin(row) then Some(row) else None
    decreases |row|
  {
    hide EncValue, DecValue, IsValue, Within;
    if row != [] {
      var head, tail := EncValue(row[0]), EncValues(row[1..]) + rest;
      assert EncValues(row) + rest == head + tail;
      assert (head + tail)[|head|..] == tail;
      DecEncValue(row[0], tail);
      DecEncValues(row[1..], rest);
      RowWithinStep(row);
      assert row == [row[0]] + row[1..];
    }
  }

  lemma RowWithinStep(row: Row)
    requires row != []
    ensures RowWithin(row) <==> Within(row[0], MAX_VALUE_LEN) && RowWithin(row[1..])
  {
  }

  /** Exactly the rows of at most 4096 columns, each within 256 MiB, are read back. */
  lemma DecEncRow(row: Row, rest: seq<byte>)
    requires IsRow(row)
    ensures DecRow(EncRow(row) + rest) == if |row| <= MAX_COLUMNS && RowWithin(row) then Some(row) else None
  {
    hide EncValues, DecVarint, EncVarint, RowWithin;
    var head, tail := EncVarint(|row|), EncValues(row) + rest;
    assert EncRow(row) + rest == head + tail;
    assert (head + tail)[|head|..] == tail;
    DecEncVarint(|row|, tail);
    DecEncValues(row, rest);
  }

  /** No stored row is the beginning of another. */
  lemma {:induction false} ValuesPrefixFree(row: Row, other: Row, x: seq<byte>, y: seq<byte>)
    requires |row| == |other|
    requires forall k :: 0 <= k < |row| ==> IsValue(row[k])
    requires forall k :: 0 <= k < |other| ==> IsValue(other[k])
    requires EncValues(row) + x == EncValues(other) + y
    ensures row == other && x == y
    decreases |row|
  {
    hide EncValue, IsValue;
    if row == [] {
      assert EncValues(row) + x == x && EncValues(other) + y == y;
    } else {
      var a, b := EncValues(row[1..]) + x, EncValues(other[1..]) + y;
      assert EncValues(row) + x == EncValue(row[0]) + a;
      assert EncValues(other) + y == EncValue(other[0]) + b;
      ValuePrefixFree(row[0], other[0], a, b);
      ValuesPrefixFree(row[1..], other[1..], x, y);
      assert row == [row[0]] + row[1..] && other == [other[0]] + other[1..];
    }
  }

  lemma RowPrefixFree(row: Row, other: Row, x: seq<byte>, y: seq<byte>)
    requires IsRow(row) && IsRow(other)
    requires EncRow(row) + x == EncRow(other) + y
    ensures row == other && x == y
  {
    hide EncValues, EncVarint, DecVarint;
    var a, b := EncValues(row) + x, EncValues(other) + y;
    assert EncRow(row) + x == EncVarint(|row|) + a;
    assert EncRow(other) + y == EncVarint(|other|) + b;
    DecEncVarint(|row|, a);
    DecEncVarint(|other|, b);
    assert a == (EncVarint(|row|) + a)[|EncVarint(|row|)|..];
    assert b == (EncVarint(|other|) + b)[|EncVarint(|other|)|..];
    ValuesPrefixFree(row, other, x, y);
  }

  method SerializeRow(row: Row) returns (buf: seq<byte>)
    requires IsRow(row)
    ensures buf == EncRow(row)
  {
    hide EncValue, IsValue;
    buf := WriteVarint(|row|, []);
    assert row[0..] == row;
    for i := 0 to |row|
      invariant EncRow(row) == buf + EncValues(row[i..])
    {
      assert row[i..][0] == row[i] && row[i..][1..] == row[i + 1..];
      buf := buf + EncValue(row[i]);
    }
  }

  /** The row, given its first columns and what the rest decodes to. */
  function Prepend(row: Row, rest: Option<Row>): Option<Row>
  {
    if rest.None? then None else Some(row + rest.value)
  }

  lemma PrependStep(row: Row, data: seq<byte>, n: nat)
    ensures DecValue(data).None? ==> Prepend(row, DecValues(data, n + 1)) == None
    ensures DecValue(data).Some? ==>
      var (v, k) := DecValue(data).value;
      Prepend(row, DecValues(data, n + 1)) == Prepend(row + [v], DecValues(data[k..], n))
  {
    hide DecValue;
    DecValueBound(data);
    if DecValue(data).Some? {
      var (v, k) := DecValue(data).value;
      var rest := DecValues(data[k..], n);
      if rest.Some? {
        assert row + ([v] + rest.value) == row + [v] + rest.value;
      }
    }
  }

  lemma PrependEnds(row: Row, rest: Option<Row>)
    ensures Prepend([], rest) == rest && Prepend(row, Some([])) == Some(row)
  {
    assert rest.Some? ==> [] + rest.value == rest.value;
    assert row + [] == row;
  }

  method DeserializeRow(data: seq<byte>) returns (r: Option<Row>)
    ensures r == DecRow(data)
  {
    hide DecValue;
    if data == [] {
      return None;
    }
    var header := ReadVarint(data);
    if header.None? {
      return None;
    }
    var count: nat, offset: nat := header.value.0, header.value.1;
    if count > MAX_COLUMNS {
      return None;
    }
    r := DecodeColumns(data[offset..], count);
  }

  method DecodeColumns(data: seq<byte>, count: nat) returns (r: Option<Row>)
    ensures r == DecValues(data, count)
  {
    hide DecValue, DecValues, Prepend;
    var row: Row := [];
    var offset: nat := 0;
    assert data[0..] == data;
    PrependEnds([], DecValues(data, count));
    for i := 0 to count
      invariant offset <= |data|
      invariant DecValues(data, count) == Prepend(row, DecValues(data[offset..], count - i))
    {
      PrependStep(row, data[offset..], count - i - 1);
      DecValueBound(data[offset..]);
      var next := DecValue(data[offset..]);
      if next.None? {
        return None;
      }
      assert data[offset..][next.value.1..] == data[offset + next.value.1..];
      row := row + [next.value.0];
      offset := offset + next.value.1;
    }
    NoColumns(data[offset..]);
    PrependEnds(row, None);
    r := Some(row);
  }

  lemma NoColumns(data: seq<byte>)
    ensures DecValues(data, 0) == Some([])
  {
  }

  lemma DecValueBound(data: seq<byte>)
    ensures DecValue(data).Some? ==> 0 < DecValue(data).value.1 <= |data|
  {
  }
}
