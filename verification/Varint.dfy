/** LEB128 variable-length integers and zigzag-coded signed integers. */
module Varint {
  import opened Bytes
  import opened Options

  /** Seven bits per byte, lowest first; the top bit says that more bytes follow. */
  function EncVarint(v: nat): (b: seq<byte>)
    ensures |b| > 0
  {
    if v < 128 then [v] else [v % 128 + 128] + EncVarint(v / 128)
  }

  /**
   * What a reader makes of `data` after `n` bytes of the same number: the value of the rest
   * and the bytes it takes.  The tenth byte may hold only the last of the 64 bits.
   */
  function DecVarintFrom(data: seq<byte>, n: nat): (r: Option<(nat, nat)>)
    ensures r.Some? ==> 0 < r.value.1 <= |data|
    decreases |data|
  {
    if data == [] then None
    else if n >= 9 then (if data[0] > 1 then None else Some((data[0], 1)))
    else if data[0] < 128 then Some((data[0], 1))
    else
      match DecVarintFrom(data[1..], n + 1)
      case None => None
      case Some((v, k)) => Some((data[0] - 128 + 128 * v, k + 1))
  }

  function DecVarint(data: seq<byte>): (r: Option<(nat, nat)>)
    ensures r.Some? ==> 0 < r.value.1 <= |data|
  {
    DecVarintFrom(data, 0)
  }

  function Pow128(k: nat): (r: nat)
    ensures r > 0
  {
    if k == 0 then 1 else 128 * Pow128(k - 1)
  }

  lemma TenBytesHold64Bits()
    ensures 2 * Pow128(9) == U64_LIMIT
  {
  }

  lemma LessCancel(a: nat, b: nat, p: nat)
    ensures a * p < b * p ==> a < b
  {
  }

  lemma LessTimes(a: nat, b: nat, p: nat)
    requires a <= b
    ensures a * p <= b * p
  {
  }

  lemma DropGroup(v: nat, n: nat)
    ensures (v / 128) * Pow128(n + 1) <= v * Pow128(n)
  {
  }

  lemma {:induction false} DecEncVarintFrom(v: nat, n: nat, rest: seq<byte>)
    requires n <= 9 && v * Pow128(n) < U64_LIMIT
    ensures DecVarintFrom(EncVarint(v) + rest, n) == Some((v, |EncVarint(v)|))
    decreases v
  {
    var data := EncVarint(v) + rest;
    if n == 9 {
      TenBytesHold64Bits();
      LessCancel(v, 2, Pow128(9));
    } else if v >= 128 {
      DropGroup(v, n);
      DecEncVarintFrom(v / 128, n + 1, rest);
      assert data[1..] == EncVarint(v / 128) + rest;
    }
  }

  /** Every 64-bit number reads back, with the exact length, whatever follows it. */
  lemma DecEncVarint(v: nat, rest: seq<byte>)
    requires v < U64_LIMIT
    ensures DecVarint(EncVarint(v) + rest) == Some((v, |EncVarint(v)|))
  {
    DecEncVarintFrom(v, 0, rest);
  }

  /** As few bytes as seven bits each allow. */
  lemma {:induction false} EncVarintLength(v: nat)
    ensures var n := |EncVarint(v)|; v < Pow128(n) && (n > 1 ==> Pow128(n - 1) <= v)
    decreases v
  {
    if v >= 128 {
      EncVarintLength(v / 128);
      var n := |EncVarint(v / 128)|;
      assert |EncVarint(v)| == n + 1 && Pow128(n + 1) == 128 * Pow128(n);
      if n > 1 {
        assert Pow128(n) == 128 * Pow128(n - 1);
      }
    }
  }

  /** What is read always fits 64 bits, in at most ten bytes. */
  lemma {:induction false} DecVarintRange(data: seq<byte>, n: nat)
    requires n <= 9
    ensures DecVarintFrom(data, n).Some? ==>
      DecVarintFrom(data, n).value.0 * Pow128(n) < U64_LIMIT && DecVarintFrom(data, n).value.1 <= 10 - n
    decreases 9 - n
  {
    TenBytesHold64Bits();
    if DecVarintFrom(data, n).Some? && n < 9 {
      Pow128Grows(n);
      if data[0] >= 128 {
        DecVarintRange(data[1..], n + 1);
        var v := DecVarintFrom(data[1..], n + 1).value.0;
        LowBits(data[0] - 128, v, n);
      } else {
        assert data[0] * Pow128(n) <= 127 * Pow128(n);
      }
    }
  }

  lemma {:induction false} Pow128Grows(n: nat)
    requires n < 9
    ensures 128 * Pow128(n) <= Pow128(9)
    ensures exists q: nat :: q > 0 && Pow128(n) * q == U64_LIMIT && q % 128 == 0
    decreases 9 - n
  {
    TenBytesHold64Bits();
    if n == 8 {
      assert Pow128(9) == 128 * Pow128(8);
      assert Pow128(8) * 256 == U64_LIMIT;
    } else {
      Pow128Grows(n + 1);
      var q: nat :| q > 0 && Pow128(n + 1) * q == U64_LIMIT && q % 128 == 0;
      assert Pow128(n) * (128 * q) == U64_LIMIT;
      assert (128 * q) % 128 == 0;
    }
  }

  lemma LowBits(low: nat, v: nat, n: nat)
    requires n < 9 && low < 128 && v * Pow128(n + 1) < U64_LIMIT
    ensures (low + 128 * v) * Pow128(n) < U64_LIMIT
  {
    Pow128Grows(n);
    var p := Pow128(n);
    var q: nat :| q > 0 && p * q == U64_LIMIT && q % 128 == 0;
    assert v * (128 * p) == (128 * v) * p;
    LessCancel(128 * v, q, p);
    NextMultiple(v, q);
    LessTimes(low + 128 * v + 1, q, p);
    assert (low + 128 * v + 1) * p == (low + 128 * v) * p + p;
  }

  lemma NextMultiple(v: nat, q: nat)
    requires 128 * v < q && q % 128 == 0
    ensures 128 * v + 128 <= q
  {
  }

  method WriteVarint(val: nat, buf: seq<byte>) returns (out: seq<byte>)
    ensures out == buf + EncVarint(val)
  {
    var v := val;
    out := buf;
    var more := true;
    while more
      invariant buf + EncVarint(val) == out + if more then EncVarint(v) else []
      decreases more, v
    {
      var b: byte := v % 128;
      v := v / 128;
      if v != 0 {
        b := b + 128;
      }
      out := out + [b];
      more := v != 0;
    }
  }

  /** `x << 7 * n`. */
  function Shl(x: nat, n: nat): nat { x * Pow128(n) }

  /** The whole number, given `val` from its first `n` bytes and what the rest decodes to. */
  function Resume(val: nat, n: nat, rest: Option<(nat, nat)>): Option<(nat, nat)>
  {
    match rest
    case None => None
    case Some((v, k)) => Some((val + Shl(v, n), n + k))
  }

  lemma ResumeStep(val: nat, n: nat, data: seq<byte>)
    requires n < 9 && data != [] && data[0] >= 128
    ensures Resume(val, n, DecVarintFrom(data, n))
         == Resume(val + Shl(data[0] - 128, n), n + 1, DecVarintFrom(data[1..], n + 1))
  {
    var rest := DecVarintFrom(data[1..], n + 1);
    if rest.Some? {
      GroupSum(val, data[0] - 128, rest.value.0, n);
    }
  }

  lemma ResumeStart(rest: Option<(nat, nat)>)
    ensures Resume(0, 0, rest) == rest
  {
  }

  method ReadVarint(data: seq<byte>) returns (r: Option<(nat, nat)>)
    ensures r == DecVarint(data)
  {
    var val: nat, n: nat := 0, 0;
    assert data[0..] == data && Pow128(0) == 1;
    ResumeStart(DecVarint(data));
    hide Pow128, Shl;
    while n < |data|
      invariant n <= |data| && n <= 9
      // The next group's bits are above every bit of `val`, so `|=` adds it.
      invariant val < Pow128(n)
      invariant DecVarint(data) == Resume(val, n, DecVarintFrom(data[n..], n))
    {
      var b := data[n];
      assert data[n..][0] == b && data[n..][1..] == data[n + 1..];
      if n >= 9 {
        if b > 1 {
          return None;
        }
        return Some((val + Shl(b, n), n + 1));
      }
      if b < 128 {
        return Some((val + Shl(b, n), n + 1));
      }
      ResumeStep(val, n, data[n..]);
      AddGroup(val, b, n);
      val := val + Shl(b - 128, n);
      n := n + 1;
    }
    r := None;
  }

  lemma AddGroup(val: nat, b: byte, n: nat)
    requires val < Pow128(n) && b >= 128
    ensures val + Shl(b - 128, n) < Pow128(n + 1)
  {
  }

  lemma GroupSum(val: nat, low: nat, v: nat, n: nat)
    ensures val + (low + 128 * v) * Pow128(n) == val + low * Pow128(n) + v * Pow128(n + 1)
  {
  }

  // ---- Zigzag ----

  /** Exclusive or with all ones. */
  function Flip(u: nat): (r: nat)
    requires u < U64_LIMIT
    ensures r < U64_LIMIT
  {
    U64_LIMIT - 1 - u
  }

  /** `(v << 1) ^ (v >> 63)` on 64-bit words: the second operand is all zeros or all ones. */
  function Zigzag(v: int): (u: nat)
    requires IsI64(v)
    ensures u < U64_LIMIT
  {
    var shifted := 2 * I64Bits(v) % U64_LIMIT;
    if v < 0 then Flip(shifted) else shifted
  }

  /** `(u >> 1) ^ -(u & 1)`. */
  function Unzigzag(u: nat): (v: int)
    requires u < U64_LIMIT
    ensures IsI64(v)
  {
    BitsI64(if u % 2 == 1 then Flip(u / 2) else u / 2)
  }

  /** Zigzag is a bijection between `i64` and `u64`, numbering 0, -1, 1, -2, 2, … in order of magnitude. */
  lemma ZigzagRoundTrip(v: int)
    requires IsI64(v)
    ensures Unzigzag(Zigzag(v)) == v
    ensures Zigzag(v) == if v >= 0 then 2 * v else -2 * v - 1
  {
  }

  lemma UnzigzagRoundTrip(u: nat)
    requires u < U64_LIMIT
    ensures Zigzag(Unzigzag(u)) == u
  {
  }
}
