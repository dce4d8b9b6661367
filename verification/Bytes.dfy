/** Byte strings and the little-endian integers stored in them. */
module Bytes {
  type byte = x: int | 0 <= x < 256

  const U16_LIMIT := 0x1_0000
  const U32_LIMIT := 0x1_0000_0000
  const U64_LIMIT := 0x1_0000_0000_0000_0000
  const I64_MIN := -0x8000_0000_0000_0000
  const I64_MAX := 0x7FFF_FFFF_FFFF_FFFF

  function Pow256(k: nat): (r: nat)
    ensures r > 0
  {
    if k == 0 then 1 else 256 * Pow256(k - 1)
  }

  /** `n.to_le_bytes()` at a width of `k` bytes. */
  function Le(n: nat, k: nat): (b: seq<byte>)
    ensures |b| == k
    decreases k
  {
    if k == 0 then [] else [n % 256] + Le(n / 256, k - 1)
  }

  /** `from_le_bytes` at the width of the slice. */
  function FromLe(b: seq<byte>): nat
  {
    if b == [] then 0 else b[0] + 256 * FromLe(b[1..])
  }

  lemma {:induction false} FromLeLe(n: nat, k: nat)
    requires n < Pow256(k)
    ensures FromLe(Le(n, k)) == n
    decreases k
  {
    if k > 0 {
      FromLeLe(n / 256, k - 1);
      assert Le(n, k)[1..] == Le(n / 256, k - 1);
    }
  }

  lemma {:induction false} LeFromLe(b: seq<byte>)
    ensures FromLe(b) < Pow256(|b|)
    ensures Le(FromLe(b), |b|) == b
  {
    if b != [] {
      LeFromLe(b[1..]);
      assert b == [b[0]] + b[1..];
    }
  }

  lemma Pow256Values()
    ensures Pow256(2) == U16_LIMIT && Pow256(4) == U32_LIMIT && Pow256(8) == U64_LIMIT
  {
  }

  lemma U32RoundTrip(n: nat)
    requires n < U32_LIMIT
    ensures FromLe(Le(n, 4)) == n
  {
    Pow256Values();
    FromLeLe(n, 4);
  }

  /** Two's complement: an `i64` as the `u64` with the same bits, and back. */
  function I64Bits(i: int): nat
    requires I64_MIN <= i <= I64_MAX
  {
    if i >= 0 then i else i + U64_LIMIT
  }

  function BitsI64(u: nat): (i: int)
    requires u < U64_LIMIT
    ensures I64_MIN <= i <= I64_MAX
  {
    if u <= I64_MAX then u else u - U64_LIMIT
  }

  predicate IsI64(i: int) { I64_MIN <= i <= I64_MAX }

  function LeI64(i: int): (b: seq<byte>)
    requires IsI64(i)
    ensures |b| == 8
  {
    Le(I64Bits(i), 8)
  }

  function FromLeI64(b: seq<byte>): (i: int)
    requires |b| == 8
    ensures IsI64(i)
  {
    LeFromLe(b);
    Pow256Values();
    BitsI64(FromLe(b))
  }

  lemma I64RoundTrip(i: int)
    requires IsI64(i)
    ensures FromLeI64(LeI64(i)) == i
  {
    Pow256Values();
    FromLeLe(I64Bits(i), 8);
  }

  method Thaw(p: seq<byte>) returns (a: array<byte>)
    ensures fresh(a) && a[..] == p
  {
    a := new byte[|p|];
    forall i | 0 <= i < |p| {
      a[i] := p[i];
    }
  }
}
