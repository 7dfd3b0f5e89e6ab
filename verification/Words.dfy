// Machine words of the Go source, as bounded natural numbers.

module Words {

  const TWO_8 := 0x100
  const TWO_16 := 0x1_0000
  const TWO_31 := 0x8000_0000
  const TWO_32 := 0x1_0000_0000
  const TWO_63 := 0x8000_0000_0000_0000
  const TWO_64 := 0x1_0000_0000_0000_0000

  type byte = n: nat | n < 0x100
  type uint16 = n: nat | n < 0x1_0000
  type uint32 = n: nat | n < 0x1_0000_0000
  type uint64 = n: nat | n < 0x1_0000_0000_0000_0000

  type int8 = n: int | -0x80 <= n < 0x80
  type int16 = n: int | -0x8000 <= n < 0x8000
  type int32 = n: int | -0x8000_0000 <= n < 0x8000_0000
  type int64 = n: int | -0x8000_0000_0000_0000 <= n < 0x8000_0000_0000_0000

  /** Go's `uint32(n)` for any integer: the low 32 bits. */
  function WrapU32(n: int): uint32 {
    n % TWO_32
  }

  // ----- bits -----

  function Pow2(n: nat): (p: nat)
    ensures p > 0
  {
    if n == 0 then 1 else 2 * Pow2(n - 1)
  }

  /** Bit j of w; shifts past the word read as zero. */
  predicate Bit(w: nat, j: nat) {
    if j == 0 then w % 2 == 1 else Bit(w / 2, j - 1)
  }

  lemma DivUnique(v: nat, d: nat, q: nat, r: nat)
    requires r < d && v == d * q + r
    ensures v / d == q
  {
    var p := v / d;
    assert d * p <= v < d * p + d;
    assert p < q ==> d * (p + 1) <= d * q;
    assert p > q ==> d * (q + 1) <= d * p;
  }

  lemma DivTwice(v: nat, m: nat)
    requires m > 0
    ensures v / 2 / m == v / (2 * m)
  {
    var q, r := v / 2 / m, v / 2 % m;
    assert v / 2 == m * q + r;
    DivUnique(v, 2 * m, q, 2 * r + v % 2);
  }

  /** Bit j is the parity of w divided by 2^j. */
  lemma {:induction false} BitIs(w: nat, j: nat)
    ensures Bit(w, j) <==> w / Pow2(j) % 2 == 1
  {
    if j > 0 {
      BitIs(w / 2, j - 1);
      DivTwice(w, Pow2(j - 1));
    }
  }

  // ----- signed words -----

  // Go's conversions between unsigned and signed words of the same width: two's complement, same bits.

  function ToInt8(n: byte): int8 {
    if n < 0x80 then n else n - TWO_8
  }

  function ToInt16(n: uint16): int16 {
    if n < 0x8000 then n else n - TWO_16
  }

  function ToInt32(n: uint32): int32 {
    if n < TWO_31 then n else n - TWO_32
  }

  function ToInt64(n: uint64): int64 {
    if n < TWO_63 then n else n - TWO_64
  }

  /** A signed word is the one number of its range that is congruent to the unsigned word. */
  lemma SignedIs(a: byte, b: uint16, c: uint32, d: uint64)
    ensures ToInt8(a) % TWO_8 == a && ToInt16(b) % TWO_16 == b && ToInt32(c) % TWO_32 == c && ToInt64(d) % TWO_64 == d
  {
  }

  function FromInt8(n: int8): (u: byte)
    ensures ToInt8(u) == n
  {
    if n >= 0 then n else n + TWO_8
  }

  function FromInt16(n: int16): (u: uint16)
    ensures ToInt16(u) == n
  {
    if n >= 0 then n else n + TWO_16
  }

  function FromInt32(n: int32): (u: uint32)
    ensures ToInt32(u) == n
  {
    if n >= 0 then n else n + TWO_32
  }

  function FromInt64(n: int64): (u: uint64)
    ensures ToInt64(u) == n
  {
    if n >= 0 then n else n + TWO_64
  }

  /** An unsigned word is the signed one modulo its width. */
  lemma UnsignedIs(a: int8, b: int16, c: int32, d: int64)
    ensures FromInt8(a) == a % TWO_8 && FromInt16(b) == b % TWO_16 && FromInt32(c) == c % TWO_32 && FromInt64(d) == d % TWO_64
  {
  }
}

// Failure-carrying results shared by the component runtime model.
module Wrappers {

  datatype Option<+T> = None | Some(value: T)

  datatype Result<+T, +E> = Ok(value: T) | Err(error: E)
}
