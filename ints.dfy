/** 32-bit integers as C# `int` and Java `int` have them. */
module Ints {

  type int32 = x: int | -0x8000_0000 <= x < 0x8000_0000

  const MinInt32: int32 := -0x8000_0000
  const MaxInt32: int32 := 0x7FFF_FFFF

  /** Two's-complement wrap-around of an exact result, as Java `int` arithmetic does. */
  function Wrap32(x: int): (r: int32)
    ensures MinInt32 <= x <= MaxInt32 ==> r == x
    ensures (r - x) % 0x1_0000_0000 == 0
  {
    var m := (x + 0x8000_0000) % 0x1_0000_0000;
    m - 0x8000_0000
  }

  /** A result between int.MaxValue and 2^32 wraps to a negative number. */
  lemma Wrap32Above(x: int)
    requires MaxInt32 < x < 0x1_0000_0000
    ensures Wrap32(x) == x - 0x1_0000_0000 < 0
  {
    ModUnique(x + 0x8000_0000, 1, x + 0x8000_0000 - 0x1_0000_0000, 0x1_0000_0000);
  }

  function Abs(x: int): int { if x < 0 then -x else x }

  /** Integer division rounding toward zero, as C# and Java `/` do (Dafny's `/` is Euclidean). */
  function TruncDiv(a: int, b: int): (q: int)
    requires b != 0
    ensures Abs(a - q * b) < Abs(b)
    ensures a >= 0 ==> a - q * b >= 0
    ensures a < 0 ==> a - q * b <= 0
  {
    if a >= 0 && b > 0 then a / b
    else if a >= 0 then -(a / -b)
    else if b > 0 then -(-a / b)
    else -a / -b
  }

  lemma MulAtLeast(a: int, n: int)
    requires a >= 1 && n > 0
    ensures a * n >= n
  {
    assert a * n == (a - 1) * n + n;
  }

  /** Offset j of block i, for blocks of size f, lies before the end of block n - 1. */
  lemma BlockIndex(i: nat, n: nat, f: nat, j: nat)
    requires i < n && j < f
    ensures i * f + j < n * f
  {
    assert n * f == i * f + (n - i) * f;
    MulAtLeast(n - i, f);
  }

  /** The remainder is determined by any decomposition x == q * n + r with 0 <= r < n. */
  lemma ModUnique(x: int, q: int, r: int, n: int)
    requires n > 0 && 0 <= r < n && x == q * n + r
    ensures x % n == r
  {
    var q', r' := x / n, x % n;
    assert (q - q') * n == r' - r;
    if q > q' { MulAtLeast(q - q', n); }
    else if q < q' { MulAtLeast(q' - q, n); }
  }

  /** Adding the modulus does not change the remainder. */
  lemma ModShift(x: int, n: int)
    requires n > 0
    ensures (x + n) % n == x % n
  {
    ModUnique(x + n, x / n + 1, x % n, n);
  }
}
