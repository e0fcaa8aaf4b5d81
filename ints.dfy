/** Fixed-width integer semantics of C++ and Go, stated over Dafny's unbounded `int`.
    Dafny's `/` and `%` are Euclidean; C++ and Go truncate toward zero, so the
    truncating operators are written out here. */
module Ints {

  const TWO_32: int := 0x1_0000_0000
  const TWO_63: int := 0x8000_0000_0000_0000
  const TWO_64: int := 0x1_0000_0000_0000_0000
  const UINT_MAX: int := 0xFFFF_FFFF
  const INT64_MIN: int := -0x8000_0000_0000_0000
  const INT64_MAX: int := 0x7FFF_FFFF_FFFF_FFFF

  type uint8 = x: int | 0 <= x < 0x100
  type uint32 = x: int | 0 <= x < 0x1_0000_0000
  type int32 = x: int | -0x8000_0000 <= x < 0x8000_0000
  type int64 = x: int | -0x8000_0000_0000_0000 <= x < 0x8000_0000_0000_0000

  predicate InInt64(x: int) {
    INT64_MIN <= x <= INT64_MAX
  }

  /** Unsigned 32-bit arithmetic: the value an `unsigned` holds after `x` is stored in it. */
  function Wrap32(x: int): (r: uint32)
    ensures (x - r) % TWO_32 == 0
    ensures 0 <= x < TWO_32 ==> r == x
  {
    x % TWO_32
  }

  /** Two's-complement 64-bit wrap-around, as Go defines it for `int64`. */
  function Wrap64(x: int): (r: int64)
    ensures (x - r) % TWO_64 == 0
    ensures InInt64(x) ==> r == x
  {
    var m := x % TWO_64;
    if m >= TWO_63 then m - TWO_64 else m
  }

  /** Wrapping depends only on the residue modulo 2^64. */
  lemma {:induction false} Wrap64Congruent(x: int, y: int)
    requires (x - y) % TWO_64 == 0
    ensures Wrap64(x) == Wrap64(y)
  {
    var k := (x - y) / TWO_64;
    assert x == y + k * TWO_64;
    ModShift(y, k, TWO_64);
  }

  /** Adding a wrapped operand wraps to the same value as adding the exact one. */
  lemma {:induction false} WrapAdd(a: int, b: int)
    ensures Wrap64(Wrap64(a) + b) == Wrap64(a + b)
    ensures Wrap64(a + Wrap64(b)) == Wrap64(a + b)
  {
    NegatedMultiple(a - Wrap64(a), TWO_64);
    Wrap64Congruent(Wrap64(a) + b, a + b);
    NegatedMultiple(b - Wrap64(b), TWO_64);
    Wrap64Congruent(a + Wrap64(b), a + b);
  }

  /** One wrapped accumulation step `acc += y` keeps `acc` equal to the wrapped exact sum. */
  lemma {:induction false} WrapStep(acc: int, exact: int, y: int)
    requires acc == Wrap64(exact)
    ensures Wrap64(acc + Wrap64(y)) == Wrap64(exact + y)
  {
    WrapAdd(acc, y);
    WrapAdd(exact, y);
  }

  lemma {:induction false} NegatedMultiple(x: int, m: int)
    requires m > 0 && x % m == 0
    ensures (-x) % m == 0
  {
    var k := x / m;
    assert -x == (-k) * m;
    ModShift(0, -k, m);
  }

  lemma {:induction false} ModShift(y: int, k: int, m: int)
    requires m > 0
    ensures (y + k * m) % m == y % m
  {
    DivModUnique(y + k * m, m, y / m + k, y % m);
  }

  /** Euclidean division is determined by its quotient-remainder equation. */
  lemma {:induction false} DivModUnique(x: int, m: int, q: int, r: int)
    requires m > 0 && 0 <= r < m && x == q * m + r
    ensures x % m == r && x / m == q
  {
    var d := q - x / m;
    assert d * m == x % m - r;
  }

  /** C++/Go integer division by a positive divisor: truncates toward zero. */
  function TDiv(a: int, b: int): (q: int)
    requires b > 0
    ensures a >= 0 ==> q >= 0 && b * q <= a < b * q + b
    ensures a < 0 ==> q <= 0 && b * q - b < a <= b * q
  {
    if a >= 0 then a / b else -((-a) / b)
  }

  /** C++/Go remainder by a positive divisor: it takes the sign of the dividend. */
  function TMod(a: int, b: int): (r: int)
    requires b > 0
    ensures a == b * TDiv(a, b) + r
    ensures a >= 0 ==> 0 <= r < b
    ensures a < 0 ==> -b < r <= 0
  {
    a - b * TDiv(a, b)
  }

  /** A multiple of `b` leaves no truncating remainder. */
  lemma {:induction false} TModOfMultiple(a: int, b: int)
    requires b > 0 && a % b == 0
    ensures TMod(a, b) == 0
  {
    if a < 0 {
      NegatedMultiple(a, b);
    }
  }

  /** `a - a % b` (truncating) is the multiple of `b` nearest to `a` toward zero. */
  lemma {:induction false} TruncateToMultiple(a: int, b: int)
    requires b > 0
    ensures (a - TMod(a, b)) % b == 0
    ensures a >= 0 ==> 0 <= a - TMod(a, b) <= a
    ensures a < 0 ==> a <= a - TMod(a, b) <= 0
  {
    var q := TDiv(a, b);
    assert a - TMod(a, b) == b * q;
    ModShift(0, q, b);
  }
}
