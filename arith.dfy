/**
 * Machine-integer helpers for the calendar model.
 *
 * The calendar code computes on `i64`, `i16` and `i8`. Integers are
 * unbounded here, so the two places where the machine semantics differ from
 * mathematics are written out: Rust's `/` and `%` round toward zero (Dafny's
 * are Euclidean), and `as i8` / `as i16` keep only the low bits.
 */
module Arith {

  /** Values of Rust's `i8`. */
  type i8 = x: int | -128 <= x < 128

  /** Values of Rust's `i16`. */
  type i16 = x: int | -32768 <= x < 32768

  function Abs(x: int): nat { if x < 0 then -x else x }

  /**
   * Rust's `/` on signed integers: the quotient rounded toward zero, so
   * `b * q` is the multiple of a positive `b` nearest `a` on the side of 0.
   */
  function TDiv(a: int, b: int): (q: int)
    requires b != 0
    ensures 0 < b && 0 <= a ==> 0 <= q && b * q <= a < b * q + b
    ensures 0 < b && a < 0 ==> q <= 0 && b * q - b < a <= b * q
  {
    if a >= 0 then (if b > 0 then a / b else -(a / -b))
    else (if b > 0 then -((-a) / b) else (-a) / (-b))
  }

  /** Rust's `%` on signed integers: the remainder that goes with `TDiv`, so it takes the sign of `a`. */
  function TRem(a: int, b: int): (r: int)
    requires b != 0
    ensures 0 < b ==> -b < r < b
    ensures 0 < b && 0 <= a ==> r == a % b
    ensures 0 < b && a < 0 ==> r <= 0 && (r == 0 || r == a % b - b)
  {
    if 0 < b then
      TruncatedRemainder(a, b);
      a - b * TDiv(a, b)
    else
      a - b * TDiv(a, b)
  }

  /** For a positive divisor the truncated remainder is the Euclidean one, or that less the divisor. */
  lemma TruncatedRemainder(a: int, b: int)
    requires 0 < b
    ensures var r := a - b * TDiv(a, b);
      -b < r < b && (0 <= a ==> r == a % b) && (a < 0 ==> r <= 0 && (r == 0 || r == a % b - b))
  {
    if a < 0 {
      var q, m := (-a) / b, (-a) % b;
      assert -a == b * q + m && 0 <= m < b;
      assert a - b * TDiv(a, b) == -m by {
        assert b * TDiv(a, b) == -(b * q);
      }
      if m != 0 {
        assert a == b * (-q - 1) + (b - m);
        DivUnique(a, b, -q - 1, b - m);
      }
    }
  }

  /** Euclidean division is unique: a quotient and remainder in range are the ones `/` and `%` give. */
  lemma DivUnique(n: int, d: int, q: int, r: int)
    requires 0 < d && 0 <= r < d && n == d * q + r
    ensures n / d == q && n % d == r
  {
    var k := n / d - q;
    assert d * k == r - n % d by {
      assert d * (n / d) + n % d == d * q + r;
      assert d * (n / d) - d * q == d * k;
    }
    if k >= 1 {
      MulAtLeast(k, d);
    } else if k <= -1 {
      MulAtLeast(-k, d);
    }
  }

  lemma MulAtLeast(k: int, d: int)
    requires 1 <= k && 0 < d
    ensures d <= d * k
  {
  }

  /** Rust's `x as i8`: keeps the low eight bits, read as two's complement. */
  function AsI8(x: int): (r: i8)
    ensures (r - x) % 256 == 0
    ensures -128 <= x < 128 ==> r == x
  {
    (x + 128) % 256 - 128
  }

  /** Rust's `x as i16`: keeps the low sixteen bits, read as two's complement. */
  function AsI16(x: int): (r: i16)
    ensures (r - x) % 65536 == 0
    ensures -32768 <= x < 32768 ==> r == x
  {
    (x + 32768) % 65536 - 32768
  }
}
