/**
 Machine-width integer arithmetic of the 8-bit AVR target the instrument runs on.

 Dafny integers are unbounded; every place where the C code stores into a narrower
 type, divides with C semantics or shifts is routed through one of the functions below,
 so that wrap-around and truncation are explicit in the model.
 */
module Machine {

  type u8 = x: int | 0 <= x < 256
  type u16 = x: int | 0 <= x < 65536
  type i8 = x: int | -128 <= x < 128

  /** The result of an operation whose C counterpart may have undefined behaviour
      (an out-of-bounds read, a modulo by zero). */
  datatype Outcome<+T> = Defined(value: T) | Undefined

  /** Storing an integer into a `uint8_t`. */
  function Wrap8(x: int): (r: u8)
    ensures 0 <= x < 256 ==> r == x
    ensures -256 <= x < 0 ==> r == x + 256
    ensures (r - x) % 256 == 0
  {
    x % 256
  }

  /** Storing an integer into a `uint16_t`. */
  function Wrap16(x: int): (r: u16)
    ensures 0 <= x < 65536 ==> r == x
    ensures (r - x) % 65536 == 0
  {
    x % 65536
  }

  /** Storing an integer into an `int8_t` (gcc: two's complement wrap-around). */
  function ToInt8(x: int): (r: i8)
    ensures -128 <= x < 128 ==> r == x
    ensures (r - x) % 256 == 0
  {
    (x + 128) % 256 - 128
  }

  /** Storing into an `int8_t` between additions changes nothing modulo 256: the
      intermediate wrap is absorbed by the final one. */
  lemma ToInt8Absorb(x: int, y: int)
    ensures ToInt8(ToInt8(x) + y) == ToInt8(x + y)
  {
    var k := (x + 128) / 256;
    assert ToInt8(x) == x - 256 * k;
    assert ToInt8(x) + y + 128 == (x + y + 128) - 256 * k;
    ModShift(x + y + 128, k);
  }

  lemma ModShift(a: int, k: int)
    ensures (a - 256 * k) % 256 == a % 256
  {
    var q := a / 256;
    assert a == 256 * q + a % 256;
    assert a - 256 * k == 256 * (q - k) + a % 256;
  }

  /** C's `/` on `int`: truncation toward zero, so the quotient keeps the sign of the
      dividend and never exceeds it in magnitude, and the remainder `a - q * b` is
      smaller than the divisor and has the dividend's sign (C99 section 6.5.5). */
  function TruncDiv(a: int, b: int): (q: int)
    requires b > 0
    ensures a >= 0 ==> 0 <= q <= a
    ensures a < 0 ==> a <= q <= 0
    ensures var rem := a - q * b; -b < rem < b && (a >= 0 ==> rem >= 0) && (a < 0 ==> rem <= 0)
  {
    DivLe(if a >= 0 then a else -a, b);
    if a >= 0 then a / b else -((-a) / b)
  }

  /** Truncation is odd-symmetric: negating the dividend negates the quotient. */
  lemma TruncDivOdd(a: int, b: int)
    requires b > 0
    ensures TruncDiv(-a, b) == -TruncDiv(a, b)
  {
    if a == 0 {
      assert TruncDiv(0, b) == 0;
    }
  }

  function Pow2(k: nat): (p: nat)
    ensures p >= 1
  {
    if k == 0 then 1 else 2 * Pow2(k - 1)
  }

  lemma {:induction false} Pow2Monotone(k: nat, m: nat)
    requires k <= m
    ensures Pow2(k) <= Pow2(m)
  {
    if k < m {
      Pow2Monotone(k, m - 1);
    }
  }

  /** `x << k` on a non-negative value: `k` doublings. */
  function ShiftLeft(x: nat, k: nat): (r: nat)
    ensures r >= x
  {
    if k == 0 then x else 2 * ShiftLeft(x, k - 1)
  }

  /** A left shift multiplies by a power of two. */
  lemma {:induction false} ShiftLeftIsProduct(x: nat, k: nat)
    ensures ShiftLeft(x, k) == x * Pow2(k)
  {
    if k > 0 {
      ShiftLeftIsProduct(x, k - 1);
      assert x * Pow2(k) == 2 * (x * Pow2(k - 1));
    }
  }

  /** A byte shifted left by `k` stays below `256 * 2^k`. */
  lemma {:induction false} ShiftLeftBelow(x: nat, k: nat)
    requires x < 256
    ensures ShiftLeft(x, k) < 256 * Pow2(k)
  {
    if k > 0 {
      ShiftLeftBelow(x, k - 1);
    }
  }

  /** `x >> k` on a signed value: gcc shifts arithmetically, which is floor division
      by 2^k (Dafny's `/` with a positive divisor). The magnitude never grows. */
  function ShiftRight(x: int, k: nat): (r: int)
    ensures x >= 0 ==> 0 <= r <= x
    ensures x < 0 ==> x <= r < 0
  {
    ShiftRightBounds(x, Pow2(k));
    x / Pow2(k)
  }

  /** Shifting one place further never increases the magnitude: the attenuation is
      monotonic in the shift amount. */
  lemma {:induction false} ShiftRightMonotone(x: int, k: nat)
    ensures x >= 0 ==> 0 <= ShiftRight(x, k + 1) <= ShiftRight(x, k)
    ensures x < 0 ==> ShiftRight(x, k) <= ShiftRight(x, k + 1) < 0
  {
    var p := Pow2(k);
    assert Pow2(k + 1) == 2 * p;
    DivDiv(x, p);
    ShiftRightBounds(x / p, 2);
  }

  lemma MulMono(a: int, b: int, c: int)
    requires a <= b && c > 0
    ensures a * c <= b * c
  {
    assert b * c - a * c == (b - a) * c;
  }

  lemma DivLe(a: int, b: int)
    requires a >= 0 && b > 0
    ensures 0 <= a / b <= a
  {
    var q := a / b;
    assert a == q * b + a % b;
    if q < 0 {
      MulMono(q, -1, b);
    }
    if q > a {
      MulMono(1, b, q);
    }
  }

  lemma ShiftRightBounds(x: int, p: int)
    requires p > 0
    ensures x >= 0 ==> 0 <= x / p <= x
    ensures x < 0 ==> x <= x / p < 0
  {
    var q := x / p;
    var r := x % p;
    assert x == q * p + r && 0 <= r < p;
    if x >= 0 {
      DivLe(x, p);
    } else {
      if q >= 0 {
        MulMono(0, q, p);
      }
      if q < x {
        MulMono(q + 1, x, p);
        MulMono(1, p, -x);
      }
    }
  }

  lemma DivUnique(x: int, m: int, q: int, r: int)
    requires m > 0 && x == q * m + r && 0 <= r < m
    ensures x / m == q
  {
    var q' := x / m;
    var r' := x % m;
    assert x == q' * m + r';
    assert (q' - q) * m == r - r';
    if q' > q {
      MulMono(1, q' - q, m);
    } else if q' < q {
      MulMono(1, q - q', m);
    }
  }

  lemma DivDiv(x: int, p: int)
    requires p > 0
    ensures x / (2 * p) == (x / p) / 2
  {
    var q := x / p;
    var r := x % p;
    assert x == q * p + r && 0 <= r < p;
    var q2 := q / 2;
    if q % 2 == 0 {
      assert q == 2 * q2;
      assert q * p == q2 * (2 * p);
      DivUnique(x, 2 * p, q2, r);
    } else {
      assert q == 2 * q2 + 1;
      assert q * p == q2 * (2 * p) + p;
      DivUnique(x, 2 * p, q2, p + r);
    }
  }
}
