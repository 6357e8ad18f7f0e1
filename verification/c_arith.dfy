/** The parts of C integer arithmetic the utilities depend on, from
    ISO/IEC 9899:1999: the range of `int64_t` (section 7.18.1.1), division
    and remainder truncating toward zero (section 6.5.5, paragraph 6), and
    conversion to an unsigned type of width `w` reducing modulo 2^w
    (section 6.3.1.3, paragraph 2). Dafny's own `/` and `%` are Euclidean,
    so the truncating forms are defined here explicitly.
 */
module CArith {

  const INT32_MAX: int := 0x7FFF_FFFF
  const INT64_MIN: int := -0x8000_0000_0000_0000
  const INT64_MAX: int := 0x7FFF_FFFF_FFFF_FFFF

  predicate IsInt64(x: int) {
    INT64_MIN <= x <= INT64_MAX
  }

  function Pow2(w: nat): (p: nat)
    ensures p >= 1
  {
    if w == 0 then 1 else 2 * Pow2(w - 1)
  }

  /** Conversion of `x` to an unsigned integer type of `w` bits. */
  function ToUnsigned(x: int, w: nat): (r: nat)
    ensures r < Pow2(w)
  {
    x % Pow2(w)
  }

  /** C's `a / d` for a positive divisor: the quotient truncated toward zero. */
  function TruncDiv(a: int, d: int): int
    requires d > 0
  {
    if a >= 0 then a / d else -((-a) / d)
  }

  /** C's `a % d` for a positive divisor: the remainder takes the sign of `a`. */
  function TruncMod(a: int, d: int): int
    requires d > 0
  {
    if a >= 0 then a % d else -((-a) % d)
  }

  /** The C identity `(a / d) * d + a % d == a`, with the remainder bounded
      by the divisor and signed like the dividend. */
  lemma TruncDivMod(a: int, d: int)
    requires d > 0
    ensures d * TruncDiv(a, d) + TruncMod(a, d) == a
    ensures a >= 0 ==> 0 <= TruncMod(a, d) < d
    ensures a < 0 ==> -d < TruncMod(a, d) <= 0
    ensures a >= 0 ==> TruncDiv(a, d) == a / d && TruncMod(a, d) == a % d
  {
    if a < 0 {
      assert (-a) == d * ((-a) / d) + (-a) % d;
    }
  }

  lemma MulPositive(m: int, t: int)
    requires m > 0 && t >= 1
    ensures m * t >= m
  {
    assert m * t == m * (t - 1) + m;
  }

  /** Division is determined by any quotient/remainder pair with the remainder in range. */
  lemma DivModUnique(x: int, m: int, q: int, r: int)
    requires m > 0 && 0 <= r < m && x == m * q + r
    ensures x / m == q && x % m == r
  {
    var q', r' := x / m, x % m;
    assert x == m * q' + r';
    assert m * (q - q') == r' - r;
    if q > q' {
      MulPositive(m, q - q');
    } else if q < q' {
      MulPositive(m, q' - q);
    }
  }

  lemma ModAddMultiple(x: int, m: int, j: int)
    requires m > 0
    ensures (x + m * j) % m == x % m
  {
    assert x == m * (x / m) + x % m;
    assert x + m * j == m * (x / m + j) + x % m;
    DivModUnique(x + m * j, m, x / m + j, x % m);
  }

  lemma ModModMultiple(x: int, m: int, k: int)
    requires m > 0 && k > 0
    ensures x % (m * k) % m == x % m
  {
    MulPositive(m, k);
    var mk := m * k;
    var q := x / mk;
    assert x == mk * q + x % mk;
    assert x % mk == x + m * (-(k * q));
    ModAddMultiple(x, m, -(k * q));
  }

  lemma ModMulRight(a: int, b: int, m: int)
    requires m > 0
    ensures (a * (b % m)) % m == (a * b) % m
  {
    assert b == m * (b / m) + b % m;
    assert a * b == a * (b % m) + m * (a * (b / m));
    ModAddMultiple(a * (b % m), m, a * (b / m));
  }

  lemma ModAddLeft(x: int, c: int, m: int)
    requires m > 0
    ensures (x % m + c) % m == (x + c) % m
  {
    assert x == m * (x / m) + x % m;
    ModAddMultiple(x % m + c, m, x / m);
  }

  lemma {:induction false} Pow2Add(a: nat, b: nat)
    ensures Pow2(a + b) == Pow2(a) * Pow2(b)
  {
    if a > 0 {
      Pow2Add(a - 1, b);
      assert Pow2(a + b) == 2 * Pow2(a - 1 + b);
    }
  }

  lemma Pow2Of32()
    ensures Pow2(32) == 0x1_0000_0000
  {
    assert Pow2(8) == 256;
    Pow2Add(8, 8);
    Pow2Add(16, 16);
  }

  lemma Pow2Of64()
    ensures Pow2(64) == 0x1_0000_0000_0000_0000
  {
    Pow2Of32();
    Pow2Add(32, 32);
  }

  /** Reducing modulo 2^64 and then modulo 2^w (w <= 64) is reducing modulo 2^w. */
  lemma ModPow2Narrow(x: int, w: nat)
    requires w <= 64
    ensures x % Pow2(64) % Pow2(w) == x % Pow2(w)
  {
    Pow2Add(w, 64 - w);
    ModModMultiple(x, Pow2(w), Pow2(64 - w));
  }
}
