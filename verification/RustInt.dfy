/** Signed integer operations as Rust has them. */
module RustInt {
  const I32_MIN := -0x8000_0000
  const I32_MAX := 0x7FFF_FFFF

  type i32 = x: int | I32_MIN <= x <= I32_MAX

  predicate InI32(x: int) {
    I32_MIN <= x <= I32_MAX
  }

  /** `/` truncates towards zero. */
  function TruncDiv(a: int, b: int): int
    requires b != 0
  {
    if a >= 0 then (if b > 0 then a / b else -(a / -b))
    else (if b > 0 then -(-a / b) else -a / -b)
  }

  /** `%` takes the sign of the dividend. */
  function TruncMod(a: int, b: int): int
    requires b != 0
  {
    a - b * TruncDiv(a, b)
  }

  /** They split the dividend, leave less than the divisor, and the remainder has the dividend's sign. */
  lemma TruncIs(a: int, b: int)
    requires b != 0
    ensures a == b * TruncDiv(a, b) + TruncMod(a, b)
    ensures if b > 0 then -b < TruncMod(a, b) < b else b < TruncMod(a, b) < -b
    ensures if a >= 0 then TruncMod(a, b) >= 0 else TruncMod(a, b) <= 0
  {
    var m, n := if a >= 0 then a else -a, if b > 0 then b else -b;
    var q := m / n;
    assert m == n * q + m % n;
    Signs(n, q);
    assert a >= 0 ==> b * TruncDiv(a, b) == n * q;
    assert a < 0 ==> b * TruncDiv(a, b) == -(n * q);
  }

  lemma Signs(n: int, q: int)
    ensures -n * -q == n * q && n * -q == -(n * q) && -n * q == -(n * q)
  {
  }

  // Division facts for a divisor that is not a constant.

  lemma Quotient(a: int, b: int, q: int, r: int)
    requires 0 <= r < b && a == q * b + r
    ensures a / b == q
  {
    var p := a / b;
    assert a == p * b + a % b;
    if p < q {
      NextMultiple(p, q, b);
    } else if p > q {
      NextMultiple(q, p, b);
    }
  }

  lemma NextMultiple(x: int, y: int, b: int)
    requires x < y && b > 0
    ensures x * b + b <= y * b
  {
    assert y * b == x * b + b + (y - x - 1) * b;
  }

  lemma DivStep(i: int, c: int)
    requires c > 0
    ensures i / c == (i - c) / c + 1 && i % c == (i - c) % c
  {
    Quotient(i, c, (i - c) / c + 1, (i - c) % c);
  }
}
