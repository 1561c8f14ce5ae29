/** Rust's `i64` arithmetic: `checked_*` operators, and division that truncates toward zero. */
module CheckedInt {
  import opened Wrappers

  const I64_MIN: int := -0x8000_0000_0000_0000
  const I64_MAX: int := 0x7fff_ffff_ffff_ffff
  const I32_MIN: int := -0x8000_0000
  const I32_MAX: int := 0x7fff_ffff
  const U32_MAX: int := 0xffff_ffff

  type i64 = x: int | I64_MIN <= x <= I64_MAX

  predicate IsI32(x: int) { I32_MIN <= x <= I32_MAX }

  function Fit(x: int): Option<int> {
    if I64_MIN <= x <= I64_MAX then Some(x) else None
  }

  function CheckedAdd(a: int, b: int): Option<int> { Fit(a + b) }

  function CheckedSub(a: int, b: int): Option<int> { Fit(a - b) }

  function CheckedMul(a: int, b: int): Option<int> { Fit(a * b) }

  /** `checked_div` by one of the positive literals the calendar code divides by. */
  function CheckedDiv(a: int, b: int): Option<int>
    requires b > 0
  {
    Fit(TruncDiv(a, b))
  }

  /** Rust's `/` rounds toward zero; Dafny's rounds down when the divisor is positive. */
  function TruncDiv(a: int, b: int): int
    requires b > 0
  {
    if a >= 0 then a / b else -((-a) / b)
  }

  lemma NonzeroMultipleIsFar(k: int, n: int)
    requires n > 0 && k != 0
    ensures k * n >= n || k * n <= -n
  {
    if k >= 1 {
      assert (k - 1) * n >= 0;
    } else {
      assert (-k - 1) * n >= 0;
    }
  }

  lemma QuotientUnique(x: int, n: int, q: int, r: int)
    requires 0 <= r < n && x == q * n + r
    ensures x / n == q && x % n == r
  {
    var q', r' := x / n, x % n;
    assert x == q' * n + r';
    assert (q' - q) * n == q' * n - q * n;
    if q' != q { NonzeroMultipleIsFar(q' - q, n); }
  }

  /** The `era_base` correction: shifting a negative dividend by `n - 1` before a
      truncating division yields the floor of the quotient. */
  lemma CorrectedTruncationIsFloor(y: int, n: int)
    requires n > 0
    ensures TruncDiv(if y >= 0 then y else y - (n - 1), n) == y / n
  {
    if y < 0 {
      var q, r := y / n, y % n;
      QuotientUnique(n - 1 - y, n, -q, n - 1 - r);
    }
  }

  lemma DivFits(a: int, b: int)
    requires 0 <= a <= I64_MAX && b in {4, 5, 100, 153, 365, 1460, 36_524, 146_096}
    ensures 0 <= a / b <= a && CheckedDiv(a, b) == Some(a / b)
  {
  }
}
