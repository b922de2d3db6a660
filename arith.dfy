/**
  * Facts about Dafny's Euclidean `/` and `%` by a positive divisor that the
  * solver does not find on its own, and JavaScript's remainder operator.
  */
module Arith {

  /** Division by `n > 0` is unique: `q * n + r` with `0 <= r < n` divides to `q`, remainder `r`. */
  lemma DivModUnique(q: int, n: int, r: int)
    requires n > 0 && 0 <= r < n
    ensures (q * n + r) / n == q
    ensures (q * n + r) % n == r
  {
    var x := q * n + r;
    var d := x / n - q;
    assert x == (x / n) * n + x % n;
    assert d * n == r - x % n;
  }

  /** Multiplying by a non-negative number keeps the order. */
  lemma MulMono(a: int, b: int, m: int)
    requires a <= b && m >= 0
    ensures a * m <= b * m
  {
  }

  /** A row of `m` cells starting after `a` full rows ends within `a + 1` rows. */
  lemma RowBound(a: int, r: int, m: int)
    requires 0 <= r < m
    ensures a * m + r < (a + 1) * m
  {
  }

  /** Adding a multiple of `n` does not change the remainder. */
  lemma ModShift(x: int, q: int, n: int)
    requires n > 0
    ensures (x + q * n) % n == x % n
  {
    assert x + q * n == (x / n + q) * n + x % n;
    DivModUnique(x / n + q, n, x % n);
  }

  /** `x % n` is `x` itself on `[0, n)`. */
  lemma ModSmall(x: int, n: int)
    requires 0 <= x < n
    ensures x % n == x && x / n == 0
  {
  }

  /** The remainder of a non-negative number is no larger than the number. */
  lemma ModAtMost(x: int, n: int)
    requires x >= 0 && n > 0
    ensures x % n <= x
  {
  }

  function Abs(x: int): int { if x < 0 then -x else x }

  /**
    * JavaScript's `m % n` on integers: the remainder of truncating division,
    * which takes the sign of the dividend `m`.
    */
  function JsRem(m: int, n: int): (r: int)
    requires n != 0
    ensures Abs(r) < Abs(n)
    ensures m >= 0 ==> r >= 0
    ensures m < 0 ==> r <= 0
  {
    var r := Abs(m) % Abs(n);
    if m < 0 then -r else r
  }
}
