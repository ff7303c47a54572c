/**
 * The few pieces of C integer semantics both colour-grid programs rely on:
 * 8-bit colour channels, `abs` of an `int`, and `/` on `int`, which C
 * truncates toward zero (Dafny's `/` is Euclidean).
 */
module CInts {

  /** An `unsigned char` / `uint8_t` colour channel. */
  type Byte = x: int | 0 <= x < 256

  /** C's `abs` on an `int` (overflow of `abs(INT_MIN)` does not arise here). */
  function Abs(x: int): (r: nat)
    ensures r == x || r == -x
  {
    if x < 0 then -x else x
  }

  /** C's `a / b` on `int`: the quotient truncated toward zero. */
  function CDiv(a: int, b: int): (q: int)
    requires b != 0
    ensures Abs(q) == Abs(a) / Abs(b)
    ensures (a < 0) == (b < 0) ==> q >= 0
    ensures (a < 0) != (b < 0) ==> q <= 0
  {
    var na, nb := Abs(a), Abs(b);
    var m := na / nb;
    assert 0 <= m;
    if (a < 0) != (b < 0) then -m else m
  }

  /** On non-negative operands C's division and Dafny's agree. */
  lemma CDivOfNonNegative(a: int, b: int)
    requires a >= 0 && b > 0
    ensures CDiv(a, b) == a / b
  {
  }

  /** The row-major flat index `y * n + x` of a cell of an `n` by `n` grid lies in `[0, n * n)`. */
  lemma FlatIndexInBounds(x: int, y: int, n: int)
    requires 0 <= x < n && 0 <= y < n
    ensures 0 <= y * n + x < n * n
  {
    assert y * n <= (n - 1) * n;
  }

  lemma MulMonotone(a: int, b: int, n: int)
    requires n >= 0
    ensures a <= b ==> a * n <= b * n
  {
  }

  lemma Distribute(a: int, b: int, c: int)
    ensures a * (b + c) == a * b + a * c
  {
  }

  /** Dividing by 1 in C gives the dividend back, whatever its sign. */
  lemma CDivByOne(a: int)
    ensures CDiv(a, 1) == a
  {
  }

  /** Row `y + 1` of an `n`-wide grid starts `n` cells after row `y` and, for `y < n`, inside the grid. */
  lemma NextRow(y: int, n: int)
    requires 0 <= y < n
    ensures (y + 1) * n == y * n + n && y * n + n <= n * n
  {
    MulMonotone(y + 1, n, n);
  }

  /** Division by the row width recovers the row and the column of a flat index. */
  lemma FlatIndexDivMod(x: int, y: int, n: int)
    requires 0 <= x < n && 0 <= y
    ensures (y * n + x) / n == y && (y * n + x) % n == x
  {
    var k := y * n + x;
    var q, r := k / n, k % n;
    assert q * n + r == y * n + x;
    // q > y would put k at or past row y + 1, q < y before row y
    MulMonotone(y + 1, q, n);
    MulMonotone(q, y - 1, n);
  }

  /** A flat index below `n * n` lies in one of the `n` rows. */
  lemma FlatIndexRow(k: int, n: int)
    requires 0 <= k < n * n && n > 0
    ensures 0 <= k / n < n && 0 <= k % n < n && (k / n) * n + k % n == k
  {
  }

  /** Truncated division of a non-negative `a` by a positive `b`: `a` lies in `[q * b, (q + 1) * b)`. */
  lemma CDivBrackets(a: int, b: int)
    requires b > 0
    ensures a >= 0 ==> CDiv(a, b) * b <= a < (CDiv(a, b) + 1) * b
  {
    if a >= 0 {
      CDivOfNonNegative(a, b);
      var q, r := a / b, a % b;
      assert a == q * b + r && 0 <= r < b;
      Distribute(b, q, 1);
    }
  }

  /** A square is never negative, and is zero only for zero. */
  lemma SquareZero(v: int)
    ensures v * v >= 0 && (v * v == 0 <==> v == 0)
  {
    if v > 0 {
      MulMonotone(1, v, v);
    } else if v < 0 {
      MulMonotone(1, -v, -v);
      assert (-v) * (-v) == v * v;
    }
  }

  /** A truncated mean of `count` values each in [0, n) is itself in [0, n). */
  lemma CDivBounded(sum: int, count: int, n: int)
    requires count > 0 && 0 <= sum <= (n - 1) * count
    ensures 0 <= CDiv(sum, count) < n
  {
    CDivOfNonNegative(sum, count);
  }
}
