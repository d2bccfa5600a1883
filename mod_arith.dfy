/** Facts about Dafny's `%` on `int` with a positive divisor.  Dafny's `%` is
    Euclidean, which for a positive divisor agrees with Python's and NumPy's
    floored `%`: the remainder lies in [0, n) for every dividend, negative
    ones included. */
module ModArith {

  /** A multiple that is strictly between -n and n is zero. */
  lemma SmallMultipleIsZero(k: int, n: int)
    requires n > 0
    requires -n < k * n < n
    ensures k == 0
  {
  }

  /** The remainder is determined by any decomposition x == q * n + r with r in [0, n). */
  lemma ModUnique(x: int, q: int, r: int, n: int)
    requires n > 0
    requires 0 <= r < n
    requires x == q * n + r
    ensures x % n == r
    ensures x / n == q
  {
    var q0, r0 := x / n, x % n;
    assert x == q0 * n + r0;
    assert (q - q0) * n == r0 - r;
    SmallMultipleIsZero(q - q0, n);
  }

  /** Adding a multiple of n does not change the remainder. */
  lemma ModShift(x: int, q: int, n: int)
    requires n > 0
    ensures (x + q * n) % n == x % n
  {
    var r := x % n;
    assert x + q * n == (x / n + q) * n + r;
    ModUnique(x + q * n, x / n + q, r, n);
  }

  /** A value in [0, n) is its own remainder. */
  lemma ModSmall(x: int, n: int)
    requires 0 <= x < n
    ensures x % n == x
  {
    ModUnique(x, 0, x, n);
  }

  /** Reducing one operand first does not change the remainder of a sum. */
  lemma ModAddLeft(a: int, b: int, n: int)
    requires n > 0
    ensures (a % n + b) % n == (a + b) % n
  {
    assert a + b == (a % n + b) + (a / n) * n;
    ModShift(a % n + b, a / n, n);
  }

  /** Reducing either or both operands first does not change the remainder of a sum. */
  lemma ModAdd(a: int, b: int, n: int)
    requires n > 0
    ensures (a % n + b % n) % n == (a + b) % n
  {
    ModAddLeft(a, b % n, n);
    ModAddLeft(b, a, n);
  }

  /** Two values with the same remainder differ by a multiple of n. */
  lemma SameResidue(x: int, y: int, n: int)
    requires n > 0
    requires x % n == y % n
    ensures (x - y) % n == 0
  {
    assert x - y == (x / n - y / n) * n;
    ModUnique(x - y, x / n - y / n, 0, n);
  }

  /** The remainder of x - y is zero exactly when x and y have the same remainder. */
  lemma SameResidueIff(x: int, y: int, n: int)
    requires n > 0
    ensures (x - y) % n == 0 <==> x % n == y % n
  {
    if (x - y) % n == 0 {
      var q := (x - y) / n;
      assert x == y + q * n;
      ModShift(y, q, n);
    } else if x % n == y % n {
      SameResidue(x, y, n);
    }
  }
}
