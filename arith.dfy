/** Facts about integer multiplication and division used by the allocation and
    criteria proofs. */
module Arith {

  lemma MulMonotone(x: int, y: int, b: int)
    requires x <= y && b >= 0
    ensures x * b <= y * b
  {
    assert y * b - x * b == (y - x) * b;
  }

  /** Euclidean division of a non-negative number reaches `w` exactly when `a >= w * b`. */
  lemma DivAtLeast(a: int, b: int, w: int)
    requires a >= 0 && b > 0
    ensures a / b >= w <==> a >= w * b
  {
    var q := a / b;
    assert a == q * b + a % b && 0 <= a % b < b;
    if q >= w {
      MulMonotone(w, q, b);
    } else {
      MulMonotone(q + 1, w, b);
      assert (q + 1) * b == q * b + b;
    }
  }

  lemma DivNonNegative(x: int, b: int)
    requires x >= 0 && b > 0
    ensures x / b >= 0
  {
  }

  lemma DivMonotone(x: int, y: int, b: int)
    requires 0 <= x <= y && b > 0
    ensures x / b <= y / b
  {
    var q := x / b;
    assert x == q * b + x % b && x % b >= 0;
    DivAtLeast(y, b, q);
  }

  /** Quotient and remainder are the only pair with `x == q * n + r` and `0 <= r < n`. */
  lemma DivModUnique(x: int, n: int, q: int, r: int)
    requires n > 0 && 0 <= r < n && x == q * n + r
    ensures x / n == q && x % n == r
  {
    var q', r' := x / n, x % n;
    assert x == q' * n + r' && 0 <= r' < n;
    assert (q' - q) * n == r - r' by {
      assert q' * n - q * n == (q' - q) * n;
    }
    if q' > q {
      MulMonotone(1, q' - q, n);
    } else if q' < q {
      MulMonotone(1, q - q', n);
    }
  }
}
