/** Facts about Euclidean division that the solver does not find on its own. */
module Arith {

  lemma MulAtLeast(n: int, d: int)
    requires n > 0 && d >= 1
    ensures n * d >= n
  {
  }

  lemma MulGap(n: int, a: int, b: int)
    requires n > 0 && a > b
    ensures n * a >= n * b + n
  {
    MulAtLeast(n, a - b);
    assert n * (a - b) == n * a - n * b;
  }

  /** Quotient and remainder are determined by any decomposition `x == n * q + r` with `0 <= r < n`. */
  lemma DivModUnique(x: int, n: int, q: int, r: int)
    requires 0 < n && 0 <= r < n && x == n * q + r
    ensures x / n == q && x % n == r
  {
    var q2 := x / n;
    if q2 < q {
      MulGap(n, q, q2);
    } else if q2 > q {
      MulGap(n, q2, q);
    }
  }

  /** Taking one step off a non-negative offset keeps its remainder; below one step only 0 divides. */
  lemma GridShift(d: int, step: int)
    requires step > 0
    ensures d >= step ==> (d - step) % step == d % step
    ensures 0 < d < step ==> d % step != 0
  {
    if d >= step {
      DivModUnique(d - step, step, d / step - 1, d % step);
    }
    if 0 < d < step {
      DivModUnique(d, step, 0, d);
    }
  }
}
