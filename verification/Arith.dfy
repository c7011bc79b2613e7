/** Facts about division, remainder and powers of ten that the other modules share. */
module Arith {

  /** The quotient and remainder of a number written as `q * n + r` are `q` and `r`. */
  lemma DivModUnique(q: int, n: int, r: int)
    requires 0 <= r < n
    ensures (q * n + r) / n == q
    ensures (q * n + r) % n == r
  {
    var x := q * n + r;
    var q', r' := x / n, x % n;
    if q < q' {
      MulMonotone(q - q', -1, n);
    }
    if q' < q {
      MulMonotone(1, q - q', n);
    }
    assert x == n * q' + r' && 0 <= r' < n;
    assert (q - q') * n == r' - r;
  }

  lemma MulMonotone(a: int, b: int, n: int)
    requires a <= b && 0 <= n
    ensures a * n <= b * n
  {
    assert (b - a) * n >= 0;
  }

  /** Every number is `n * (x / n) + x % n`, with a remainder in `0..n`. */
  lemma DivMod(x: nat, n: nat)
    requires 0 < n
    ensures x == (x / n) * n + x % n
    ensures 0 <= x % n < n
    ensures 0 <= x / n <= x
  {
    var q, r := x / n, x % n;
    assert x == n * q + r;
    if q < 0 {
      MulMonotone(q, -1, n);
    }
    MulMonotone(1, n, if q < 0 then 0 else q);
  }

  /** Two numbers leave the same remainder exactly when their difference leaves none. */
  lemma SameRemainder(x: nat, y: nat, n: nat)
    requires x <= y && 0 < n
    ensures x % n == y % n <==> (y - x) % n == 0
  {
    DivMod(x, n);
    DivMod(y, n);
    DivMod(y - x, n);
    var a, b, c := x / n, y / n, (y - x) / n;
    if x % n == y % n {
      assert y - x == (b - a) * n + 0;
      DivModUnique(b - a, n, 0);
    } else if (y - x) % n == 0 {
      assert y == (a + c) * n + x % n;
      DivModUnique(a + c, n, x % n);
    }
  }
}
