/** Small facts of integer arithmetic, each kept to one non-linear step so that the solver
    proves it quickly. */
module Arith {

  lemma DivMod(d: int, n: int)
    requires d != 0
    ensures n == d * (n / d) + n % d
    ensures 0 <= n % d < if d < 0 then -d else d
  {
  }

  lemma Assoc(a: int, b: int, c: int)
    ensures (a * b) * c == a * (b * c)
  {
  }

  lemma Distrib(d: int, k: int, q: int)
    ensures d * k - d * q == d * (k - q)
  {
  }

  lemma MulNonzero(d: int, x: int)
    requires d != 0 && x != 0
    ensures d * x >= d || d * x <= -d
    ensures d * x >= -d || d * x <= d
  {
  }

  /** A multiple of d leaves no remainder. */
  lemma MulMod(d: int, k: int)
    requires d != 0
    ensures (d * k) % d == 0
  {
    var n := d * k;
    DivMod(d, n);
    Distrib(d, k, n / d);
    if k - n / d != 0 {
      MulNonzero(d, k - n / d);
    }
  }

  lemma MulMonotone(a: int, b: int, c: int)
    requires a <= b && 0 <= c
    ensures a * c <= b * c
  {
    assert b * c - a * c == (b - a) * c;
  }

  lemma SquareMonotone(a: int, b: int)
    requires 0 <= a <= b
    ensures a * a <= b * b
  {
    MulMonotone(a, b, a);
    MulMonotone(a, b, b);
  }

  /** A square of at least 2 * d means d is below it. */
  lemma SquareBelow(d: int, n: int)
    requires 2 <= d && d * d <= n
    ensures d < n
  {
    MulMonotone(2, d, d);
  }

  /** Multiplying by d >= 2 moves a non-zero number away from 0. */
  lemma MulGrows(d: int, q: int)
    requires d >= 2
    ensures q > 0 ==> d * q > q
    ensures q < 0 ==> d * q < q
    ensures q == 0 <==> d * q == 0
  {
  }
}
