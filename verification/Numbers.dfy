/** Arithmetic shared by the components: the least and greatest of two numbers, rounding up,
    products, quotients and remainders of integers, and the division of C++. */
module Numbers {
  function Min(a: int, b: int): int
  {
    if a < b then a else b
  }

  function Max(a: int, b: int): int
  {
    if a > b then a else b
  }

  function MinReal(a: real, b: real): real
  {
    if a < b then a else b
  }

  function MaxReal(a: real, b: real): real
  {
    if a > b then a else b
  }

  function Ceil(r: real): int
  {
    -(-r).Floor
  }

  function Abs(x: int): nat
  {
    if x < 0 then -x else x
  }

  /** A product with a natural number, against that number. */
  lemma SignedProduct(q: int, d: nat)
    ensures q > 0 ==> q * d >= d
    ensures q < 0 ==> q * d + d <= 0
  {
    if q > 0 {
      MulMonotone(1, q, d);
    }
    if q < 0 {
      MulMonotone(1, -q, d);
      assert q * d == -(-q * d);
    }
  }

  lemma MulMonotone(m: nat, n: nat, d: nat)
    requires m <= n
    ensures m * d <= n * d
  {
    assert n * d == m * d + (n - m) * d;
    assert (n - m) * d >= 0;
  }

  lemma DivMod(a: nat, d: nat)
    requires d > 0
    ensures a == a / d * d + a % d && 0 <= a % d < d && a / d >= 0
    ensures a / d * d <= a < (a / d + 1) * d
  {
    var q := a / d;
    assert a == q * d + a % d;
    assert (q + 1) * d == q * d + d;
    SignedProduct(q, d);
  }

  /** Quotient and remainder are determined by their equation. */
  lemma DivUnique(k: nat, d: nat, q: int, r: nat)
    requires d > 0 && k == q * d + r && r < d
    ensures k / d == q && k % d == r
  {
    var q', r' := k / d, k % d;
    assert k == q' * d + r';
    assert (q - q') * d == r' - r;
    SignedProduct(q - q', d);
  }

  lemma DivMonotone(a: nat, b: nat, d: nat)
    requires a <= b && d > 0
    ensures a / d <= b / d
  {
    var qa, qb := a / d, b / d;
    assert a == qa * d + a % d && b == qb * d + b % d;
    assert (qa - qb) * d == qa * d - qb * d;
    SignedProduct(qa - qb, d);
  }

  /** Division and remainder of C++: toward zero. */
  function TruncDiv(a: int, b: int): int
    requires b > 0
  {
    if a >= 0 then a / b else -(-a / b)
  }

  function TruncMod(a: int, b: int): int
    requires b > 0
  {
    a - TruncDiv(a, b) * b
  }

  lemma TruncDivIs(a: int, b: int)
    requires b > 0
    ensures var q, r := TruncDiv(a, b), TruncMod(a, b);
            -b < r < b && (a >= 0 ==> r >= 0) && (a < 0 ==> r <= 0) && Abs(q) <= Abs(a)
  {
    DivMod(Abs(a), b);
    var q := Abs(a) / b;
    assert -q * b == -(q * b);
    MulMonotone(1, b, q);
  }
}
