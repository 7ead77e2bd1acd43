/** Exact rational rates and the affine time maps they compose into. Values are kept
    in lowest terms inside 64 bits, intermediates inside 128, and an instant is
    rounded once, at the leaf. */
module RationalTime {
  import opened Numbers
  import opened Wrappers

  const MAX64: int := 0x7FFF_FFFF_FFFF_FFFF
  const MIN64: int := -0x8000_0000_0000_0000

  type I64 = x: int | -0x8000_0000_0000_0000 <= x <= 0x7FFF_FFFF_FFFF_FFFF
  /** A 128-bit signed integer: everything computed without a check must fit. */
  type I128 = x: int | -0x8000_0000_0000_0000_0000_0000_0000_0000 <= x <= 0x7FFF_FFFF_FFFF_FFFF_FFFF_FFFF_FFFF_FFFF

  predicate Fits128(x: int)
  {
    -0x8000_0000_0000_0000_0000_0000_0000_0000 <= x <= 0x7FFF_FFFF_FFFF_FFFF_FFFF_FFFF_FFFF_FFFF
  }

  datatype TimeError = Overflow

  datatype Rational = Rational(num: I64, den: I64)

  // ---- Divisors ------------------------------------------------------------------------

  ghost predicate Divides(d: nat, n: nat)
  {
    exists k: nat :: n == d * k
  }

  ghost predicate Coprime(a: nat, b: nat)
  {
    forall d: nat | Divides(d, a) && Divides(d, b) :: d == 1
  }

  ghost function Gcd(a: nat, b: nat): nat
    decreases b
  {
    if b == 0 then a else Gcd(b, a % b)
  }

  lemma {:induction false} GcdDivides(a: nat, b: nat)
    requires a > 0 || b > 0
    ensures Gcd(a, b) > 0 && Divides(Gcd(a, b), a) && Divides(Gcd(a, b), b)
    decreases b
  {
    if b == 0 {
      assert a == a * 1 && b == a * 0;
    } else {
      GcdDivides(b, a % b);
      var g := Gcd(a, b);
      var k: nat :| b == g * k;
      var m: nat :| a % b == g * m;
      DivMod(a, b);
      MultipleOf(a, b, a / b, a % b, g, k, m);
      hide Gcd;
    }
  }

  lemma MultipleOf(a: nat, b: nat, q: nat, r: nat, g: nat, k: nat, m: nat)
    requires a == q * b + r && b == g * k && r == g * m
    ensures Divides(g, a)
  {
    assert q * (g * k) == g * (q * k);
    assert g * (q * k + m) == g * (q * k) + g * m;
  }

  /** The greatest common divisor is an integer combination of its arguments. */
  lemma {:induction false} Bezout(a: nat, b: nat) returns (x: int, y: int)
    ensures a * x + b * y == Gcd(a, b)
    decreases b
  {
    if b == 0 {
      x, y := 1, 0;
    } else {
      var u, v := Bezout(b, a % b);
      DivMod(a, b);
      x, y := v, u - a / b * v;
      assert b * u + (a % b) * v == a * x + b * y by {
        Regroup(a, b, a / b, a % b, u, v);
      }
    }
  }

  lemma Regroup(a: nat, b: nat, q: nat, r: nat, u: int, v: int)
    requires a == q * b + r
    ensures b * u + r * v == a * v + b * (u - q * v)
  {
    assert a * v == q * b * v + r * v;
    assert b * (u - q * v) == b * u - b * (q * v);
    assert q * b * v == b * (q * v);
  }

  lemma CoprimeGcd(a: nat, b: nat)
    requires Coprime(a, b) && (a > 0 || b > 0)
    ensures Gcd(a, b) == 1
  {
    GcdDivides(a, b);
  }

  /** A divisor of a product that shares nothing with one factor divides the other. */
  lemma EuclidsLemma(a: nat, b: nat, c: nat)
    requires a > 0 && Coprime(a, b) && Divides(a, b * c)
    ensures Divides(a, c)
  {
    CoprimeGcd(a, b);
    var x, y := Bezout(a, b);
    var k: nat :| b * c == a * k;
    CombineDivisors(a, b, c, k, x, y);
    NonNegative(a, x * c + k * y, c);
  }

  lemma CombineDivisors(a: nat, b: nat, c: nat, k: nat, x: int, y: int)
    requires a * x + b * y == 1 && b * c == a * k
    ensures c == a * (x * c + k * y)
  {
    Distribute(a * x, b * y, c);
    Distribute(x * c, k * y, a);
    Reassociate(a, x, c);
    Reassociate(b, y, c);
    Reassociate(b, c, y);
    Reassociate(a, k, y);
  }

  lemma Distribute(m: int, n: int, c: int)
    ensures (m + n) * c == m * c + n * c && c * (m + n) == c * m + c * n
  {
  }

  lemma Reassociate(a: int, b: int, c: int)
    ensures a * b * c == a * (b * c) && b * c == c * b
  {
  }

  lemma NonNegative(a: nat, m: int, c: nat)
    requires a > 0 && c == a * m
    ensures Divides(a, c)
  {
    assert a * m == m * a;
    SignedProduct(m, a);
    assert m >= 0;
    var k: nat := m;
    assert c == a * k;
  }

  lemma DividesBound(d: nat, n: nat)
    requires n > 0 && Divides(d, n)
    ensures 0 < d <= n
  {
    var k: nat :| n == d * k;
    assert d * k == k * d;
    SignedProduct(k, d);
  }

  // ---- Lowest terms ------------------------------------------------------------------------

  /** `p / q` is the fraction `num / den` in lowest terms. */
  ghost predicate Reduced(num: int, den: int, p: int, q: int)
  {
    q > 0 && p * den == num * q && Coprime(Abs(p), q)
  }

  /** Its lowest terms are too large for 64 bits. */
  ghost predicate NeverFits(num: int, den: int)
  {
    forall p, q | Reduced(num, den, p, q) :: Abs(p) > MAX64 || q > MAX64
  }

  /** There is only one. */
  lemma ReducedUnique(num: int, den: int, p: int, q: int, p': int, q': int)
    requires den != 0 && Reduced(num, den, p, q) && Reduced(num, den, p', q')
    ensures p == p' && q == q'
  {
    assert p * q' == p' * q by {
      CrossCancel(num, den, p, q, p', q');
    }
    QDivides(p, q, p', q');
    QDivides(p', q', p, q);
    DividesBound(q, q');
    DividesBound(q', q);
    assert (p - p') * q == 0;
    SignedProduct(p - p', q);
  }

  lemma CrossCancel(num: int, den: int, p: int, q: int, p': int, q': int)
    requires den != 0 && p * den == num * q && p' * den == num * q'
    ensures p * q' == p' * q
  {
    assert (p * q') * den == (p * den) * q' == num * q * q';
    assert (p' * q) * den == (p' * den) * q == num * q' * q;
    assert num * q * q' == num * q' * q;
    assert (p * q' - p' * q) * den == 0;
    SignedProduct(p * q' - p' * q, Abs(den));
    assert den > 0 || (p * q' - p' * q) * Abs(den) == -((p * q' - p' * q) * den);
  }

  lemma QDivides(p: int, q: int, p': int, q': int)
    requires q > 0 && q' > 0 && p * q' == p' * q && Coprime(Abs(p), q)
    ensures Divides(q, q')
  {
    assert Abs(p) * q' == Abs(p') * q by {
      AbsMul(p, q');
      AbsMul(p', q);
    }
    assert Abs(p) * q' == q * Abs(p');
    assert Coprime(q, Abs(p));
    EuclidsLemma(q, Abs(p), q');
  }

  lemma AbsMul(p: int, q: nat)
    ensures Abs(p * q) == Abs(p) * q
  {
    SignedProduct(p, q);
    if p < 0 {
      assert -p * q == -(p * q);
    }
  }

  method GcdLoop(a0: nat, b0: nat) returns (g: nat)
    ensures g == Gcd(a0, b0)
  {
    var a, b := a0, b0;
    while b != 0
      invariant Gcd(a, b) == Gcd(a0, b0)
      decreases b
    {
      a, b := b, a % b;
    }
    return a;
  }

  /** Dividing out the greatest common divisor leaves nothing in common. */
  lemma QuotientsCoprime(an: nat, ad: nat)
    requires ad > 0
    ensures Gcd(an, ad) > 0
    ensures var g := Gcd(an, ad);
            && an / g >= 0 && ad / g > 0 && an == an / g * g && ad == ad / g * g && Coprime(an / g, ad / g)
  {
    GcdDivides(an, ad);
    var g := Gcd(an, ad);
    var k: nat :| an == g * k;
    var m: nat :| ad == g * m;
    ExactQuotient(an, g, k);
    ExactQuotient(ad, g, m);
    var x, y := Bezout(an, ad);
    forall d: nat | Divides(d, k) && Divides(d, m) ensures d == 1 {
      var s: nat :| k == d * s;
      var t: nat :| m == d * t;
      CommonDivisorIsOne(g, d, s, t, x, y, an, ad);
    }
  }

  lemma ExactQuotient(n: nat, g: nat, k: nat)
    requires g > 0 && n == g * k
    ensures n / g == k && n == n / g * g
  {
    assert n == k * g + 0;
    DivMod(n, g);
    assert (n / g - k) * g == -(n % g);
    SignedProduct(n / g - k, g);
  }

  lemma CommonDivisorIsOne(g: nat, d: nat, s: nat, t: nat, x: int, y: int, an: nat, ad: nat)
    requires g > 0 && an == g * (d * s) && ad == g * (d * t) && an * x + ad * y == g
    ensures d == 1
  {
    var c := s * x + t * y;
    Factor(g, d * s, d * t, x, y);
    Factor(d, s, t, x, y);
    assert d * s * x + d * t * y == d * c;
    assert g * (d * c) == g;
    UnitFactor(g, d * c);
    assert c * d == d * c == 1;
    SignedProduct(c, d);
  }

  lemma Factor(g: int, p: int, q: int, x: int, y: int)
    ensures g * p * x + g * q * y == g * (p * x + q * y)
  {
    assert g * (p * x) == g * p * x && g * (q * y) == g * q * y;
  }

  lemma UnitFactor(g: nat, m: int)
    requires g > 0 && g * m == g
    ensures m == 1
  {
    assert (m - 1) * g == 0;
    SignedProduct(m - 1, g);
  }

  /** `Rational::from_i128`: the unique lowest-terms form, refused exactly when it
      does not fit 64 bits. */
  method FromI128(num: I128, den: I128) returns (r: Result<Rational, TimeError>)
    requires den != 0
    ensures r.Success? ==> Canonical(r.value) && Reduced(num, den, r.value.num, r.value.den)
    ensures r.Failure? <==> NeverFits(num, den)
  {
    var negative := (num < 0) != (den < 0);
    var an: nat, ad: nat := Abs(num), Abs(den);
    var g := GcdLoop(an, ad);
    QuotientsCoprime(an, ad);
    var ra: int, rd: int := an / g, ad / g;
    ghost var p := if negative then -ra else ra;
    SignsMatch(num, den, an, ad, g, ra, rd, p);
    if ra > MAX64 || rd > MAX64 {
      forall p', q' | Reduced(num, den, p', q') ensures Abs(p') > MAX64 || q' > MAX64 {
        ReducedUnique(num, den, p, rd, p', q');
      }
      return Failure(Overflow);
    }
    return Success(Rational(if negative then -ra else ra, rd));
  }

  lemma SignsMatch(num: int, den: int, an: int, ad: int, g: int, ra: int, rd: int, p: int)
    requires den != 0 && an == Abs(num) && ad == Abs(den) && an == ra * g && ad == rd * g && g > 0 && rd > 0 && ra >= 0
    requires p == if (num < 0) != (den < 0) then -ra else ra
    requires Coprime(ra, rd)
    ensures Reduced(num, den, p, rd) && Abs(p) == ra
  {
    assert ra * ad == an * rd by {
      assert ra * (rd * g) == (ra * g) * rd;
    }
    assert ra * -ad == -(ra * ad) && -ra * ad == -(ra * ad) && -an * rd == -(an * rd) && -ra * -ad == ra * ad;
  }

  ghost predicate Canonical(r: Rational)
  {
    r.den > 0 && -MAX64 <= r.num && Coprime(Abs(r.num), r.den)
  }

  /** Products of two 64-bit magnitudes stay well inside 128 bits. */
  lemma ProductBound(a: int, b: int)
    requires -0x8000_0000_0000_0000 <= a <= 0x8000_0000_0000_0000
    requires -0x8000_0000_0000_0000 <= b <= 0x8000_0000_0000_0000
    ensures -0x4000_0000_0000_0000_0000_0000_0000_0000 <= a * b <= 0x4000_0000_0000_0000_0000_0000_0000_0000
  {
    var m := 0x8000_0000_0000_0000;
    MulMonotone(Abs(a), m, Abs(b));
    MulMonotone(Abs(b), m, m);
    assert m * m == 0x4000_0000_0000_0000_0000_0000_0000_0000;
    AbsProduct(a, b);
  }

  lemma AbsProduct(a: int, b: int)
    ensures Abs(a * b) == Abs(a) * Abs(b)
  {
    AbsMul(a, Abs(b));
    if b < 0 {
      assert a * Abs(b) == -(a * b);
    }
  }

  ghost predicate IsProduct(r: Rational, a: Rational, b: Rational)
  {
    Canonical(r) && Reduced(a.num * b.num, a.den * b.den, r.num, r.den)
  }

  ghost predicate IsSum(r: Rational, a: Rational, b: Rational)
  {
    Canonical(r) && Reduced(a.num * b.den + b.num * a.den, a.den * b.den, r.num, r.den)
  }

  ghost predicate MulOverflows(a: Rational, b: Rational)
  {
    NeverFits(a.num * b.num, a.den * b.den)
  }

  ghost predicate AddOverflows(a: Rational, b: Rational)
  {
    NeverFits(a.num * b.den + b.num * a.den, a.den * b.den)
  }

  /** `Rational::mul`. */
  method Mul(a: Rational, b: Rational) returns (r: Result<Rational, TimeError>)
    requires Canonical(a) && Canonical(b)
    ensures if r.Success? then IsProduct(r.value, a, b) else MulOverflows(a, b)
  {
    ProductBound(a.num, b.num);
    ProductBound(a.den, b.den);
    SignedProduct(a.den, b.den);
    var num: I128, den: I128 := a.num * b.num, a.den * b.den;
    r := FromI128(num, den);
  }

  /** `Rational::add`. */
  method Add(a: Rational, b: Rational) returns (r: Result<Rational, TimeError>)
    requires Canonical(a) && Canonical(b)
    ensures if r.Success? then IsSum(r.value, a, b) else AddOverflows(a, b)
  {
    ProductBound(a.num, b.den);
    ProductBound(b.num, a.den);
    ProductBound(a.den, b.den);
    SignedProduct(a.den, b.den);
    TwoProducts(a.num, b.den, b.num, a.den);
    var left: I128, right: I128 := a.num * b.den, b.num * a.den;
    var num: I128, den: I128 := left + right, a.den * b.den;
    r := FromI128(num, den);
  }

  /** Canonical operands stop one short of the 64-bit magnitude, so even two
      products fit. */
  lemma TwoProducts(a: int, b: int, c: int, d: int)
    requires Abs(a) <= MAX64 && Abs(b) <= MAX64 && Abs(c) <= MAX64 && Abs(d) <= MAX64
    ensures Fits128(a * b + c * d)
  {
    MaxProduct(a, b);
    MaxProduct(c, d);
  }

  lemma MaxProduct(a: int, b: int)
    requires Abs(a) <= MAX64 && Abs(b) <= MAX64
    ensures Abs(a * b) <= MAX64 * MAX64
  {
    MulMonotone(Abs(a), MAX64, Abs(b));
    MulMonotone(Abs(b), MAX64, MAX64);
    AbsProduct(a, b);
  }

  // ---- Exact values -----------------------------------------------------------------------

  ghost function Value(r: Rational): real
    requires r.den > 0
  {
    r.num as real / r.den as real
  }

  lemma CancelReal(p: real, q: real, d: real)
    requires p * d == q * d && d != 0.0
    ensures p == q
  {
    assert (p - q) * d == 0.0;
  }

  lemma ValueTimesDen(r: Rational)
    requires r.den > 0
    ensures Value(r) * r.den as real == r.num as real
  {
  }

  lemma RealOfProduct(a: int, b: int)
    ensures (a * b) as real == a as real * b as real
  {
  }

  /** A reduced fraction has the value of the fraction it reduces. */
  lemma ReducedValue(num: int, den: int, r: Rational, v: real)
    requires den > 0 && r.den > 0 && r.num * den == num * r.den && v * den as real == num as real
    ensures Value(r) == v
  {
    ValueTimesDen(r);
    RealOfProduct(r.num, den);
    RealOfProduct(num, r.den);
    var x, d, q := Value(r), den as real, r.den as real;
    assert (x * q) * d == (v * d) * q;
    assert (x * d) * q == (v * d) * q by {
      assert (x * q) * d == (x * d) * q;
    }
    CancelReal(x * d, v * d, q);
    CancelReal(x, v, d);
  }

  lemma MulValue(a: Rational, b: Rational, r: Rational)
    requires a.den > 0 && b.den > 0 && r.den > 0 && r.num * (a.den * b.den) == a.num * b.num * r.den
    ensures Value(r) == Value(a) * Value(b)
  {
    ValueTimesDen(a);
    ValueTimesDen(b);
    SignedProduct(a.den, b.den);
    RealOfProduct(a.num, b.num);
    RealOfProduct(a.den, b.den);
    var x, y, p, q := Value(a), Value(b), a.den as real, b.den as real;
    assert (x * y) * (p * q) == (x * p) * (y * q);
    ReducedValue(a.num * b.num, a.den * b.den, r, x * y);
  }

  lemma AddValue(a: Rational, b: Rational, r: Rational)
    requires a.den > 0 && b.den > 0 && r.den > 0
    requires r.num * (a.den * b.den) == (a.num * b.den + b.num * a.den) * r.den
    ensures Value(r) == Value(a) + Value(b)
  {
    ValueTimesDen(a);
    ValueTimesDen(b);
    SignedProduct(a.den, b.den);
    RealOfProduct(a.num, b.den);
    RealOfProduct(b.num, a.den);
    RealOfProduct(a.den, b.den);
    var x, y, p, q := Value(a), Value(b), a.den as real, b.den as real;
    assert (x + y) * (p * q) == (x * p) * q + (y * q) * p;
    ReducedValue(a.num * b.den + b.num * a.den, a.den * b.den, r, x + y);
  }

  function Negated(r: Rational): Rational
    requires -MAX64 <= r.num
  {
    Rational(-r.num, r.den)
  }

  // ---- Time maps --------------------------------------------------------------------------

  /** `local = (parent - start) * rate + offset`. */
  datatype TimeMap = TimeMap(start: I64, rate: Rational, offset: I64)

  /** `local = a * parent + b`, unrounded. */
  datatype Composed = Composed(a: Rational, b: Rational)

  ghost predicate EdgeOk(e: TimeMap)
  {
    Canonical(e.rate) && e.start != MIN64 && e.offset != MIN64
  }

  ghost predicate ComposedOk(c: Composed)
  {
    Canonical(c.a) && Canonical(c.b)
  }

  ghost function Along(e: TimeMap, t: real): real
    requires e.rate.den > 0
  {
    (t - e.start as real) * Value(e.rate) + e.offset as real
  }

  /** Every edge in turn, exactly. */
  ghost function AlongAll(edges: seq<TimeMap>, t: real): real
    requires forall i | 0 <= i < |edges| :: EdgeOk(edges[i])
  {
    if edges == [] then t
    else
      assert EdgeOk(edges[|edges| - 1]);
      Along(edges[|edges| - 1], AlongAll(edges[..|edges| - 1], t))
  }

  ghost function At(c: Composed, t: real): real
    requires c.a.den > 0 && c.b.den > 0
  {
    Value(c.a) * t + Value(c.b)
  }

  lemma WholeIsCanonical(n: I64)
    requires n != MIN64
    ensures Canonical(Rational(n, 1)) && Value(Rational(n, 1)) == n as real
  {
    forall d: nat | Divides(d, Abs(n)) && Divides(d, 1) ensures d == 1 {
      DividesBound(d, 1);
    }
  }

  lemma NegatedIsCanonical(r: Rational)
    requires Canonical(r)
    ensures Canonical(Negated(r)) && Value(Negated(r)) == -Value(r)
  {
    ValueTimesDen(r);
    ValueTimesDen(Negated(r));
    CancelReal(Value(Negated(r)), -Value(r), r.den as real);
  }

  /** The single edge needs a rational that does not fit. */
  ghost predicate EdgeOverflows(e: TimeMap)
    requires EdgeOk(e)
  {
    || MulOverflows(Rational(e.start, 1), e.rate)
    || exists s :: IsProduct(s, Rational(e.start, 1), e.rate) && AddOverflows(Rational(e.offset, 1), Negated(s))
  }

  ghost predicate StepOverflows(c: Composed, other: Composed)
  {
    || MulOverflows(other.a, c.a) || MulOverflows(other.a, c.b)
    || exists s :: IsProduct(s, other.a, c.b) && AddOverflows(s, other.b)
  }

  /** Some prefix of the stack, exactly composed, meets an edge it cannot take in. */
  ghost predicate StackOverflows(edges: seq<TimeMap>)
    requires forall i | 0 <= i < |edges| :: EdgeOk(edges[i])
  {
    exists i :: 0 <= i < |edges| &&
      (EdgeOverflows(edges[i]) ||
       exists acc, edge :: ComposedOk(acc) && ComposedOk(edge) && StepOverflows(acc, edge) &&
         (forall t: real :: At(acc, t) == AlongAll(edges[..i], t)) && forall t: real :: At(edge, t) == Along(edges[i], t))
  }

  /** `ComposedTimeMap::from`. */
  method From(edge: TimeMap) returns (r: Result<Composed, TimeError>)
    requires EdgeOk(edge)
    ensures r.Success? ==> ComposedOk(r.value) && forall t: real :: At(r.value, t) == Along(edge, t)
    ensures r.Failure? ==> EdgeOverflows(edge)
  {
    WholeIsCanonical(edge.start);
    WholeIsCanonical(edge.offset);
    var scaled := Mul(Rational(edge.start, 1), edge.rate);
    if scaled.Failure? {
      return Failure(Overflow);
    }
    MulValue(Rational(edge.start, 1), edge.rate, scaled.value);
    NegatedIsCanonical(scaled.value);
    var b := Add(Rational(edge.offset, 1), Negated(scaled.value));
    if b.Failure? {
      return Failure(Overflow);
    }
    AddValue(Rational(edge.offset, 1), Negated(scaled.value), b.value);
    r := Success(Composed(edge.rate, b.value));
    forall t: real ensures At(r.value, t) == Along(edge, t) {
      FromIsExact(t, edge.start as real, Value(edge.rate), edge.offset as real);
    }
  }

  lemma FromIsExact(t: real, start: real, rate: real, offset: real)
    ensures rate * t + (offset + -(start * rate)) == (t - start) * rate + offset
  {
  }

  /** `ComposedTimeMap::and_then`: `other` after `c`. */
  method AndThen(c: Composed, other: Composed) returns (r: Result<Composed, TimeError>)
    requires ComposedOk(c) && ComposedOk(other)
    ensures r.Success? ==> ComposedOk(r.value) && forall t: real :: At(r.value, t) == At(other, At(c, t))
    ensures r.Failure? ==> StepOverflows(c, other)
  {
    var na := Mul(other.a, c.a);
    if na.Failure? {
      return Failure(Overflow);
    }
    var scaled := Mul(other.a, c.b);
    if scaled.Failure? {
      return Failure(Overflow);
    }
    var nb := Add(scaled.value, other.b);
    if nb.Failure? {
      return Failure(Overflow);
    }
    MulValue(other.a, c.a, na.value);
    MulValue(other.a, c.b, scaled.value);
    AddValue(scaled.value, other.b, nb.value);
    r := Success(Composed(na.value, nb.value));
    forall t: real ensures At(r.value, t) == At(other, At(c, t)) {
      AffineInAffine(Value(other.a), Value(other.b), Value(c.a), Value(c.b), t);
    }
  }

  lemma AffineInAffine(oa: real, ob: real, a: real, b: real, t: real)
    ensures oa * a * t + (oa * b + ob) == oa * (a * t + b) + ob
  {
  }

  /** `ComposedTimeMap::compose`: the whole edge stack as one map, exactly. */
  method Compose(edges: seq<TimeMap>) returns (r: Result<Composed, TimeError>)
    requires forall i | 0 <= i < |edges| :: EdgeOk(edges[i])
    ensures r.Success? ==> ComposedOk(r.value) && forall t: real :: At(r.value, t) == AlongAll(edges, t)
    ensures r.Failure? ==> StackOverflows(edges)
  {
    WholeIsCanonical(1);
    WholeIsCanonical(0);
    var acc := Composed(Rational(1, 1), Rational(0, 1));
    for i := 0 to |edges|
      invariant ComposedOk(acc) && forall t: real :: At(acc, t) == AlongAll(edges[..i], t)
    {
      var edge := From(edges[i]);
      if edge.Failure? {
        return Failure(Overflow);
      }
      var next := AndThen(acc, edge.value);
      if next.Failure? {
        return Failure(Overflow);
      }
      forall t: real ensures At(next.value, t) == AlongAll(edges[..i + 1], t) {
        assert edges[..i + 1][..i] == edges[..i];
      }
      acc := next.value;
    }
    assert edges[..|edges|] == edges;
    return Success(acc);
  }

  // ---- Rounding once ------------------------------------------------------------------------

  /** The nearest integer, ties to even. */
  ghost predicate Rounded(v: real, t: int)
  {
    && -0.5 <= v - t as real <= 0.5
    && (v - t as real == 0.5 || v - t as real == -0.5 ==> t % 2 == 0)
  }

  lemma RoundedUnique(v: real, s: int, t: int)
    requires Rounded(v, s) && Rounded(v, t)
    ensures s == t
  {
  }

  ghost predicate NoI64Rounds(v: real)
  {
    forall t | Rounded(v, t) :: t > MAX64 || t < MIN64
  }

  /** Division toward zero, corrected to the floor. */
  method FloorDivide(n: I128, d: I128) returns (floor: I128, rem: I128)
    requires d > 0
    ensures n == floor * d + rem && 0 <= rem < d
  {
    TruncDivIs(n, d);
    var q: int := TruncDiv(n, d);
    rem := n - q * d;
    assert (q - 1) * d == q * d - d;
    hide TruncDiv, TruncMod;
    if rem < 0 {
      q, rem := q - 1, rem + d;
    }
    FloorFits(n, d, q, rem);
    floor := q;
  }

  /** Floor division, then the nearer candidate, ties to the even one. */
  method RoundFraction(n: I128, d: I128, ghost v: real) returns (r: Result<I64, TimeError>)
    requires 0 < d <= 0x4000_0000_0000_0000_0000_0000_0000_0000 && v * d as real == n as real
    ensures r.Success? ==> Rounded(v, r.value)
    ensures r.Failure? <==> NoI64Rounds(v)
  {
    var floor, rem := FloorDivide(n, d);
    FloorFits(n, d, floor, rem);
    var q: int := floor;
    var twice: I128 := 2 * rem;
    if twice > d || (twice == d && floor % 2 != 0) {
      q := floor + 1;
    }
    RoundsToNearest(v, n, d, floor, rem, q);
    if q > MAX64 || q < MIN64 {
      forall t | Rounded(v, t) ensures t > MAX64 || t < MIN64 {
        RoundedUnique(v, q, t);
      }
      return Failure(Overflow);
    }
    return Success(q);
  }

  /** The floor of a quotient of 128-bit numbers fits, with room for one more. */
  lemma FloorFits(n: I128, d: I128, q: int, rem: int)
    requires d > 0 && n == q * d + rem && 0 <= rem < d
    ensures Fits128(q) && (2 * rem >= d ==> Fits128(q + 1))
  {
    SignedProduct(q, d);
    MulMonotone(1, d, Abs(q));
    AbsMul(q, d);
    if q > 0 && 2 * rem >= d {
      MulMonotone(1, d, q);
    }
  }

  /** `ComposedTimeMap::evaluate`: when it answers, the answer is the exact value of
      the map rounded once, ties to even. It refuses exactly when an intermediate or
      the answer does not fit. */
  method Evaluate(c: Composed, parent: I64) returns (r: Result<I64, TimeError>)
    requires ComposedOk(c)
    ensures r.Success? ==> Rounded(At(c, parent as real), r.value)
    ensures r.Failure? <==>
              var term := c.a.num * parent * c.b.den;
              !Fits128(term) || !Fits128(term + c.b.num * c.a.den) || NoI64Rounds(At(c, parent as real))
  {
    var an: I128, ad: I128, bn: I128, bd: I128 := c.a.num, c.a.den, c.b.num, c.b.den;
    ProductBound(an, parent);
    ProductBound(bn, ad);
    ProductBound(ad, bd);
    SignedProduct(ad, bd);
    var product: I128 := an * parent;
    if !Fits128(product * bd) {
      return Failure(Overflow);
    }
    var term: I128, cross: I128 := product * bd, bn * ad;
    if !Fits128(term + cross) {
      return Failure(Overflow);
    }
    var n: I128, d: I128 := term + cross, ad * bd;
    ExactValue(c, parent, n, d);
    r := RoundFraction(n, d, At(c, parent as real));
  }

  /** The fraction evaluated is the map's exact value. */
  lemma ExactValue(c: Composed, parent: int, n: int, d: int)
    requires c.a.den > 0 && c.b.den > 0 && d == c.a.den * c.b.den
    requires n == c.a.num * parent * c.b.den + c.b.num * c.a.den
    ensures At(c, parent as real) * d as real == n as real
  {
    ValueTimesDen(c.a);
    ValueTimesDen(c.b);
    RealOfProduct(c.a.den, c.b.den);
    RealOfProduct(c.a.num, parent);
    RealOfProduct(c.a.num * parent, c.b.den);
    RealOfProduct(c.b.num, c.a.den);
    var x, y, p, q, t := Value(c.a), Value(c.b), c.a.den as real, c.b.den as real, parent as real;
    assert (x * t + y) * (p * q) == (x * p) * t * q + (y * q) * p;
  }

  lemma RoundsToNearest(v: real, n: int, d: int, floor: int, rem: int, q: int)
    requires d > 0 && v * d as real == n as real && n == floor * d + rem && 0 <= rem < d
    requires q == if 2 * rem > d || (2 * rem == d && floor % 2 != 0) then floor + 1 else floor
    ensures Rounded(v, q)
  {
    RealOfProduct(floor, d);
    var e, dr := v - floor as real, d as real;
    assert e * dr == rem as real;
    ScaledCompare(e, dr, rem as real);
  }

  lemma ScaledCompare(e: real, d: real, r: real)
    requires d > 0.0 && e * d == r && 0.0 <= r < d
    ensures 0.0 <= e < 1.0
    ensures (2.0 * r > d <==> e > 0.5) && (2.0 * r == d <==> e == 0.5)
  {
    var z, w := e - 0.5, e - 1.0;
    SignReal(e, d);
    SignReal(z, d);
    SignReal(w, d);
    assert z * d == r - 0.5 * d;
    assert w * d == r - d;
    assert z > 0.0 <==> r - 0.5 * d > 0.0;
    assert z < 0.0 <==> r - 0.5 * d < 0.0;
  }

  lemma SignReal(x: real, d: real)
    requires d > 0.0
    ensures x > 0.0 <==> x * d > 0.0
    ensures x < 0.0 <==> x * d < 0.0
  {
    if x > 0.0 {
      PositiveProduct(x, d);
    } else if x < 0.0 {
      PositiveProduct(-x, d);
      assert x * d == -(-x * d);
    }
  }

  lemma PositiveProduct(x: real, d: real)
    requires x > 0.0 && d > 0.0
    ensures x * d > 0.0
  {
    ScaleMonotone(0.0, x, d);
    assert 0.0 * d == 0.0;
  }

  lemma ScaleMonotone(x: real, y: real, d: real)
    requires x < y && d > 0.0
    ensures x * d < y * d
  {
  }
}
