/** Which numbers the ratio operations return (src/Numbers.cpp:1704-1717, 2193-2262). */
module RatioValues {
  import opened Digits
  import opened Divisibility
  import opened BigInts
  import opened Ratios
  import LongOps

  /** The number a ratio stands for. */
  ghost function Value(x: Rational): real
    requires Den(x) != 0
  {
    Num(x) as real / Den(x) as real
  }

  ghost function Magnitude(v: real): real {
    if v < 0.0 then -v else v
  }

  lemma RealQuotient(a: real, b: real, q: real)
    requires b != 0.0
    ensures q == a / b <==> q * b == a
  {
  }

  lemma RealProduct(a: int, b: int)
    ensures (a * b) as real == a as real * b as real
  {
  }

  /** Equal cross products are equal quotients. */
  lemma CrossQuotients(a: int, b: int, c: int, d: int)
    requires b != 0 && d != 0 && a * d == c * b
    ensures a as real / b as real == c as real / d as real
  {
    var q := c as real / d as real;
    RealQuotient(c as real, d as real, q);
    RealProduct(a, d);
    RealProduct(c, b);
    RealQuotient(a as real, b as real, q);
    SwapFactors(q, b as real, d as real, a as real);
  }

  lemma SwapFactors(q: real, b: real, d: real, a: real)
    requires d != 0.0 && a * d == q * d * b
    ensures q * b == a
  {
    RealQuotient(a * d, d, a);
    RealQuotient(a * d, d, q * b);
  }

  lemma MagnitudeOf(n: int, d: int)
    requires d != 0
    ensures Abs(d) != 0 && Abs(n) as real / Abs(d) as real == Magnitude(n as real / d as real)
    ensures n as real / d as real >= 0.0 <==> n == 0 || (n > 0) == (d > 0)
  {
    var q := n as real / d as real;
    RealQuotient(n as real, d as real, q);
    RealQuotient(Abs(n) as real, Abs(d) as real, Magnitude(q));
    SignOf(q, d as real);
  }

  lemma SignOf(q: real, d: real)
    requires d != 0.0
    ensures q * d > 0.0 <==> q != 0.0 && (q > 0.0) == (d > 0.0)
  {
  }

  /** What `divide` returns is the magnitude of the quotient. */
  lemma DivideExact(n: Held, d: Held)
    requires n.Fits() && d.Fits() && Divide(n, d).Ok?
    ensures d.n != 0 && Den(Divide(n, d).value) > 0
    ensures Value(Divide(n, d).value) == Magnitude(n.n as real / d.n as real)
  {
    hide Canonical, Reduces;
    DivideCanonical(n, d);
    DivideDefined(n, d);
    hide Divide, Held.Fits, Divides, Wraps, Left;
    var r := Divide(n, d).value;
    CrossQuotients(Num(r), Den(r), Abs(n.n), Abs(d.n));
    MagnitudeOf(n.n, d.n);
  }

  // ---- The operations ----

  lemma SumQuotient(a: int, b: int, c: int, d: int)
    requires b != 0 && d != 0 && d * b != 0
    ensures (c * b + a * d) as real / (d * b) as real == a as real / b as real + c as real / d as real
  {
    var p, q := a as real / b as real, c as real / d as real;
    RealQuotient(a as real, b as real, p);
    RealQuotient(c as real, d as real, q);
    RealProduct(c, b);
    RealProduct(a, d);
    RealProduct(d, b);
    CommonDivisor(p, q, b as real, d as real);
    RealQuotient((c * b + a * d) as real, (d * b) as real, p + q);
  }

  lemma CommonDivisor(p: real, q: real, b: real, d: real)
    ensures (p + q) * (d * b) == q * d * b + p * b * d
  {
  }

  lemma ProductQuotient(a: int, b: int, c: int, d: int)
    requires b != 0 && d != 0 && b * d != 0
    ensures (a * c) as real / (b * d) as real == (a as real / b as real) * (c as real / d as real)
  {
    var p, q := a as real / b as real, c as real / d as real;
    RealQuotient(a as real, b as real, p);
    RealQuotient(c as real, d as real, q);
    RealProduct(a, c);
    RealProduct(b, d);
    FourFactors(p, q, b as real, d as real);
    RealQuotient((a * c) as real, (b * d) as real, p * q);
  }

  lemma FourFactors(p: real, q: real, b: real, d: real)
    ensures (p * q) * (b * d) == (p * b) * (q * d)
  {
  }

  lemma QuotientQuotient(a: int, b: int, c: int, d: int)
    requires b != 0 && d != 0 && c != 0 && b * c != 0
    ensures c as real / d as real != 0.0
    ensures (a * d) as real / (b * c) as real == (a as real / b as real) / (c as real / d as real)
  {
    var p, q := a as real / b as real, c as real / d as real;
    RealQuotient(c as real, d as real, q);
    ProductQuotient(a, b, d, c);
    var i := d as real / c as real;
    RealQuotient(d as real, c as real, i);
    Inverse(q, i, c as real, d as real);
    FourFactors(p, q, i, 1.0);
    RealQuotient(p, q, p * i);
  }

  lemma Inverse(q: real, i: real, c: real, d: real)
    requires c != 0.0 && q * d == c && i * c == d
    ensures q * i == 1.0
  {
    assert q * i * c == c;
    RealQuotient(c, c, q * i);
  }

  /** The signs of products. */
  lemma NonZeroProduct(a: int, b: int)
    ensures a * b != 0 <==> a != 0 && b != 0
    ensures a * b > 0 <==> a != 0 && b != 0 && (a > 0) == (b > 0)
  {
  }

  /** Where adding ratios returns, the result is the magnitude of the sum: the sum itself exactly when that
      is not negative. */
  lemma AddExact(x: Rational, y: Rational)
    requires Den(x) > 0 && Den(y) > 0 && Add(x, y).Ok?
    ensures var r := Add(x, y).value;
            && Den(r) > 0 && Value(r) == Magnitude(Value(x) + Value(y))
            && (Value(r) == Value(x) + Value(y) <==> Num(x) * Den(y) + Num(y) * Den(x) >= 0)
  {
    var n, d := Num(y) * Den(x) + Num(x) * Den(y), Den(y) * Den(x);
    hide Divide;
    SumFits(Num(y) * Den(x), Num(x) * Den(y));
    ProductFits(Den(y), Den(x));
    DivideExact(Sum(Num(y) * Den(x), Num(x) * Den(y)), Product(Den(y), Den(x)));
    hide Add;
    SumQuotient(Num(x), Den(x), Num(y), Den(y));
    NonZeroProduct(Den(y), Den(x));
    MagnitudeOf(n, d);
  }

  lemma ValueProduct(x: Rational, y: Rational)
    requires Den(x) > 0 && Den(y) > 0
    ensures Den(x) * Den(y) != 0
    ensures var q := Value(x) * Value(y);
            && (Num(x) * Num(y)) as real / (Den(x) * Den(y)) as real == q
            && (Magnitude(q) == q <==> Num(x) == 0 || Num(y) == 0 || (Num(x) > 0) == (Num(y) > 0))
  {
    NonZeroProduct(Den(x), Den(y));
    NonZeroProduct(Num(x), Num(y));
    ProductQuotient(Num(x), Den(x), Num(y), Den(y));
    MagnitudeOf(Num(x) * Num(y), Den(x) * Den(y));
  }

  lemma MultiplyDivides(x: Rational, y: Rational)
    requires Den(x) > 0 && Den(y) > 0 && Ratios.Multiply(x, y).Ok?
    ensures Den(x) * Den(y) != 0 && Den(Ratios.Multiply(x, y).value) > 0
    ensures Value(Ratios.Multiply(x, y).value) == Magnitude((Num(x) * Num(y)) as real / (Den(x) * Den(y)) as real)
  {
    hide Divide, Value, Magnitude;
    NonZeroProduct(Den(x), Den(y));
    ProductFits(Num(x), Num(y));
    ProductFits(Den(x), Den(y));
    DivideExact(Product(Num(x), Num(y)), Product(Den(x), Den(y)));
  }

  /** Where multiplying returns, the result is the magnitude of the product: the product itself exactly when
      the signs agree or a factor is zero. */
  lemma MultiplyExact(x: Rational, y: Rational)
    requires Den(x) > 0 && Den(y) > 0 && Ratios.Multiply(x, y).Ok?
    ensures var r := Ratios.Multiply(x, y).value;
            && Den(r) > 0 && Value(r) == Magnitude(Value(x) * Value(y))
            && (Value(r) == Value(x) * Value(y) <==> Num(x) == 0 || Num(y) == 0 || (Num(x) > 0) == (Num(y) > 0))
  {
    MultiplyDivides(x, y);
    hide Ratios.Multiply, Magnitude, Value;
    ValueProduct(x, y);
  }

  /** Where dividing returns, the divisor is not zero and the result is the magnitude of the quotient: the
      quotient itself exactly when the signs agree or the dividend is zero. */
  lemma QuotientExact(x: Rational, y: Rational)
    requires Den(x) > 0 && Den(y) > 0 && Quotient(x, y).Ok?
    ensures Num(y) != 0 && Value(y) != 0.0
    ensures var r := Quotient(x, y).value;
            && Den(r) > 0 && Value(r) == Magnitude(Value(x) / Value(y))
            && (Value(r) == Value(x) / Value(y) <==> Num(x) == 0 || (Num(x) > 0) == (Num(y) > 0))
  {
    hide Divide;
    ProductFits(Num(x), Den(y));
    ProductFits(Den(x), Num(y));
    DivideExact(Product(Num(x), Den(y)), Product(Den(x), Num(y)));
    hide Quotient;
    NonZeroProduct(Den(x), Num(y));
    NonZeroProduct(Num(x), Den(y));
    QuotientQuotient(Num(x), Den(x), Num(y), Den(y));
    MagnitudeOf(Num(x) * Den(y), Den(x) * Num(y));
  }

  /** Incrementing adds one, decrementing takes it away again, and negating turns the sign. */
  lemma StepsExact(x: Rational)
    requires x.Ratio? && x.den > 0
    ensures Value(Inc(x)) == Value(x) + 1.0 && Value(Dec(x)) == Value(x) - 1.0 && Value(Ratios.Negate(x)) == -Value(x)
    ensures Dec(Inc(x)) == x && Inc(Dec(x)) == x && Ratios.Negate(Ratios.Negate(x)) == x
  {
    var a, b, q := x.num as real, x.den as real, Value(x);
    RealQuotient(a, b, q);
    RealQuotient(a + b, b, q + 1.0);
    RealQuotient(a - b, b, q - 1.0);
    RealQuotient(-a, b, -q);
  }

  /** A ratio and its negation add up to the whole number zero. */
  lemma NegateCancels(x: Rational)
    requires x.Ratio? && x.den > 0
    ensures Add(x, Ratios.Negate(x)) == Ok(Whole(0))
  {
    var n, d := Sum(-x.num * x.den, x.num * x.den), Product(x.den, x.den);
    SumFits(-x.num * x.den, x.num * x.den);
    ProductFits(x.den, x.den);
    assert n.n == 0 && d.n > 0;
    ZeroDivided(n, d);
  }

  lemma ZeroDivided(n: Held, d: Held)
    requires n.Fits() && d.Fits() && n.n == 0 && d.n > 0
    ensures Divide(n, d) == Ok(Whole(0))
  {
    hide Divide, GcdOf, Wraps, Left;
    DividesSelf(d.n);
    DivideDefined(n, d);
    if Wraps(n, d) { NothingLeft(n, d); }
    ZeroFound(n, d);
  }

  lemma ZeroFound(n: Held, d: Held)
    requires n.Fits() && d.Fits() && n.n == 0 && d.n > 0 && !Wraps(n, d) && Divide(n, d).Ok?
    ensures Divide(n, d) == Ok(Whole(0))
  {
    assert GcdOf(n, d).Ok?;
    hide Divide, GcdOf, Wraps, Left;
    DivideReduces(n, d);
    NatGcdTurn(0, d.n, 0);
    NatGcdEnds(d.n);
    DivisionUnique(d.n, d.n, 1, 0);
    DivisionUnique(0, d.n, 0, 0);
  }
}
