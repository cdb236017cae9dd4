/** Ratios (src/Numbers.cpp:1704-1717, 1829-1846, 2193-2262): reduced fractions of big integers. */
module Ratios {
  import opened Digits
  import opened BigIntArithmetic
  import opened Divisibility
  import opened BigInts
  import LongOps
  import opened Wrappers

  /** What the ratio operations return: a whole number or a fraction. */
  datatype Rational = Whole(n: int) | Ratio(num: int, den: int)

  function Num(r: Rational): int {
    if r.Whole? then r.n else r.num
  }

  function Den(r: Rational): int {
    if r.Whole? then 1 else r.den
  }

  /** A fraction is reduced, has a positive denominator, and is not a whole number. */
  ghost predicate Canonical(r: Rational) {
    r.Ratio? ==> r.den > 1 && Coprime(Abs(r.num), r.den)
  }

  /** `divide`: reduce `n / d`. */
  function Divide(n: Held, d: Held): Outcome<Rational> {
    if d.n == 0 then DivideByZero
    else
      match GcdOf(n, d)
      case DivideByZero => DivideByZero
      case AssertionFailed => AssertionFailed
      case Undefined => Undefined
      case Ok(gcd) =>
        var g := gcd.n;
        if g == 0 then Ok(Whole(0))
        else
          match (QuotientOf(n.n, g), QuotientOf(d.n, g))
          case (Ok(n'), Ok(d')) =>
            if d' == 1 then Ok(Whole(n'))
            else if d' == -1 then Ok(Whole(-n'))
            else Ok(Ratio(if d' < 0 then -n' else n', if d' < 0 then -d' else d'))
          case (DivideByZero, _) => DivideByZero
          case (_, DivideByZero) => DivideByZero
          case (_, _) => AssertionFailed
  }

  /** What the loop of `gcd` arrives at, but for the sign. */
  function GcdFound(n: Held, d: Held): nat {
    if Wraps(n, d) then NatGcd(Abs(d.n), Left(n, d)) else NatGcd(Abs(n.n), Abs(d.n))
  }

  /** What a successful `divide` returns: the magnitudes divided by what `gcd` found, both positive. */
  lemma DivideReduces(n: Held, d: Held)
    requires n.Fits() && d.Fits() && d.n != 0 && GcdOf(n, d).Ok?
    ensures var g := GcdFound(n, d);
            && g > 0 && Divides(g, Abs(d.n))
            && (Divide(n, d).Ok? <==> Divides(g, Abs(n.n)))
            && (Divide(n, d).Ok? ==>
                  var n', d' := Abs(n.n) / g, Abs(d.n) / g;
                  Divide(n, d) == Ok(if d' == 1 then Whole(n') else Ratio(n', d')))
  {
    GcdDefined(n, d);
    FoundDivides(n, d);
    if n.n >= 0 { FoundPlain(n, d); }
    DivideWith(n, d, GcdOf(n, d).value, GcdFound(n, d));
  }

  lemma DivideWith(n: Held, d: Held, gcd: Held, g: nat)
    requires d.n != 0 && GcdOf(n, d) == Ok(gcd) && Abs(gcd.n) == g > 0
    requires Divides(g, Abs(d.n)) && (n.n >= 0 ==> Divides(g, n.n))
    ensures Divide(n, d).Ok? <==> Divides(g, Abs(n.n))
    ensures Divide(n, d).Ok? ==>
              var n', d' := Abs(n.n) / g, Abs(d.n) / g;
              Divide(n, d) == Ok(if d' == 1 then Whole(n') else Ratio(n', d'))
  {
    hide GcdOf, Divides;
    ModIsZero(Abs(n.n), g);
    ModIsZero(Abs(d.n), g);
    assert QuotientOf(d.n, gcd.n) == Ok(Abs(d.n) / g);
    assert QuotientOf(n.n, gcd.n) == if n.n < 0 && Abs(n.n) % g != 0 then AssertionFailed else Ok(Abs(n.n) / g);
    hide QuotientOf;
  }

  lemma FoundDivides(n: Held, d: Held)
    requires d.n != 0
    ensures GcdFound(n, d) > 0 && Divides(GcdFound(n, d), Abs(d.n))
  {
    if Wraps(n, d) {
      NatGcdPositive(Abs(d.n), Left(n, d));
      NatGcdDivides(Abs(d.n), Left(n, d));
    } else {
      FoundPlain(n, d);
    }
  }

  lemma FoundPlain(n: Held, d: Held)
    requires d.n != 0 && !Wraps(n, d)
    ensures GcdFound(n, d) > 0 && Divides(GcdFound(n, d), Abs(d.n)) && Divides(GcdFound(n, d), Abs(n.n))
  {
    NatGcdPositive(Abs(n.n), Abs(d.n));
    NatGcdDivides(Abs(n.n), Abs(d.n));
  }

  /** Is what `gcd` finds the greatest common divisor? If it divides the dividend, it is exactly when the
      greatest one divides the digits taken away. */
  ghost predicate Reduces(n: Held, d: Held) {
    Wraps(n, d) ==> Divides(NatGcd(Abs(n.n), Abs(d.n)), Abs(d.n) % Pow(n.size))
  }

  /** What `divide` makes is the quotient of the magnitudes, and canonical exactly when `gcd` has found
      the greatest common divisor. */
  lemma DivideCanonical(n: Held, d: Held)
    requires n.Fits() && d.Fits() && Divide(n, d).Ok?
    ensures var r := Divide(n, d).value;
            && Num(r) * Abs(d.n) == Abs(n.n) * Den(r) && Num(r) >= 0 && Den(r) > 0
            && (Canonical(r) <==> Reduces(n, d))
  {
    hide Wraps, Left, NatGcd;
    DivideReduces(n, d);
    var g := GcdFound(n, d);
    ModIsZero(Abs(n.n), g);
    ModIsZero(Abs(d.n), g);
    var n', d' := Abs(n.n) / g, Abs(d.n) / g;
    QuotientRemainder(Abs(n.n), g);
    QuotientRemainder(Abs(d.n), g);
    CrossProduct(g, n', d', Abs(n.n), Abs(d.n));
    FoundGreatest(n, d);
    LowestTerms(Abs(n.n), Abs(d.n), g, n', d');
    WholeCoprime(n');
  }

  lemma WholeCoprime(n: nat)
    ensures Coprime(n, 1)
  {
    assert NatGcd(n, 1) == NatGcd(1, 0);
  }

  lemma FoundGreatest(n: Held, d: Held)
    requires n.Fits() && d.Fits() && d.n != 0 && GcdOf(n, d).Ok? && Divides(GcdFound(n, d), Abs(n.n))
    ensures GcdFound(n, d) == NatGcd(Abs(n.n), Abs(d.n)) <==> Reduces(n, d)
  {
    if Wraps(n, d) {
      var low := Abs(d.n) % Pow(n.size);
      GcdShifted(Abs(n.n), Abs(d.n), low);
      NatGcdDivides(Abs(d.n), Left(n, d));
      DividesSum(GcdFound(n, d), Left(n, d), low);
    }
  }

  /** Fractions come into lowest terms by the greatest common divisor, and by no other. */
  lemma LowestTerms(n: nat, d: nat, g: nat, n': nat, d': nat)
    requires d > 0 && g > 0 && n == g * n' && d == g * d'
    ensures Coprime(n', d') <==> g == NatGcd(n, d)
  {
    NatGcdScaled(g, n', d');
    NatGcdPositive(n, d);
    if g == g * NatGcd(n', d') { CancelOne(g, NatGcd(n', d')); }
  }

  lemma CrossProduct(g: nat, n': nat, d': nat, n: nat, d: nat)
    requires n == g * n' && d == g * d'
    ensures n' * d == n * d'
  {
    MulSwap(n', g, d');
    assert g * (n' * d') == (g * n') * d';
  }

  /** Exactly when `divide` returns a ratio: the divisor is not zero, and its Euclidean loop meets no
      negative number with a remainder, or a divisor too wide for the dividend's array that leaves what
      serves as a common divisor. */
  lemma DivideDefined(n: Held, d: Held)
    requires n.Fits() && d.Fits()
    ensures Divide(n, d).Ok? <==>
              d.n != 0 &&
              (|| Divides(Abs(d.n), Abs(n.n))
               || (n.n >= 0 && (d.n > 0 || Divides(n.n % -d.n, -d.n)))
               || (Wraps(n, d) && Left(n, d) > 0 && (d.n > 0 || Divides(Left(n, d), -d.n)) &&
                   Divides(NatGcd(Abs(d.n), Left(n, d)), Abs(n.n))))
    ensures d.n == 0 ==> Divide(n, d) == DivideByZero
  {
    hide Left, NatGcd;
    if d.n != 0 {
      GcdDefined(n, d);
      if Wraps(n, d) {
        NothingLeft(n, d);
        if GcdOf(n, d).Ok? { DivideReduces(n, d); }
      } else if GcdOf(n, d).Ok? {
        DivideReduces(n, d);
        FoundPlain(n, d);
      }
    }
  }

  lemma NothingLeft(n: Held, d: Held)
    requires n.Fits() && Wraps(n, d)
    ensures !Divides(Abs(d.n), Abs(n.n))
    ensures Left(n, d) == 0 ==> NatGcd(Abs(d.n), Left(n, d)) == Abs(d.n)
  {
    hide Pow, Width;
    WidthAtMost(Abs(n.n), n.size);
    if Divides(Abs(d.n), Abs(n.n)) { DividesLarge(Abs(d.n), Abs(n.n)); }
  }

  /** `divide` on big integers computes `Divide` of the numbers they denote. */
  method DivideBig(n: BigInt, ns: nat, d: BigInt, ds: nat) returns (o: Outcome<BigRational>)
    requires n.Valid() && d.Valid() && |n.digits| <= ns && |d.digits| <= ds
    ensures RationalOf(o) == Divide(Held(n.Int(), ns), Held(d.Int(), ds))
  {
    hide GcdOf;
    ZeroValue(d);
    if IsZero(d) { return DivideByZero; }
    var g, _ := Gcd(n, ns, d, ds);
    match g {
      case DivideByZero => return DivideByZero;
      case AssertionFailed => return AssertionFailed;
      case Undefined => return Undefined;
      case Ok(gcd) =>
        ZeroValue(gcd);
        var zero := FromLong(0);
        if IsZero(gcd) { return Ok(BigWhole(zero)); }
        var n' := Over(n, gcd);
        var d' := Over(d, gcd);
        if !n'.Ok? { return if n'.DivideByZero? then DivideByZero else AssertionFailed; }
        if !d'.Ok? { return if d'.DivideByZero? then DivideByZero else AssertionFailed; }
        var one := FromLong(1);
        var minusOne := BigInts.Negate(one);
        var isOne := Equal(d'.value, one);
        var isMinusOne := Equal(d'.value, minusOne);
        var negatedN := BigInts.Negate(n'.value);
        var negatedD := BigInts.Negate(d'.value);
        if isOne { return Ok(BigWhole(n'.value)); }
        if isMinusOne { return Ok(BigWhole(negatedN)); }
        ZeroValue(d'.value);
        return Ok(if d'.value.sign < 0 then BigRatio(negatedN, negatedD) else BigRatio(n'.value, d'.value));
    }
  }

  datatype BigRational = BigWhole(n: BigInt) | BigRatio(num: BigInt, den: BigInt)

  ghost function RationalOf(o: Outcome<BigRational>): Outcome<Rational> {
    match o
    case Ok(BigWhole(n)) => Ok(Whole(n.Int()))
    case Ok(BigRatio(n, d)) => Ok(Ratio(n.Int(), d.Int()))
    case DivideByZero => DivideByZero
    case AssertionFailed => AssertionFailed
    case Undefined => Undefined
  }

  /** Two integer fractions denote the same number. */
  predicate SameNumber(n: int, d: int, m: int, e: int) {
    n * e == m * d
  }

  /** A ratio that `divide` returns is the number `n / d` exactly when the signs agree. */
  lemma DivideCorrect(n: Held, d: Held)
    requires n.Fits() && d.Fits() && Divide(n, d).Ok?
    ensures SameNumber(Num(Divide(n, d).value), Den(Divide(n, d).value), n.n, d.n) <==>
              n.n == 0 || (n.n > 0) == (d.n > 0)
  {
    var r := Divide(n, d).value;
    DivideCanonical(n, d);
    var a, b := Num(r), Den(r);
    SignedProduct(a, d.n);
    SignedProduct(n.n, b);
    if n.n != 0 { MulMono(b, 1, Abs(n.n)); }
    if a > 0 { MulMono(Abs(d.n), 1, a); }
  }

  /** The sign is lost: -4 / 2 comes out as 2, -5 / 2^64 as 5 / 2^64, and 1 / 2 + -2 / 3 fails an
      assertion. */
  lemma DivideLosesSign()
    ensures Divide(Held(-4, 8), Held(2, 8)) == Ok(Whole(2))
    ensures Divide(Held(-5, 8), Held(0x1_0000_0000_0000_0000, 9)) == Ok(Ratio(5, 0x1_0000_0000_0000_0000))
    ensures Add(Ratio(1, 2), Ratio(-2, 3)) == AssertionFailed
  {
    GcdTurn(Held(-4, 8), Held(2, 8), Held(0, RemainderSize(Held(-4, 8), Held(2, 8))));
    WideGcd();
    HalfAndThirds();
    hide GcdOf, RemainderOf, Width, Pow;
  }

  lemma WideGcd()
    ensures GcdOf(Held(-5, 8), Held(0x1_0000_0000_0000_0000, 9)) == Ok(Held(1, 1))
  {
    var n, d := Held(-5, 8), Held(0x1_0000_0000_0000_0000, 9);
    WiderDivisor();
    hide Pow, Width, RemainderOf, GcdOf;
    WidthAtMost(5, 8);
    WidthAtMost(d.n, 9);
    GcdTurn(n, d, Held(5, 8));
    TwoTurns(d, Held(5, 8), Held(1, 1));
  }

  /** The end of a run of the Euclidean loop on small numbers, at its last divisor. */
  lemma TwoTurns(a: Held, b: Held, c: Held)
    requires a.n > 0 && a.Fits() && b.Fits() && 0 < b.n < 256 && c == Held(a.n % b.n, 1) && c.n > 0 && b.n % c.n == 0
    ensures GcdOf(a, b) == Ok(c)
  {
    hide Pow, Width, RemainderOf, GcdOf;
    WidthSteps(b.n);
    WidthSteps(c.n);
    PlainRemainder(a, b);
    GcdTurn(a, b, Held(c.n, RemainderSize(a, b)));
    PlainRemainder(b, c);
    GcdTurn(b, c, Held(0, RemainderSize(b, c)));
  }

  lemma HalfAndThirds()
    ensures Add(Ratio(1, 2), Ratio(-2, 3)) == AssertionFailed
  {
    assert Width(1) == 1 && Width(2) == 1 && Width(3) == 1 && Width(4) == 1;
    assert Sum(-4, 3) == Held(-1, 1) && Product(3, 2) == Held(6, 2);
    hide Pow, Width, RemainderOf, GcdOf;
    WidthSteps(6);
    WidthSteps(1);
    EightDigits();
    PowNext(0);
    BigInts.NoDigits();
    Subtracted(Held(-1, 1), Held(6, 2));
    assert RemainderOf(Held(-1, 1), Held(6, 2)) == AssertionFailed;
    assert GcdOf(Held(-1, 1), Held(6, 2)) == AssertionFailed by { GcdFails(Held(-1, 1), Held(6, 2)); }
  }

  lemma GcdFails(a: Held, b: Held)
    requires b.n != 0 && RemainderOf(a, b) == AssertionFailed
    ensures GcdOf(a, b) == AssertionFailed
  {
  }

  // ---- RatioOps ----

  /** A product, in an array for the digits of both factors. */
  function Product(a: int, b: int): Held {
    Held(a * b, Width(Abs(a)) + Width(Abs(b)))
  }

  /** A sum, in an array for the digits of the longer operand and, for like signs, one more. */
  function Sum(a: int, b: int): Held {
    var w := if Width(Abs(a)) > Width(Abs(b)) then Width(Abs(a)) else Width(Abs(b));
    Held(a + b, if (a < 0) == (b < 0) then w + 1 else w)
  }

  lemma ProductFits(a: int, b: int)
    ensures Product(a, b).Fits()
  {
    hide Pow, Width;
    var x, y := Abs(a), Abs(b);
    LongOps.AbsProduct(a, b);
    WidthIs(x);
    WidthIs(y);
    ProductBelow(x, y, Pow(Width(x)), Pow(Width(y)));
    PowSum(Width(x), Width(y));
    WidthAtMost(Abs(a * b), Width(x) + Width(y));
  }

  lemma ProductBelow(x: nat, y: nat, p: nat, q: nat)
    requires x < p && y < q
    ensures x * y < p * q
  {
    MulMono(x, y, q);
    MulMono(q, x + 1, p);
    Distribute(x, 1, q);
    assert x * q < (x + 1) * q;
  }

  lemma SumFits(a: int, b: int)
    ensures Sum(a, b).Fits()
  {
    hide Pow, Width;
    var x, y := Abs(a), Abs(b);
    var w := if Width(x) > Width(y) then Width(x) else Width(y);
    WidthAtMost(x, w);
    WidthAtMost(y, w);
    PowNext(w);
    WidthAtMost(Abs(a + b), w);
    WidthAtMost(Abs(a + b), w + 1);
  }

  function Add(x: Rational, y: Rational): Outcome<Rational> {
    Divide(Sum(Num(y) * Den(x), Num(x) * Den(y)), Product(Den(y), Den(x)))
  }

  function Multiply(x: Rational, y: Rational): Outcome<Rational> {
    Divide(Product(Num(x), Num(y)), Product(Den(x), Den(y)))
  }

  function Quotient(x: Rational, y: Rational): Outcome<Rational> {
    Divide(Product(Num(x), Den(y)), Product(Den(x), Num(y)))
  }

  function Negate(x: Rational): Rational
    requires x.Ratio?
  {
    Ratio(-x.num, x.den)
  }

  function Inc(x: Rational): Rational
    requires x.Ratio?
  {
    Ratio(x.num + x.den, x.den)
  }

  function Dec(x: Rational): Rational
    requires x.Ratio?
  {
    Ratio(x.num - x.den, x.den)
  }

  /** `equiv`: the components are equal. */
  predicate Equiv(x: Rational, y: Rational) {
    Num(x) == Num(y) && Den(x) == Den(y)
  }

  /** Exactly when the operations that go through `divide` return canonical ratios. */
  lemma OperationsCanonical(x: Rational, y: Rational)
    ensures Add(x, y).Ok? ==>
              (Canonical(Add(x, y).value) <==>
               Reduces(Sum(Num(y) * Den(x), Num(x) * Den(y)), Product(Den(y), Den(x))))
    ensures Multiply(x, y).Ok? ==>
              (Canonical(Multiply(x, y).value) <==> Reduces(Product(Num(x), Num(y)), Product(Den(x), Den(y))))
    ensures Quotient(x, y).Ok? ==>
              (Canonical(Quotient(x, y).value) <==> Reduces(Product(Num(x), Den(y)), Product(Den(x), Num(y))))
  {
    hide Divide, Canonical, Reduces;
    SumFits(Num(y) * Den(x), Num(x) * Den(y));
    ProductFits(Den(y), Den(x));
    ProductFits(Num(x), Num(y));
    ProductFits(Den(x), Den(y));
    ProductFits(Num(x), Den(y));
    ProductFits(Den(x), Num(y));
    hide Sum, Product;
    if Add(x, y).Ok? { DivideCanonical(Sum(Num(y) * Den(x), Num(x) * Den(y)), Product(Den(y), Den(x))); }
    if Multiply(x, y).Ok? { DivideCanonical(Product(Num(x), Num(y)), Product(Den(x), Den(y))); }
    if Quotient(x, y).Ok? { DivideCanonical(Product(Num(x), Den(y)), Product(Den(x), Num(y))); }
  }

  /** The product of -2/99 and 3/662 comes out as 3/32769, which is not in lowest terms. */
  lemma MultiplyUnreduced()
    ensures Canonical(Ratio(-2, 99)) && Canonical(Ratio(3, 662))
    ensures Multiply(Ratio(-2, 99), Ratio(3, 662)) == Ok(Ratio(3, 32769)) && NatGcd(3, 32769) == 3
  {
    SmallGcds();
    SmallWidths();
    hide Width, NatGcd;
    assert Product(-2, 3) == Held(-6, 2) && Product(99, 662) == Held(65538, 3);
    hide Product;
    UnreducedGcd();
    DivideStep(Held(-6, 2), Held(65538, 3), 2, 3, 32769);
    hide Divide;
  }

  lemma SmallWidths()
    ensures Width(2) == 1 && Width(99) == 1 && Width(3) == 1 && Width(662) == 2
    ensures Width(4) == 1 && Width(6) == 1 && Width(65538) == 3
  {
    hide Width;
    WidthSteps(2);
    WidthSteps(99);
    WidthSteps(3);
    WidthSteps(4);
    WidthSteps(6);
    WidthSteps(662);
    WidthSteps(65538);
    WidthSteps(256);
    WidthSteps(1);
  }

  lemma DivideStep(n: Held, d: Held, g: nat, n': nat, d': nat)
    requires g > 0 && d' > 1 && Abs(n.n) == n' * g && d.n == d' * g && GcdOf(n, d) == Ok(Held(g, 1))
    ensures Divide(n, d) == Ok(Ratio(n', d'))
  {
    hide GcdOf;
    DivisionUnique(Abs(n.n), g, n', 0);
    DivisionUnique(d.n, g, d', 0);
    MulMono(g, 1, d');
    assert QuotientOf(n.n, g) == Ok(n') && QuotientOf(d.n, g) == Ok(d');
  }

  lemma SmallGcds()
    ensures NatGcd(2, 99) == 1 && NatGcd(3, 662) == 1 && NatGcd(3, 32769) == 3
  {
    hide NatGcd;
    NatGcdTurn(2, 99, 2);
    NatGcdTurn(99, 2, 1);
    NatGcdTurn(2, 1, 0);
    NatGcdTurn(3, 662, 3);
    NatGcdTurn(662, 3, 2);
    NatGcdTurn(3, 2, 1);
    NatGcdTurn(3, 32769, 3);
    NatGcdTurn(32769, 3, 0);
    NatGcdEnds(1);
    NatGcdEnds(3);
  }

  lemma UnreducedGcd()
    ensures GcdOf(Held(-6, 2), Held(65538, 3)) == Ok(Held(2, 1))
  {
    var n, d := Held(-6, 2), Held(65538, 3);
    TwoDigits();
    SmallWidths();
    hide Pow, Width, RemainderOf, GcdOf;
    Subtracted(n, d);
    assert RemainderOf(n, d) == Ok(Held(4, 2));
    GcdTurn(n, d, Held(4, 2));
    assert 65538 % 4 == 2;
    TwoTurns(d, Held(4, 2), Held(2, 1));
  }

  lemma TwoDigits()
    ensures Pow(2) == 65536 && 65538 % 65536 == 2 && 6 % 65538 == 6
  {
    PowNext(0);
    PowNext(1);
    BigInts.NoDigits();
  }

  /** So do the ones that build a ratio themselves. */
  lemma StepsCanonical(x: Rational)
    requires x.Ratio? && Canonical(x)
    ensures Canonical(Negate(x)) && Canonical(Inc(x)) && Canonical(Dec(x))
  {
    ShiftCoprime(x.num, x.den, 1);
    ShiftCoprime(x.num, x.den, -1);
  }

  lemma ShiftCoprime(n: int, d: nat, s: int)
    requires d > 1 && Coprime(Abs(n), d) && (s == 1 || s == -1)
    ensures Coprime(Abs(n + s * d), d)
  {
    var m := n + s * d;
    assert m == if s == 1 then n + d else n - d;
    ThreeWays(Abs(n), d, Abs(m));
  }

  /** The magnitudes of the two numerators and the denominator add up in one of three ways. */
  lemma ThreeWays(n: nat, d: nat, m: nat)
    requires d > 1 && Coprime(n, d) && (m == n + d || n == m + d || d == n + m)
    ensures Coprime(m, d)
  {
    hide NatGcd;
    var g := NatGcd(m, d);
    NatGcdDivides(m, d);
    if m == n + d { DividesSumRight(g, d, n); }
    else if n == m + d { DividesSum(g, d, m); }
    else { DividesSum(g, m, n); }
    NatGcdGreatest(n, d, g);
    NatGcdPositive(m, d);
    DividesLarge(g, 1);
  }

  lemma DividesSumRight(g: nat, d: nat, n: nat)
    requires Divides(g, d) && Divides(g, n + d)
    ensures Divides(g, n)
  {
    DividesSum(g, d, n);
    assert n + d == d + n;
  }

  /** On canonical ratios comparing components decides whether the numbers are equal. */
  lemma EquivDecides(x: Rational, y: Rational)
    requires Canonical(x) && Canonical(y)
    ensures Equiv(x, y) <==> SameNumber(Num(x), Den(x), Num(y), Den(y))
  {
    if SameNumber(Num(x), Den(x), Num(y), Den(y)) {
      var a, b, c, d := Num(x), Den(x), Num(y), Den(y);
      CanonicalCoprime(x);
      CanonicalCoprime(y);
      AbsCross(a, b, c, d);
      DenominatorDivides(Abs(a), b, Abs(c), d);
      DenominatorDivides(Abs(c), d, Abs(a), b);
      DividesLarge(b, d);
      DividesLarge(d, b);
      CancelFactor(a, c, b);
    }
  }

  lemma CanonicalCoprime(x: Rational)
    requires Canonical(x)
    ensures Den(x) > 0 && Coprime(Abs(Num(x)), Den(x))
  {
    if x.Whole? { assert NatGcd(Abs(x.n), 1) == NatGcd(1, 0); }
  }

  lemma AbsCross(a: int, b: nat, c: int, d: nat)
    requires a * d == c * b
    ensures Abs(a) * d == Abs(c) * b
  {
    SignedProduct(Abs(a), d);
    SignedProduct(Abs(c), b);
  }

  lemma DenominatorDivides(a: nat, b: nat, c: nat, d: nat)
    requires Coprime(a, b) && a * d == c * b
    ensures Divides(b, d)
  {
    TimesIs(d, a);
    TimesIs(c, b);
    assert Times(c, b) == Times(d, a);
    CoprimeDivides(a, b, d);
  }

  lemma CancelFactor(a: int, c: int, b: nat)
    requires b > 0 && a * b == c * b
    ensures a == c
  {
    if a < c { CancelLess(c - a, b, a); }
    if c < a { CancelLess(a - c, b, c); }
  }

  lemma CancelLess(k: nat, b: nat, a: int)
    requires k > 0 && b > 0
    ensures (a + k) * b != a * b
  {
    MulMono(b, 1, k);
    assert (a + k) * b == a * b + k * b;
  }

  // ---- Dividing longs ----

  /** `LongOps::gcd`; None where a step divides LONG_MIN by -1, which C leaves undefined. */
  function LongGcd(u: LongOps.Long, v: LongOps.Long): (g: Option<LongOps.Long>)
    decreases Abs(v)
  {
    if v == 0 then Some(u)
    else if u == LONG_MIN && v == -1 then None
    else LongGcd(v, LongOps.CRem(u, v))
  }

  lemma {:induction false} LongGcdIsGcd(u: LongOps.Long, v: LongOps.Long)
    ensures LongGcd(u, v).Some? ==> Abs(LongGcd(u, v).value) == NatGcd(Abs(u), Abs(v))
    ensures LongGcd(u, v).None? ==> u == LONG_MIN || v == LONG_MIN
    decreases Abs(v)
  {
    if v != 0 && !(u == LONG_MIN && v == -1) { LongGcdIsGcd(v, LongOps.CRem(u, v)); }
  }

  /** `LongOps::divide`; None where an operation on LONG_MIN is undefined in C. */
  function LongDivide(n: LongOps.Long, val: LongOps.Long): Option<Rational> {
    match LongGcd(n, val)
    case None => None
    case Some(g) =>
      if g == 0 then Some(Whole(0))
      else if g == -1 && (n == LONG_MIN || val == LONG_MIN) then None
      else
        var n', d := LongOps.CDiv(n, g), LongOps.CDiv(val, g);
        if d == 1 then Some(Whole(n'))
        else if d < 0 then
          if n' == LONG_MIN || d == LONG_MIN then None else Some(Ratio(-n', -d))
        else Some(Ratio(n', d))
  }

  /** Where C defines it, dividing longs gives the canonical form of `n / val`, except that a zero
      divisor goes unnoticed: 5 / 0 becomes the ratio 1/0. */
  lemma LongDivideCanonical(n: LongOps.Long, val: LongOps.Long)
    ensures LongDivide(n, val).None? ==> n == LONG_MIN || val == LONG_MIN
    ensures LongDivide(n, val).Some? ==>
              var r := LongDivide(n, val).value;
              (Canonical(r) && SameNumber(Num(r), Den(r), n, val) <==> val != 0 || n == 0)
    ensures n != 0 && val == 0 ==> LongDivide(n, val) == Some(Ratio(1, 0))
  {
    hide SameNumber, Canonical, LongDivide, LongGcd;
    LongUndefined(n, val);
    if val == 0 {
      ByZero(n);
    } else if LongDivide(n, val).Some? {
      LongDivided(n, val);
    }
  }

  lemma LongUndefined(n: LongOps.Long, val: LongOps.Long)
    ensures LongDivide(n, val).None? ==> n == LONG_MIN || val == LONG_MIN
    ensures LongDivide(n, val).Some? ==> LongGcd(n, val).Some?
  {
    hide NatGcd;
    LongGcdIsGcd(n, val);
    if LongGcd(n, val).Some? && LongGcd(n, val).value != 0 && n != LONG_MIN && val != LONG_MIN {
      QuotientSmall(n, LongGcd(n, val).value);
      QuotientSmall(val, LongGcd(n, val).value);
    }
    hide LongGcd, LongOps.CDiv;
  }

  lemma QuotientSmall(n: int, g: int)
    requires g != 0
    ensures Abs(LongOps.CDiv(n, g)) <= Abs(n)
  {
    QuotientRemainder(Abs(n), Abs(g));
    MulMono(Abs(n) / Abs(g), 1, Abs(g));
  }

  lemma ByZero(n: LongOps.Long)
    ensures LongDivide(n, 0) == Some(if n == 0 then Whole(0) else Ratio(1, 0))
    ensures Canonical(Whole(0)) && SameNumber(0, 1, 0, 0) && !Canonical(Ratio(1, 0))
  {
    if n != 0 { DivisionUnique(Abs(n), Abs(n), 1, 0); }
    assert LongGcd(n, 0) == Some(n);
  }

  lemma LongDivided(n: LongOps.Long, val: LongOps.Long)
    requires val != 0 && LongDivide(n, val).Some? && LongGcd(n, val).Some?
    ensures var r := LongDivide(n, val).value;
            Canonical(r) && SameNumber(Num(r), Den(r), n, val)
  {
    hide SameNumber, Canonical, NatGcd, LongDivide;
    var g := LongGcd(n, val).value;
    LongGcdIsGcd(n, val);
    NatGcdPositive(Abs(n), Abs(val));
    LongGcdSign(n, val);
    hide LongGcd;
    var n', d := LongOps.CDiv(n, g), LongOps.CDiv(val, g);
    ReducedCoprime(Abs(n), Abs(val));
    ExactQuotient(n, g);
    ExactQuotient(val, g);
    hide LongOps.CDiv;
    ExactCross(n, val, g, n', d);
    if d == -1 { CancelFactor(Abs(g), Abs(val), 1); }
    LongReduced(n, val, g, n', d);
  }

  /** The divisor is never the negated gcd, which is why the code need not test for -1. */
  lemma LongGcdSign(n: LongOps.Long, val: LongOps.Long)
    requires val != 0 && LongGcd(n, val).Some?
    ensures Abs(LongGcd(n, val).value) == Abs(val) ==> LongGcd(n, val).value == val
  {
    var r := LongOps.CRem(n, val);
    if r != 0 {
      LongGcdIsGcd(val, r);
      NatGcdDivides(Abs(val), Abs(r));
      DividesLarge(NatGcd(Abs(val), Abs(r)), Abs(r));
    }
  }

  lemma LongReduced(n: LongOps.Long, val: LongOps.Long, g: LongOps.Long, n': int, d: int)
    requires LongGcd(n, val) == Some(g) && g != 0 && n' == LongOps.CDiv(n, g) && d == LongOps.CDiv(val, g)
    requires d > 0 || d < -1
    requires Coprime(Abs(n'), Abs(d))
    requires SameNumber(n', d, n, val) && SameNumber(-n', -d, n, val)
    ensures LongDivide(n, val).Some? ==>
              var r := LongDivide(n, val).value;
              Canonical(r) && SameNumber(Num(r), Den(r), n, val)
  {
    hide SameNumber, LongOps.CDiv, LongGcd, NatGcd;
  }

  lemma ExactQuotient(n: int, g: int)
    requires g != 0 && Abs(n) == Abs(g) * (Abs(n) / Abs(g))
    ensures n == g * LongOps.CDiv(n, g) && Abs(LongOps.CDiv(n, g)) == Abs(n) / Abs(g)
  {
    SignedProduct(Abs(g), Abs(n) / Abs(g));
  }

  lemma ExactCross(n: int, val: int, g: int, n': int, d: int)
    requires n == g * n' && val == g * d
    ensures SameNumber(n', d, n, val) && SameNumber(-n', -d, n, val)
  {
    assert n' * (g * d) == (g * n') * d;
    SignedProduct(n', val);
    SignedProduct(n, d);
  }
}
