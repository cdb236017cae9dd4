/** Sign-magnitude integers (src/Numbers.cpp:69-346, 388-558). The operations are the code's; what
    they compute is stated on the integers the digit strings denote. */
module BigInts {
  import opened Digits
  import opened BigIntDivision
  import opened BigIntArithmetic
  import opened Divisibility

  /** The counting digits of `array` and the sign. */
  datatype BigInt = BigInt(sign: int, digits: seq<Digit>) {

    ghost predicate Valid() {
      && (sign == 1 || sign == -1)
      && Trimmed(digits)
      && (Value(digits) == 0 ==> sign == 1)
    }

    ghost function Int(): int {
      if sign == 1 then Value(digits) else 0 - Value(digits)
    }
  }

  /** What a call comes to: a value, the domain error, a failed assertion of the code, or digits read
      past the end of an array, which C++ leaves undefined. */
  datatype Outcome<+T> = Ok(value: T) | DivideByZero | AssertionFailed | Undefined

  const LONG_MIN := -0x8000_0000_0000_0000
  const LONG_MAX := 0x7fff_ffff_ffff_ffff

  function Abs(a: int): nat {
    if a < 0 then -a else a
  }

  predicate IsZero(x: BigInt) {
    x.digits == [0]
  }

  lemma ZeroValue(x: BigInt)
    requires x.Valid()
    ensures IsZero(x) <==> x.Int() == 0
  {
    assert Trimmed([0]) && Value([0]) == 0;
    if Value(x.digits) == 0 { TrimmedUnique(x.digits, [0]); }
  }

  /** Every integer has one representation, so comparing signs and digits decides equality. */
  lemma Unique(x: BigInt, y: BigInt)
    requires x.Valid() && y.Valid()
    ensures x == y <==> x.Int() == y.Int()
  {
    if x.Int() == y.Int() { TrimmedUnique(x.digits, y.digits); }
  }

  /** A sign applied to a magnitude, with zero counted as positive. */
  method Signed(sign: int, digits: seq<Digit>) returns (r: BigInt)
    requires (sign == 1 || sign == -1) && Trimmed(digits)
    ensures r.Valid() && r.Int() == if sign == 1 then Value(digits) else 0 - Value(digits)
  {
    assert Trimmed([0]) && Value([0]) == 0;
    if Value(digits) == 0 { TrimmedUnique(digits, [0]); }
    r := BigInt(if digits == [0] then 1 else sign, digits);
  }

  /** The constructor from a long. The magnitude of LONG_MIN still fits its eight digits. */
  method FromLong(x: int) returns (r: BigInt)
    requires LONG_MIN <= x <= LONG_MAX
    ensures r.Valid() && r.Int() == x
  {
    hide Value, Pow;
    var u: nat := Abs(x);
    NoDigits();
    var digits: seq<Digit> := [];
    EightDigits();
    while u > 0 && |digits| < 8
      invariant |digits| <= 8 && u < Pow(8 - |digits|)
      invariant Value(digits) + Pow(|digits|) * u == Abs(x)
    {
      ValueAppend(digits, u % 256);
      PowNext(|digits|);
      LongDigit(Value(digits), Pow(|digits|), u);
      PowNext(7 - |digits|);
      digits := digits + [u % 256];
      u := u / 256;
    }
    assert u == 0;
    if digits == [] { digits := [0]; }
    digits := Normalize(digits);
    r := Signed(if x < 0 then -1 else 1, digits);
  }

  lemma EightDigits()
    ensures Pow(8) == 0x1_0000_0000_0000_0000
  {
    assert Pow(4) == 0x1_0000_0000;
  }

  lemma NoDigits()
    ensures Value([]) == 0 && Pow(0) == 1 && Value([0]) == 0
  {
  }

  lemma LongDigit(v: nat, p: nat, u: nat)
    ensures (v + p * (u % 256)) + (256 * p) * (u / 256) == v + p * u
  {
    assert u == 256 * (u / 256) + u % 256;
    Distribute(256 * (u / 256), u % 256, p);
    assert p * (256 * (u / 256)) == (256 * p) * (u / 256);
  }

  method Plus(x: BigInt, y: BigInt) returns (r: BigInt)
    requires x.Valid() && y.Valid()
    ensures r.Valid() && r.Int() == x.Int() + y.Int()
  {
    if x.sign == y.sign {
      var z := Add(x.digits, y.digits);
      r := Signed(x.sign, z);
      return;
    }
    var c := Compare(x.digits, y.digits);
    if c > 0 {
      LongerIsLarger(x.digits, y.digits);
      var z := Sub(x.digits, y.digits);
      r := Signed(x.sign, z);
    } else {
      LongerIsLarger(y.digits, x.digits);
      var z := Sub(y.digits, x.digits);
      r := Signed(-x.sign, z);
    }
  }

  method Negate(x: BigInt) returns (r: BigInt)
    requires x.Valid()
    ensures r.Valid() && r.Int() == -x.Int()
  {
    ZeroValue(x);
    r := BigInt(if IsZero(x) then 1 else -x.sign, x.digits);
  }

  method Minus(x: BigInt, y: BigInt) returns (r: BigInt)
    requires x.Valid() && y.Valid()
    ensures r.Valid() && r.Int() == x.Int() - y.Int()
  {
    var n := Negate(y);
    r := Plus(x, n);
  }

  method Multiply(x: BigInt, y: BigInt) returns (r: BigInt)
    requires x.Valid() && y.Valid()
    ensures r.Valid() && r.Int() == x.Int() * y.Int()
  {
    var z := Mul(x.digits, y.digits);
    r := Signed(if x.sign == y.sign then 1 else -1, z);
    SignedProduct(Value(x.digits), Value(y.digits));
  }

  lemma SignedProduct(a: int, b: int)
    ensures (-a) * b == -(a * b) && a * (-b) == -(a * b) && (-a) * (-b) == a * b
  {
  }

  // ---- Division as the code has it ----

  /** The quotient `operator/` returns: of the magnitudes and never negative, since the precedence
      of its sign test makes the test hold of every pair of signs (src/Numbers.cpp:520). For a
      negative dividend that does not divide evenly its carry assertion fails
      (src/Numbers.cpp:243-247). */
  function QuotientOf(x: int, y: int): Outcome<int> {
    if y == 0 then DivideByZero
    else if x < 0 && Abs(x) % Abs(y) != 0 then AssertionFailed
    else Ok(Abs(x) / Abs(y))
  }

  /** A number and the size of the array that holds it, of which the digits above its own are zero. */
  datatype Held = Held(n: int, size: nat) {

    ghost predicate Fits() {
      Width(Abs(n)) <= size
    }
  }

  /** The size of the array that `div` leaves the remainder in: the dividend's own array for a divisor
      of more digits (src/Numbers.cpp:469-471), otherwise one for the digits of the divisor. */
  function RemainderSize(x: Held, y: Held): nat {
    if Width(Abs(y.n)) > Width(Abs(x.n)) then x.size else Width(Abs(y.n))
  }

  /** The remainder `operator%` returns. For a negative dividend that does not divide evenly the divisor
      is subtracted, over the digits of the remainder's array only (src/Numbers.cpp:252-255): an array
      shorter than the divisor takes away its low digits. */
  function RemainderOf(x: Held, y: Held): Outcome<Held> {
    if y.n == 0 then DivideByZero
    else
      var r, size := Abs(x.n) % Abs(y.n), RemainderSize(x, y);
      if x.n >= 0 || r == 0 then Ok(Held(r, size))
      else if size > y.size then Undefined
      else
        var low := Abs(y.n) % Pow(size);
        if r < low then AssertionFailed else Ok(Held(r - low, size))
  }

  /** The quotient rounded down: the step away from zero for unlike signs and a remainder
      (src/Numbers.cpp:243-247) shows that this is the one meant. */
  function Floored(x: int, y: int): int
    requires y != 0
  {
    if (x < 0) == (y < 0) then Abs(x) / Abs(y)
    else if Abs(x) % Abs(y) == 0 then 0 - Abs(x) / Abs(y)
    else -1 - Abs(x) / Abs(y)
  }

  /** The remainder that goes with it, of the sign of the divisor (src/Numbers.cpp:252-256). */
  function FlooredRemainder(x: int, y: int): int
    requires y != 0
  {
    var r := Abs(x) % Abs(y);
    if r == 0 then 0
    else if (x < 0) == (y < 0) then if y > 0 then r else 0 - r
    else if y > 0 then y - r else y + r
  }

  /** The two references belong together: they are the one quotient and remainder with the remainder
      between zero and the divisor. */
  lemma FlooredParts(x: int, y: int)
    requires y != 0
    ensures x == Floored(x, y) * y + FlooredRemainder(x, y)
    ensures 0 <= FlooredRemainder(x, y) < y || y < FlooredRemainder(x, y) <= 0
  {
    var q: int, b: int := Abs(x) / Abs(y), Abs(y);
    QuotientRemainder(Abs(x), Abs(y));
    SignedProduct(q, b);
    SignedProduct(q + 1, b);
    Distribute(q, 1, b);
    FlooredIs(x, y, q, Abs(x) % Abs(y), q * b);
  }

  /** The same with the product `p` of the magnitudes given. */
  lemma FlooredIs(x: int, y: int, q: int, r: nat, p: nat)
    requires y != 0 && q == Abs(x) / Abs(y) && r == Abs(x) % Abs(y) && Abs(x) == p + r && r < Abs(y)
    requires y > 0 ==> q * y == p && (-q) * y == 0 - p && (-(q + 1)) * y == 0 - p - y
    requires y < 0 ==> q * y == 0 - p && (-q) * y == p && (-(q + 1)) * y == p - y
    ensures x == Floored(x, y) * y + FlooredRemainder(x, y)
    ensures 0 <= FlooredRemainder(x, y) < y || y < FlooredRemainder(x, y) <= 0
  {
    var f := Floored(x, y);
    assert f == (if (x < 0) == (y < 0) then q else if r == 0 then -q else -(q + 1));
  }

  /** Exactly when `x / y` is the quotient rounded down. */
  lemma QuotientCorrect(x: int, y: int)
    requires y != 0
    ensures QuotientOf(x, y) == Ok(Floored(x, y)) <==>
              (x >= 0 && y > 0) || x == 0 || (x < 0 && y < 0 && Divides(-y, -x))
  {
    ModIsZero(Abs(x), Abs(y));
    SmallQuotient(Abs(x), Abs(y));
    if x < 0 && y > 0 && Divides(y, -x) { DividesLarge(y, -x); }
    if x == 0 { assert 0 % Abs(y) == 0; }
  }

  /** Exactly when `x % y` is the remainder that goes with it. The last case is that of a divisor that
      does not fit into the dividend's array, where the low digits of the divisor happen to be what is
      to be taken away. */
  lemma RemainderCorrect(x: Held, y: Held)
    requires y.n != 0 && x.Fits() && y.Fits()
    ensures RemainderOf(x, y).Ok? && RemainderOf(x, y).value.n == FlooredRemainder(x.n, y.n) <==>
              || (x.n >= 0 && y.n > 0)
              || Divides(Abs(y.n), Abs(x.n))
              || (x.n < 0 && y.n >= Pow(x.size) && -2 * x.n == y.n + y.n % Pow(x.size))
  {
    var a, b := Abs(x.n), Abs(y.n);
    ModIsZero(a, b);
    if x.n < 0 && a % b != 0 { Subtracted(x, y); }
  }

  /** What `%` does to a negative dividend with a remainder. */
  lemma Subtracted(x: Held, y: Held)
    requires y.n != 0 && x.Fits() && y.Fits() && x.n < 0 && Abs(x.n) % Abs(y.n) != 0
    ensures x.size > 0
    ensures Abs(y.n) < Pow(x.size) ==> RemainderOf(x, y) == AssertionFailed || RemainderOf(x, y) == Undefined
    ensures Abs(y.n) >= Pow(x.size) ==>
              && Abs(x.n) % Abs(y.n) == Abs(x.n) < Abs(y.n)
              && RemainderOf(x, y) ==
                 if Abs(x.n) < Abs(y.n) % Pow(x.size) then AssertionFailed
                 else Ok(Held(Abs(x.n) - Abs(y.n) % Pow(x.size), x.size))
  {
    hide Width, Pow;
    var a, b := Abs(x.n), Abs(y.n);
    WidthAtMost(a, x.size);
    WidthAtMost(b, y.size);
    WidthAtMost(b, x.size);
    WidthAtMost(b, Width(b));
    QuotientRemainder(a, b);
    if b >= Pow(x.size) {
      DivisionUnique(a, b, 0, a);
    } else {
      WidthAtMost(b, RemainderSize(x, y));
      DivisionUnique(b, Pow(RemainderSize(x, y)), 0, b);
    }
  }

  /** -5 % 2^64 comes out as 5 and LONG_MIN % 2^64 as 2^63, which is right. */
  lemma WiderDivisor()
    ensures Held(-5, 8).Fits() && Held(LONG_MIN, 8).Fits() && Held(0x1_0000_0000_0000_0000, 9).Fits()
    ensures RemainderOf(Held(-5, 8), Held(0x1_0000_0000_0000_0000, 9)) == Ok(Held(5, 8))
    ensures FlooredRemainder(-5, 0x1_0000_0000_0000_0000) == 0xFFFF_FFFF_FFFF_FFFB
    ensures RemainderOf(Held(LONG_MIN, 8), Held(0x1_0000_0000_0000_0000, 9)) ==
            Ok(Held(FlooredRemainder(LONG_MIN, 0x1_0000_0000_0000_0000), 8))
  {
    EightDigits();
    PowNext(8);
    hide Pow, Width, RemainderOf;
    WidthAtMost(5, 8);
    WidthAtMost(0x8000_0000_0000_0000, 8);
    WidthAtMost(0x1_0000_0000_0000_0000, 9);
    Subtracted(Held(-5, 8), Held(0x1_0000_0000_0000_0000, 9));
    Subtracted(Held(LONG_MIN, 8), Held(0x1_0000_0000_0000_0000, 9));
  }

  lemma SmallQuotient(a: nat, b: nat)
    requires b > 0
    ensures a / b == 0 <==> a < b
  {
    if a >= b { QuotientAbove(a, b); }
    if a < b { QuotientBelow(a, b); }
  }

  /** Quotients and remainders the code gets wrong: 7 / -2 is 3, -4 / 2 is 2, 7 % -2 is 1, and
      -7 / 2 fails an assertion. */
  lemma QuotientLosesSign()
    ensures QuotientOf(7, -2) == Ok(3) && Floored(7, -2) == -4
    ensures QuotientOf(-4, 2) == Ok(2) && Floored(-4, 2) == -2
    ensures RemainderOf(Held(7, 8), Held(-2, 8)) == Ok(Held(1, 1)) && FlooredRemainder(7, -2) == -1
    ensures QuotientOf(-7, 2) == AssertionFailed && RemainderOf(Held(-7, 8), Held(2, 8)) == AssertionFailed
  {
  }

  ghost function IntOf(o: Outcome<BigInt>): Outcome<int> {
    match o
    case Ok(v) => Ok(v.Int())
    case DivideByZero => DivideByZero
    case AssertionFailed => AssertionFailed
    case Undefined => Undefined
  }

  ghost function HeldOf(o: Outcome<BigInt>, size: nat): Outcome<Held> {
    match o
    case Ok(v) => Ok(Held(v.Int(), size))
    case DivideByZero => DivideByZero
    case AssertionFailed => AssertionFailed
    case Undefined => Undefined
  }

  ghost predicate ValidOutcome(o: Outcome<BigInt>) {
    o.Ok? ==> o.value.Valid()
  }

  /** `div` with the signs it sets. */
  method DivRem(x: BigInt, y: BigInt) returns (divideByZero: bool, q: BigInt, r: BigInt)
    requires x.Valid() && y.Valid()
    ensures divideByZero <==> y.Int() == 0
    ensures !divideByZero ==> q.Valid() && r.Valid()
    ensures !divideByZero ==> q.Int() == Abs(x.Int()) / Abs(y.Int()) && r.Int() == Abs(x.Int()) % Abs(y.Int())
  {
    var qs, rs;
    divideByZero, qs, rs := DivDigits(x.digits, y.digits);
    q, r := x, y;
    if !divideByZero {
      DivisionUnique(Value(x.digits), Value(y.digits), Value(qs), Value(rs));
      qs := Normalize(qs);
      rs := Normalize(rs);
      q := Signed(1, qs);
      r := Signed(1, rs);
    }
  }

  method Over(x: BigInt, y: BigInt) returns (o: Outcome<BigInt>)
    requires x.Valid() && y.Valid()
    ensures ValidOutcome(o) && IntOf(o) == QuotientOf(x.Int(), y.Int())
  {
    var dz, q, r := DivRem(x, y);
    if dz { return DivideByZero; }
    ZeroValue(r);
    if x.sign == -1 && !IsZero(r) {
      // adding the carry past the last digit leaves it over, and the code asserts that it is zero
      return AssertionFailed;
    }
    o := Ok(q);
  }

  /** The first `n` digits of an array that holds `s` and zeros. */
  function Padded(s: seq<Digit>, n: nat): (p: seq<Digit>)
    ensures |p| == n
  {
    if |s| >= n then s[..n] else s + seq(n - |s|, _ => 0)
  }

  lemma PaddedValue(s: seq<Digit>, n: nat)
    ensures Value(Padded(s, n)) == Value(s) % Pow(n)
  {
    hide Value, Pow;
    if |s| >= n {
      ValueSplit(s, n);
      ValueBound(s[..n]);
      DivisionUnique(Value(s), Pow(n), Value(s[n..]), Value(s[..n]));
    } else {
      var zeros: seq<Digit> := seq(n - |s|, _ => 0);
      ValueConcat(s, zeros);
      ValueOfZeros(zeros);
      ValueBound(Padded(s, n));
      DivisionUnique(Value(s), Pow(n), 0, Value(s));
    }
  }

  /** The loop of `operator%`: `size` digits of the divisor are taken from the remainder. */
  method SubtractLow(r: seq<Digit>, y: seq<Digit>, size: nat) returns (borrow: nat, z: seq<Digit>)
    requires 0 < |r| <= size
    ensures borrow == if Value(r) < Value(y) % Pow(size) then 1 else 0
    ensures borrow == 0 ==> Trimmed(z) && Value(z) == Value(r) - Value(y) % Pow(size)
  {
    hide Value, Pow;
    var a := new Digit[size](_ => 0);
    PaddedValue(r, size);
    PaddedValue(y, size);
    ValueBound(r);
    PowMonotone(|r|, size);
    DivisionUnique(Value(r), Pow(size), 0, Value(r));
    borrow := SubLoop(a, size, Padded(r, size), Padded(y, size));
    assert Padded(r, size)[..size] == Padded(r, size) && Padded(y, size)[..size] == Padded(y, size);
    ValueBound(a[..size]);
    z := Normalize(a[..size]);
  }

  /** `operator%` on arrays of `xs` and `ys` digits; `size` is the size of the result's. */
  method Modulo(x: BigInt, xs: nat, y: BigInt, ys: nat) returns (o: Outcome<BigInt>, size: nat)
    requires x.Valid() && y.Valid() && |x.digits| <= xs && |y.digits| <= ys
    ensures ValidOutcome(o) && HeldOf(o, size) == RemainderOf(Held(x.Int(), xs), Held(y.Int(), ys))
    ensures o.Ok? ==> |o.value.digits| <= size && 0 <= o.value.Int() < Abs(y.Int())
  {
    hide Value, Width, Pow;
    TrimmedWidth(x.digits);
    TrimmedWidth(y.digits);
    size := if |y.digits| > |x.digits| then xs else |y.digits|;
    var dz, q, r := DivRem(x, y);
    if dz { return DivideByZero, size; }
    RemainderFits(x, y, r, size);
    ZeroValue(r);
    if x.sign == -1 && !IsZero(r) {
      if size > ys { return Undefined, size; }
      var borrow, z := SubtractLow(r.digits, y.digits, size);
      if borrow != 0 { return AssertionFailed, size; }
      r := Signed(1, z);
      TrimmedWidth(r.digits);
      WidthAtMost(Value(r.digits), size);
    }
    o := Ok(r);
  }

  lemma RemainderFits(x: BigInt, y: BigInt, r: BigInt, size: nat)
    requires x.Valid() && y.Valid() && r.Valid() && y.Int() != 0 && r.Int() == Abs(x.Int()) % Abs(y.Int())
    requires if |y.digits| > |x.digits| then size >= |x.digits| else size == |y.digits|
    ensures |r.digits| <= size && 0 <= r.Int() < Abs(y.Int()) && Value(r.digits) < Pow(size)
  {
    hide Value, Width, Pow;
    QuotientRemainder(Abs(x.Int()), Abs(y.Int()));
    LongerIsLarger(x.digits, y.digits);
    TrimmedWidth(r.digits);
    ValueBound(x.digits);
    ValueBound(y.digits);
    if |y.digits| > |x.digits| {
      DivisionUnique(Abs(x.Int()), Abs(y.Int()), 0, Abs(x.Int()));
      PowMonotone(|x.digits|, size);
    }
    WidthAtMost(Value(r.digits), size);
  }

  // ---- Order ----

  /** `operator<`: the difference has a positive sign; zero has one, so equal numbers pass. */
  method Less(x: BigInt, y: BigInt) returns (b: bool)
    requires x.Valid() && y.Valid()
    ensures b <==> x.Int() <= y.Int()
  {
    var d := Minus(y, x);
    ZeroValue(d);
    b := d.sign > 0;
  }

  method Equal(x: BigInt, y: BigInt) returns (b: bool)
    requires x.Valid() && y.Valid()
    ensures b <==> x.Int() == y.Int()
  {
    Unique(x, y);
    var c := Compare(x.digits, y.digits);
    b := x.sign == y.sign && c == 0;
    if b { TrimmedUnique(x.digits, y.digits); }
  }

  // ---- Greatest common divisor ----

  /** The loop of `gcd` on the integers and the sizes of their arrays. */
  function GcdOf(a: Held, b: Held): Outcome<Held>
    decreases Abs(b.n)
  {
    if b.n == 0 then Ok(a)
    else
      match RemainderOf(a, b)
      case Ok(r) => GcdOf(b, r)
      case DivideByZero => DivideByZero
      case AssertionFailed => AssertionFailed
      case Undefined => Undefined
  }

  method Gcd(x: BigInt, xs: nat, d: BigInt, ds: nat) returns (o: Outcome<BigInt>, size: nat)
    requires x.Valid() && d.Valid() && |x.digits| <= xs && |d.digits| <= ds
    ensures ValidOutcome(o) && HeldOf(o, size) == GcdOf(Held(x.Int(), xs), Held(d.Int(), ds))
  {
    hide RemainderOf;
    var a, b, bs := x, d, ds;
    size := xs;
    ZeroValue(b);
    while !IsZero(b)
      invariant a.Valid() && b.Valid() && (IsZero(b) <==> b.Int() == 0)
      invariant |a.digits| <= size && |b.digits| <= bs
      invariant GcdOf(Held(a.Int(), size), Held(b.Int(), bs)) == GcdOf(Held(x.Int(), xs), Held(d.Int(), ds))
      decreases Abs(b.Int())
    {
      var r, rs := Modulo(a, size, b, bs);
      if !r.Ok? { return r, rs; }
      a, size, b, bs := b, bs, r.value, rs;
      ZeroValue(b);
    }
    o := Ok(a);
  }

  /** On natural numbers `gcd` is the greatest common divisor. */
  lemma {:induction false} GcdOfNats(a: Held, b: Held)
    requires a.n >= 0 && b.n >= 0
    ensures GcdOf(a, b).Ok? && GcdOf(a, b).value.n == NatGcd(a.n, b.n)
    decreases b.n
  {
    hide RemainderSize;
    if b.n != 0 { GcdOfNats(b, Held(a.n % b.n, RemainderSize(a, b))); }
  }

  /** A divisor that does not fit into the array of a negative dividend, and low digits of it that can
      be taken from the dividend. */
  predicate Wraps(a: Held, b: Held) {
    a.n < 0 && Abs(b.n) >= Pow(a.size) && Abs(b.n) % Pow(a.size) <= Abs(a.n)
  }

  /** What is left of the dividend then. */
  function Left(a: Held, b: Held): nat
    requires Wraps(a, b)
  {
    Abs(a.n) - Abs(b.n) % Pow(a.size)
  }

  /** Exactly when `gcd` returns: no negative number may meet a divisor that leaves a remainder, unless
      the divisor is wider than the array of the dividend. */
  lemma GcdDefined(a: Held, b: Held)
    requires a.Fits() && b.Fits()
    ensures GcdOf(a, b).Ok? <==>
              || b.n == 0
              || Divides(Abs(b.n), Abs(a.n))
              || (a.n >= 0 && (b.n >= 0 || Divides(a.n % -b.n, -b.n)))
              || (Wraps(a, b) && (b.n >= 0 || Left(a, b) == 0 || Divides(Left(a, b), -b.n)))
    ensures GcdOf(a, b).Ok? ==>
              Abs(GcdOf(a, b).value.n) ==
              if Wraps(a, b) then NatGcd(Abs(b.n), Left(a, b)) else NatGcd(Abs(a.n), Abs(b.n))
    ensures GcdOf(a, b).Ok? && b.n != 0 ==>
              (GcdOf(a, b).value.n < 0 <==>
               b.n < 0 && (Divides(Abs(b.n), Abs(a.n)) || (Wraps(a, b) && Left(a, b) == 0)))
  {
    hide Pow, Width, RemainderSize;
    if b.n != 0 {
      ModIsZero(Abs(a.n), Abs(b.n));
      if a.n >= 0 || Abs(a.n) % Abs(b.n) == 0 {
        PlainRemainder(a, b);
        GcdNext(a, b, Held(Abs(a.n) % Abs(b.n), RemainderSize(a, b)));
      } else {
        Subtracted(a, b);
        WidthAtMost(Abs(a.n), a.size);
        if Wraps(a, b) {
          WidthAtMost(Left(a, b), a.size);
          GcdNext(a, b, Held(Left(a, b), a.size));
        }
      }
    }
  }

  lemma PlainRemainder(a: Held, b: Held)
    requires a.Fits() && b.Fits() && b.n != 0 && (a.n >= 0 || Abs(a.n) % Abs(b.n) == 0)
    ensures !Wraps(a, b) && RemainderOf(a, b) == Ok(Held(Abs(a.n) % Abs(b.n), RemainderSize(a, b)))
    ensures Width(Abs(a.n) % Abs(b.n)) <= RemainderSize(a, b)
  {
    hide Pow, Width;
    var x, y := Abs(a.n), Abs(b.n);
    QuotientRemainder(x, y);
    WidthAtMost(y, Width(y));
    WidthAtMost(x % y, Width(y));
    WidthAtMost(x, a.size);
    WidthAtMost(x % y, a.size);
    WidthAtMost(y, Width(x));
    WidthAtMost(x, Width(x));
    if x < y { DivisionUnique(x, y, 0, x); }
  }

  lemma GcdTurn(a: Held, b: Held, r: Held)
    requires b.n != 0 && RemainderOf(a, b) == Ok(r)
    ensures GcdOf(a, b) == GcdOf(b, r) && (r.n == 0 ==> GcdOf(a, b) == Ok(b))
  {
  }

  /** The rest of the loop, after a first remainder. */
  lemma GcdNext(a: Held, b: Held, r: Held)
    requires b.n != 0 && b.Fits() && r.Fits() && RemainderOf(a, b) == Ok(r) && 0 <= r.n < Abs(b.n)
    ensures GcdOf(a, b).Ok? <==> b.n > 0 || r.n == 0 || Divides(r.n, -b.n)
    ensures GcdOf(a, b).Ok? ==> Abs(GcdOf(a, b).value.n) == NatGcd(Abs(b.n), r.n)
    ensures GcdOf(a, b).Ok? ==> (GcdOf(a, b).value.n < 0 <==> b.n < 0 && r.n == 0)
  {
    assert GcdOf(a, b) == GcdOf(b, r);
    if b.n > 0 {
      GcdOfNats(b, r);
    } else if r.n > 0 {
      hide Pow, Width, RemainderSize;
      ModIsZero(-b.n, r.n);
      if (-b.n) % r.n == 0 {
        assert GcdOf(b, r) == GcdOf(r, Held(0, RemainderSize(b, r)));
        assert NatGcd(-b.n, r.n) == NatGcd(r.n, 0);
      } else {
        Subtracted(b, r);
        WidthAtMost(-b.n, b.size);
        assert RemainderOf(b, r) == AssertionFailed || RemainderOf(b, r) == Undefined;
      }
    }
  }

  /** Exactly when what `gcd` returns is the greatest common divisor, but for the sign. */
  lemma GcdCorrect(a: Held, b: Held)
    requires a.Fits() && b.Fits() && GcdOf(a, b).Ok?
    ensures Abs(GcdOf(a, b).value.n) == NatGcd(Abs(a.n), Abs(b.n)) <==>
              Wraps(a, b) ==>
                && Divides(NatGcd(Abs(a.n), Abs(b.n)), Abs(b.n) % Pow(a.size))
                && Divides(NatGcd(Abs(b.n), Left(a, b)), Abs(b.n) % Pow(a.size))
  {
    GcdDefined(a, b);
    if Wraps(a, b) { GcdShifted(Abs(a.n), Abs(b.n), Abs(b.n) % Pow(a.size)); }
  }

  lemma GcdShifted(a: nat, b: nat, low: nat)
    requires low <= a && 0 < a && 0 < b
    ensures NatGcd(b, a - low) == NatGcd(a, b) <==> Divides(NatGcd(a, b), low) && Divides(NatGcd(b, a - low), low)
  {
    var g, h := NatGcd(a, b), NatGcd(b, a - low);
    NatGcdDivides(a, b);
    NatGcdDivides(b, a - low);
    NatGcdPositive(a, b);
    if Divides(g, low) { DividesSum(g, low, a - low); NatGcdGreatest(b, a - low, g); }
    if Divides(h, low) { DividesSum(h, low, a - low); NatGcdGreatest(a, b, h); }
    if Divides(g, low) && Divides(h, low) {
      NatGcdPositive(b, a - low);
      DividesLarge(g, h);
      DividesLarge(h, g);
    }
    if g == h && !Divides(g, low) {
      DividesSum(g, a - low, low);
      assert false;
    }
  }

  /** The greatest common divisor of -6 and 2^64 + 2 is 6, but 2 comes out. */
  lemma GcdWrong()
    ensures GcdOf(Held(-6, 8), Held(0x1_0000_0000_0000_0002, 9)) == Ok(Held(2, 1))
    ensures NatGcd(6, 0x1_0000_0000_0000_0002) == 6
  {
    var a, b := Held(-6, 8), Held(0x1_0000_0000_0000_0002, 9);
    EightDigits();
    PowNext(8);
    hide Pow, Width, RemainderOf, GcdOf, NatGcd;
    NatGcdTurn(6, b.n, 6);
    NatGcdTurn(b.n, 6, 0);
    NatGcdEnds(6);
    WidthAtMost(6, 8);
    WidthAtMost(b.n, 9);
    WidthAtMost(4, 1);
    WidthAtMost(2, 1);
    Subtracted(a, b);
    GcdTurn(a, b, Held(4, 8));
    PlainRemainder(b, Held(4, 8));
    GcdTurn(b, Held(4, 8), Held(2, RemainderSize(b, Held(4, 8))));
    PlainRemainder(Held(4, 8), Held(2, 1));
    GcdTurn(Held(4, 8), Held(2, 1), Held(0, RemainderSize(Held(4, 8), Held(2, 1))));
  }
}
