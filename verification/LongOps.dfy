/** Overflow-checked and promoting arithmetic on 64-bit longs (src/Numbers.cpp:1680-1700,
    1788-1905). Signed overflow wraps around, as the code's own checks suppose. */
module LongOps {
  import opened Digits
  import opened Divisibility
  import opened BigInts

  type Long = x: int | LONG_MIN <= x <= LONG_MAX

  /** The long an integer wraps around to. */
  function Wrap(x: int): (r: Long)
    ensures exists k: int :: x == r + k * 0x1_0000_0000_0000_0000
    ensures LONG_MIN <= x <= LONG_MAX ==> r == x
  {
    var m := x % 0x1_0000_0000_0000_0000;
    var r := if m < 0x8000_0000_0000_0000 then m else m - 0x1_0000_0000_0000_0000;
    assert x == r + (if m < 0x8000_0000_0000_0000 then x / 0x1_0000_0000_0000_0000
      else x / 0x1_0000_0000_0000_0000 + 1) * 0x1_0000_0000_0000_0000;
    r
  }

  /** The sign bit of the exclusive or of two longs. */
  predicate SignsDiffer(x: Long, y: Long) {
    (x < 0) != (y < 0)
  }

  datatype Checked = Value(r: Long) | Overflow

  function Add(x: Long, y: Long): (c: Checked)
    ensures c == if LONG_MIN <= x + y <= LONG_MAX then Value(x + y) else Overflow
  {
    var ret := Wrap(x + y);
    if SignsDiffer(ret, x) && SignsDiffer(ret, y) then Overflow else Value(ret)
  }

  /** Division of longs in C: rounded toward zero. */
  function CDiv(a: int, b: int): int
    requires b != 0
  {
    if (a < 0) == (b < 0) then Abs(a) / Abs(b) else -(Abs(a) / Abs(b))
  }

  /** The remainder of C, with the sign of the dividend. */
  function CRem(a: int, b: int): int
    requires b != 0
  {
    if a < 0 then 0 - Abs(a) % Abs(b) else Abs(a) % Abs(b)
  }

  /** `multiply`: dividing the wrapped product by one factor gives the other back exactly when the
      product did not wrap. */
  function Multiply(x: Long, y: Long): (c: Checked)
    ensures c == if LONG_MIN <= x * y <= LONG_MAX then Value(x * y) else Overflow
  {
    MultiplyChecks(x, y);
    if x == LONG_MIN && y < 0 then Overflow
    else
      var ret := Wrap(x * y);
      if y != 0 && CDiv(ret, y) != x then Overflow else Value(ret)
  }

  lemma MultiplyChecks(x: Long, y: Long)
    ensures x == LONG_MIN && y < 0 ==> x * y > LONG_MAX
    ensures !(x == LONG_MIN && y < 0) && y != 0 ==>
              (CDiv(Wrap(x * y), y) == x <==> LONG_MIN <= x * y <= LONG_MAX)
  {
    if x == LONG_MIN && y < 0 {
      SignedProduct(Abs(x), Abs(y));
      MulMono(Abs(x), 1, Abs(y));
    } else if y != 0 {
      DivideBack(x, y);
      if CDiv(Wrap(x * y), y) == x { NoWrap(x, y, Wrap(x * y)); }
    }
  }

  lemma DivideBack(x: int, y: int)
    requires y != 0
    ensures CDiv(x * y, y) == x
  {
    AbsProduct(x, y);
    DivisionUnique(Abs(x * y), Abs(y), Abs(x), 0);
  }

  lemma AbsProduct(x: int, y: int)
    ensures Abs(x * y) == Abs(x) * Abs(y)
    ensures x * y < 0 <==> x != 0 && y != 0 && (x < 0) != (y < 0)
    ensures x * y == 0 <==> x == 0 || y == 0
  {
    SignedProduct(Abs(x), Abs(y));
    if x != 0 && y != 0 { MulMono(Abs(x), 1, Abs(y)); }
  }

  /** A wrapped product that divides back is off by less than one factor, so it did not wrap. */
  lemma NoWrap(x: Long, y: Long, w: Long)
    requires y != 0 && w == Wrap(x * y) && CDiv(w, y) == x
    ensures w == x * y
  {
    AbsProduct(x, y);
    var k: int :| x * y == w + k * 0x1_0000_0000_0000_0000;
    var p := x * y;
    assert Abs(w) / Abs(y) == Abs(x);
    DividesBack(Abs(w), Abs(y), Abs(p));
    hide CDiv, Wrap;
    assert x != 0 ==> (w < 0) == (p < 0);
    assert x == 0 ==> p == 0;
  }

  lemma DividesBack(a: nat, b: nat, p: nat)
    requires b > 0 && (a / b) * b == p
    ensures p <= a < p + b
  {
    QuotientRemainder(a, b);
  }

  // ---- Promotion ----

  /** What the promoting operations return. */
  datatype Integer = Small(long: Long) | Big(big: BigInt)

  ghost function IntegerValue(n: Integer): int {
    match n
    case Small(x) => x
    case Big(b) => b.Int()
  }

  /** A result is a big integer exactly when no long holds it. */
  ghost predicate Promoted(n: Integer, value: int) {
    && (n.Big? ==> n.big.Valid())
    && IntegerValue(n) == value
    && (n.Big? <==> !(LONG_MIN <= value <= LONG_MAX))
  }

  method AddP(x: Long, y: Long) returns (n: Integer)
    ensures Promoted(n, x + y)
  {
    var ret := Wrap(x + y);
    if SignsDiffer(x, ret) && SignsDiffer(y, ret) {
      var a := FromLong(x);
      var b := FromLong(y);
      var sum := Plus(a, b);
      return Big(sum);
    }
    n := Small(ret);
  }

  method MultiplyP(x: Long, y: Long) returns (n: Integer)
    ensures Promoted(n, x * y)
  {
    MultiplyChecks(x, y);
    var ret := Wrap(x * y);
    if (x == LONG_MIN && y < 0) || (y != 0 && CDiv(ret, y) != x) {
      var a := FromLong(x);
      var b := FromLong(y);
      var product := BigInts.Multiply(a, b);
      return Big(product);
    }
    n := Small(ret);
  }

  method NegateP(x: Long) returns (n: Integer)
    ensures Promoted(n, 0 - x)
  {
    if x == LONG_MIN {
      var a := FromLong(x);
      var negated := Negate(a);
      return Big(negated);
    }
    n := Small(0 - x);
  }

  method IncP(x: Long) returns (n: Integer)
    ensures Promoted(n, x + 1)
  {
    if x == LONG_MAX {
      var a := FromLong(x);
      var one := FromLong(1);
      var sum := Plus(a, one);
      return Big(sum);
    }
    n := Small(x + 1);
  }

  method DecP(x: Long) returns (n: Integer)
    ensures Promoted(n, x - 1)
  {
    if x == LONG_MIN {
      var a := FromLong(x);
      var one := FromLong(1);
      var difference := Minus(a, one);
      return Big(difference);
    }
    n := Small(x - 1);
  }
}
