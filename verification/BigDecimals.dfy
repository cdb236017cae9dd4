/** Decimal numbers in two forms, a compact long or a big integer (src/Numbers.cpp:640-720,
    801-813, 879-958, 1144-1151, 1215-1230). The sentinel INFLATED in the compact field says that
    the number is in the other one. */
module BigDecimals {
  import opened Wrappers
  import opened BigInts
  import opened BigPowers
  import opened DecimalDigits
  import opened Digits
  import opened Divisibility
  import LongOps

  const INFLATED := LONG_MIN
  const INT_MIN := -0x8000_0000
  const INT_MAX := 0x7fff_ffff

  datatype BigDecimal = BigDecimal(intVal: Option<BigInt>, intCompact: LongOps.Long, scale: int, precision: nat)

  /** The unscaled integer: the number is `Unscaled(d)` over ten to the power `d.scale`. */
  ghost function Unscaled(d: BigDecimal): int
    requires d.intCompact == INFLATED ==> d.intVal.Some?
  {
    if d.intCompact != INFLATED then d.intCompact else d.intVal.value.Int()
  }

  /** The two forms agree. */
  ghost predicate Shaped(d: BigDecimal) {
    && INT_MIN <= d.scale <= INT_MAX
    && (d.intVal.Some? ==> d.intVal.value.Valid())
    && (d.intCompact == INFLATED ==> d.intVal.Some?)
    && (d.intCompact != INFLATED && d.intVal.Some? ==> d.intVal.value.Int() == d.intCompact)
  }

  /** And so does the precision, once it is known. */
  ghost predicate Valid(d: BigDecimal) {
    Shaped(d) && (d.precision > 0 ==> HasDigits(Abs(Unscaled(d)), d.precision))
  }

  /** The result of an operation: this unscaled value at this scale. */
  ghost predicate Is(d: BigDecimal, unscaled: int, scale: int) {
    Valid(d) && Unscaled(d) == unscaled && d.scale == scale
  }

  /** `checkScale`: None where it throws, for a scale outside the range of an int. */
  function CheckScale(val: int): Option<int> {
    if INT_MIN <= val <= INT_MAX then Some(val) else None
  }

  /** `valueOf`: a long, even the one that equals the sentinel, at a scale. */
  method ValueOf(unscaledVal: LongOps.Long, scale: int) returns (d: BigDecimal)
    requires INT_MIN <= scale <= INT_MAX
    ensures Is(d, unscaledVal, scale) && d.intCompact == unscaledVal
  {
    if unscaledVal == INFLATED || (scale != 0 && unscaledVal == 0) {
      var b := FromLong(unscaledVal);
      d := BigDecimal(Some(b), unscaledVal, scale, if unscaledVal == 0 then 1 else 0);
      ZeroDigits();
    } else {
      d := BigDecimal(None, unscaledVal, scale, 0);
    }
  }

  lemma ZeroDigits()
    ensures HasDigits(0, 1)
  {
  }

  /** The constructor from a big integer: compact if the integer equals its conversion to a long.
      The conversion itself is `lb`, whatever it is. */
  method FromBigInt(x: BigInt, scale: int, lb: LongOps.Long) returns (d: BigDecimal)
    requires INT_MIN <= scale <= INT_MAX && x.Valid()
    ensures Is(d, x.Int(), scale)
  {
    var b := FromLong(lb);
    var same := Equal(x, b);
    d := if same && lb != INFLATED then BigDecimal(None, lb, scale, 0) else BigDecimal(Some(x), INFLATED, scale, 0);
  }

  method Inflate(d: BigDecimal) returns (b: BigInt)
    requires Valid(d)
    ensures b.Valid() && b.Int() == Unscaled(d)
  {
    if d.intVal.Some? { b := d.intVal.value; } else { b := FromLong(d.intCompact); }
  }

  /** `longMultiplyPowerTen`: scale up within the long range, or say that it does not fit. */
  function LongMultiplyPowerTen(val: LongOps.Long, n: int): (r: LongOps.Long)
    requires val != INFLATED
    ensures r != INFLATED ==> r == val * TenTo(if n <= 0 then 0 else n)
    ensures r == INFLATED <==> n > 0 && Abs(val) * TenTo(n) > LONG_MAX
  {
    ThresholdTest(val, n);
    if val == 0 || n <= 0 then val
    else if n < 19 && val == 1 then TenTo(n)
    else if n < 19 && Abs(val) <= LONG_MAX / TenTo(n) then val * TenTo(n)
    else INFLATED
  }

  /** The thresholds are exact: beyond them, and beyond the table, nothing but zero fits. */
  lemma ThresholdTest(val: int, n: int)
    ensures 0 < n < 19 ==> TenTo(n) <= LONG_MAX
    ensures 0 < n < 19 ==> (Abs(val) <= LONG_MAX / TenTo(n) <==> Abs(val) * TenTo(n) <= LONG_MAX)
    ensures n >= 19 && val != 0 ==> Abs(val) * TenTo(n) > LONG_MAX
  {
    PowersOfTen();
    if 0 < n < 19 {
      TenToMonotone(n, 18);
      ThresholdExact(Abs(val), TenTo(n), LONG_MAX);
    } else if n >= 19 && val != 0 {
      TenToMonotone(19, n);
      MulMono(TenTo(n), 1, Abs(val));
    }
  }

  lemma ThresholdExact(a: nat, t: nat, limit: nat)
    requires t > 0
    ensures a <= limit / t <==> a * t <= limit
  {
    QuotientRemainder(limit, t);
    if a <= limit / t { MulMono(t, a, limit / t); } else { MulMono(t, limit / t + 1, a); Distribute(limit / t, 1, t); }
  }

  /** Which `pow` the ten-powers come from: the repaired one, the one in the code, or the one in the
      code with line 339 repaired. */
  datatype Source = Repaired | AsWritten | LineRepaired

  /** What `bigTenToThe` returns. */
  function TenPower(n: nat, pow: Source): int {
    if pow == Repaired then TenTo(n) else PowOf(10, n, pow == LineRepaired)
  }

  lemma {:induction false} TenToIsPower(n: nat)
    ensures TenTo(n) == IntPow(10, n)
  {
    if n > 0 { TenToIsPower(n - 1); }
  }

  method BigTenToThe(n: int, pow: Source) returns (t: BigInt)
    requires 0 < n <= INT_MAX
    ensures t.Valid() && t.Int() == TenPower(n, pow)
  {
    hide TenTo, IntPow, PowOf;
    var ten := FromLong(10);
    var exponent := FromLong(n);
    if pow == Repaired {
      TenToIsPower(n);
      t := Power(ten, exponent);
    } else {
      t := PowCode(ten, exponent, pow == LineRepaired);
    }
  }

  method BigMultiplyPowerTen(d: BigDecimal, n: int, pow: Source) returns (r: BigInt)
    requires Valid(d) && n <= INT_MAX
    ensures r.Valid() && r.Int() == if n <= 0 then Unscaled(d) else Unscaled(d) * TenPower(n, pow)
  {
    hide TenPower;
    var b := Inflate(d);
    if n <= 0 { return b; }
    var t := BigTenToThe(n, pow);
    if d.intCompact != INFLATED { b := FromLong(d.intCompact); }
    r := BigInts.Multiply(t, b);
  }

  /** The sum at the larger of the two scales. */
  ghost function SumAt(x: BigDecimal, y: BigDecimal): int
    requires Valid(x) && Valid(y)
  {
    if x.scale <= y.scale then Unscaled(x) * TenTo(y.scale - x.scale) + Unscaled(y)
    else Unscaled(x) + Unscaled(y) * TenTo(x.scale - y.scale)
  }

  /** Is the number compact, and does it stay so at a scale larger by `n`? */
  ghost predicate StaysCompact(d: BigDecimal, n: nat)
    requires Valid(d)
  {
    d.intCompact != INFLATED && Abs(d.intCompact) * TenTo(n) <= LONG_MAX
  }

  /** The unscaled value that an operand raised by `n` places gets. */
  ghost function RaisedBy(d: BigDecimal, n: nat, pow: Source): int
    requires Valid(d)
  {
    if n == 0 then Unscaled(d)
    else if StaysCompact(d, n) then Unscaled(d) * TenTo(n)
    else Unscaled(d) * TenPower(n, pow)
  }

  /** Exactly when raising an operand keeps its number: where the table of longs serves or there is
      nothing to raise. The power of ten is right only where `pow` is (see `PowExact`). */
  lemma RaiseExact(d: BigDecimal, n: nat, pow: Source)
    requires Valid(d)
    ensures RaisedBy(d, n, pow) == Unscaled(d) * TenTo(n) <==>
              n == 0 || Unscaled(d) == 0 || StaysCompact(d, n) || pow == Repaired ||
              (pow == LineRepaired && 384 <= n < 512)
  {
    hide PowOf, IntPow, StaysCompact, Unscaled;
    assert TenTo(0) == 1;
    hide TenTo;
    TenToIsPower(n);
    PowExact(10, n, pow == LineRepaired);
    FactorsEqual(Unscaled(d), TenPower(n, pow), TenTo(n));
  }

  lemma FactorsEqual(a: int, b: int, c: int)
    ensures a * b == a * c <==> a == 0 || b == c
  {
    if a != 0 && b != c {
      LongOps.AbsProduct(a, b - c);
      assert a * (b - c) == a * b - a * c;
    }
  }

  /** An operand as `operator+` holds it: a long, or INFLATED and a big integer. */
  datatype Operand = Operand(compact: LongOps.Long, big: Option<BigInt>)

  ghost predicate Holds(o: Operand, value: int) {
    && (o.big.Some? ==> o.big.value.Valid() && o.big.value.Int() == value)
    && (if o.compact != INFLATED then o.compact == value else o.big.Some?)
  }

  /** The operand with the smaller scale, raised to the larger one. */
  method Raise(d: BigDecimal, raise: int, pow: Source) returns (o: Operand)
    requires Valid(d) && 0 < raise <= INT_MAX
    ensures Holds(o, RaisedBy(d, raise, pow))
  {
    hide TenTo, TenPower;
    var xs := d.intCompact;
    if xs != INFLATED { xs := LongMultiplyPowerTen(xs, raise); }
    if xs == INFLATED {
      var b := BigMultiplyPowerTen(d, raise, pow);
      o := Operand(xs, Some(b));
    } else {
      o := Operand(xs, None);
    }
  }

  method BigOf(o: Operand, ghost value: int) returns (b: BigInt)
    requires Holds(o, value)
    ensures b.Valid() && b.Int() == value
  {
    if o.big.Some? { b := o.big.value; } else { b := FromLong(o.compact); }
  }

  /** `signum` */
  function Signum(x: BigInt): int {
    if IsZero(x) then 0 else x.sign
  }

  /** The sum of two operands of one scale: a long if it does not overflow. `lb` is the conversion
      of a big sum to a long. */
  method SumOperands(x: Operand, y: Operand, scale: int, lb: LongOps.Long, ghost a: int, ghost b: int)
    returns (r: BigDecimal)
    requires INT_MIN <= scale <= INT_MAX && Holds(x, a) && Holds(y, b)
    ensures Is(r, a + b, scale)
  {
    if x.compact != INFLATED && y.compact != INFLATED {
      var xs: int, ys: int := x.compact, y.compact;
      var sum := LongOps.Wrap(xs + ys);
      if !(LongOps.SignsDiffer(sum, xs) && LongOps.SignsDiffer(sum, ys)) {
        r := ValueOf(sum, scale);
        return;
      }
    }
    var fst := BigOf(x, a);
    var snd := BigOf(y, b);
    var sum := BigInts.Plus(fst, snd);
    if Signum(fst) == Signum(snd) {
      r := BigDecimal(Some(sum), INFLATED, scale, 0);
    } else {
      r := FromBigInt(sum, scale, lb);
    }
  }

  /** The sum with the operand of the smaller scale raised as the code raises it. */
  ghost function SumWith(x: BigDecimal, y: BigDecimal, pow: Source): int
    requires Valid(x) && Valid(y)
  {
    if x.scale <= y.scale then RaisedBy(x, y.scale - x.scale, pow) + Unscaled(y)
    else Unscaled(x) + RaisedBy(y, x.scale - y.scale, pow)
  }

  /** `operator+`; an error exactly when the scales are further apart than an int. `PlusExact` says
      when it is the sum. */
  method Plus(x: BigDecimal, y: BigDecimal, lb: LongOps.Long, pow: Source) returns (r: Option<BigDecimal>)
    requires Valid(x) && Valid(y)
    ensures r.Some? <==> Abs(x.scale - y.scale) <= INT_MAX
    ensures r.Some? ==> Is(r.value, SumWith(x, y, pow), if x.scale < y.scale then y.scale else x.scale)
    ensures r.Some? && pow == Repaired ==> Unscaled(r.value) == SumAt(x, y)
  {
    hide TenTo, RaisedBy;
    PlusExact(x, y, pow);
    var fst := Operand(x.intCompact, if x.intCompact != INFLATED then None else x.intVal);
    var snd := Operand(y.intCompact, if y.intCompact != INFLATED then None else y.intVal);
    ghost var a, b := Unscaled(x), Unscaled(y);
    var rscale := x.scale;
    var sdiff := rscale - y.scale;
    if sdiff < 0 {
      var raise := CheckScale(-sdiff);
      if raise.None? { return None; }
      rscale := y.scale;
      fst := Raise(x, raise.value, pow);
      a := RaisedBy(x, raise.value, pow);
    } else if sdiff > 0 {
      var raise := CheckScale(sdiff);
      if raise.None? { return None; }
      snd := Raise(y, raise.value, pow);
      b := RaisedBy(y, raise.value, pow);
    } else {
      NotRaised(x, pow);
    }
    var sum := SumOperands(fst, snd, rscale, lb, a, b);
    r := Some(sum);
  }

  lemma NotRaised(x: BigDecimal, pow: Source)
    requires Valid(x)
    ensures RaisedBy(x, 0, pow) == Unscaled(x)
  {
  }

  /** Exactly when `x + y` is the sum: always with `pow` repaired, and otherwise only where the
      operand of the smaller scale needs no raising or is raised by the table of longs. */
  lemma PlusExact(x: BigDecimal, y: BigDecimal, pow: Source)
    requires Valid(x) && Valid(y)
    ensures var (d, n) := if x.scale <= y.scale then (x, y.scale - x.scale) else (y, x.scale - y.scale);
            SumWith(x, y, pow) == SumAt(x, y) <==>
              pow == Repaired || n == 0 || Unscaled(d) == 0 || StaysCompact(d, n) ||
              (pow == LineRepaired && 384 <= n < 512)
  {
    hide TenTo, RaisedBy, StaysCompact, Unscaled;
    if x.scale <= y.scale {
      RaiseExact(x, y.scale - x.scale, pow);
    } else {
      RaiseExact(y, x.scale - y.scale, pow);
    }
  }

  /** One at scale 0 and one at scale 19: the sum comes out with ten to the power 32 in place of 19,
      or with 51. */
  lemma PlusWrong(x: BigDecimal, y: BigDecimal)
    requires x == BigDecimal(None, 1, 0, 0) && y == BigDecimal(None, 1, 19, 0)
    ensures Valid(x) && Valid(y)
    ensures SumAt(x, y) == TenTo(19) + 1
    ensures SumWith(x, y, AsWritten) == TenTo(32) + 1 != SumAt(x, y)
    ensures SumWith(x, y, LineRepaired) == TenTo(51) + 1 != SumAt(x, y)
  {
    hide IntPow, PowOf;
    PowersOfTen();
    hide TenTo;
    NineteenTens();
    TenToIsPower(19);
    TenToIsPower(32);
    TenToIsPower(51);
    assert !StaysCompact(x, 19);
  }

  method GetPrecision(d: BigDecimal) returns (p: nat)
    requires Valid(d) && d.intCompact != INFLATED
    ensures HasDigits(Abs(Unscaled(d)), p)
  {
    if d.precision != 0 { return d.precision; }
    p := LongDigitLength(d.intCompact);
  }

  /** `operator*`: exact for all operands; an error exactly when the sum of the scales is no int.
      Two compact operands give a compact product exactly when it fits. */
  method Multiply(x: BigDecimal, y: BigDecimal) returns (r: Option<BigDecimal>)
    requires Valid(x) && Valid(y)
    ensures r.Some? <==> INT_MIN <= x.scale + y.scale <= INT_MAX
    ensures r.Some? ==> Is(r.value, Unscaled(x) * Unscaled(y), x.scale + y.scale)
    ensures r.Some? && x.intCompact != INFLATED && y.intCompact != INFLATED ==>
              (r.value.intCompact == Unscaled(x) * Unscaled(y) <==> LONG_MIN <= Unscaled(x) * Unscaled(y) <= LONG_MAX)
  {
    var xl: int, yl: int := x.intCompact, y.intCompact;
    var productScale := CheckScale(x.scale + y.scale);
    if productScale.None? { return None; }
    if xl != INFLATED && yl != INFLATED {
      var product := LongOps.Wrap(xl * yl);
      var px := GetPrecision(x);
      var py := GetPrecision(y);
      var prec := px + py;
      PrecisionTest(xl, yl, px, py);
      LongOps.MultiplyChecks(xl, yl);
      if prec < 19 || (prec < 21 && (yl == 0 || LongOps.CDiv(product, yl) == xl)) {
        var v := ValueOf(product, productScale.value);
        return Some(v);
      }
    }
    var a := Inflate(x);
    var b := Inflate(y);
    var product := BigInts.Multiply(a, b);
    return Some(BigDecimal(Some(product), INFLATED, productScale.value, 0));
  }

  /** Fewer than 19 digits in all cannot overflow, and more than 20 must. */
  lemma PrecisionTest(x: int, y: int, px: nat, py: nat)
    requires HasDigits(Abs(x), px) && HasDigits(Abs(y), py)
    requires LONG_MIN < x <= LONG_MAX && LONG_MIN < y <= LONG_MAX
    ensures px + py < 19 ==> LONG_MIN < x * y <= LONG_MAX
    ensures px + py >= 21 ==> Abs(x * y) > LONG_MAX + 1
  {
    PowersOfTen();
    LongOps.AbsProduct(x, y);
    var a, b := Abs(x), Abs(y);
    if px + py < 19 {
      TenToSum(px, py);
      TenToMonotone(px + py, 18);
      MulMono(b, a, TenTo(px));
      MulMono(TenTo(px), b, TenTo(py));
    } else if px + py >= 21 {
      if px > 19 { TenToMonotone(19, px - 1); }
      if py > 19 { TenToMonotone(19, py - 1); }
      TenToSum(px - 1, py - 1);
      TenToMonotone(19, px - 1 + py - 1);
      MulMono(TenTo(px - 1), TenTo(py - 1), b);
      MulMono(b, TenTo(px - 1), a);
    }
  }

  lemma {:induction false} TenToSum(m: nat, n: nat)
    ensures TenTo(m + n) == TenTo(m) * TenTo(n)
  {
    if m > 0 {
      TenToSum(m - 1, n);
      assert TenTo(m + n) == 10 * (TenTo(m - 1) * TenTo(n));
    }
  }
}
