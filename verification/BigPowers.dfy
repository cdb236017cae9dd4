/** The right shift and the power of big integers (src/Numbers.cpp:260-279, 324-340). Three lines
    stand between `pow` and a power: the comparison of line 334 also holds of equal numbers
    (277-279), the shift of line 337 carries nothing from byte to byte (266-267), and line 339
    returns the last square without the product collected beside it. `Power` is the loop with the
    three repaired; `PowCode` is the loop as it stands, and `PowExact` says when it is a power. */
module BigPowers {
  import opened Bits
  import opened Digits
  import opened BigIntArithmetic
  import opened BigInts

  // ---- The right shift ----

  /** `n` with every byte divided on its own, which is what the loop of `operator>>` leaves. */
  function Bytewise(n: nat, p: nat): (r: nat)
    requires p > 0
    ensures r <= n && (p > 1 && n > 0 ==> r < n)
  {
    if n == 0 then 0
    else
      PartBelow(n % 256, p);
      (n % 256) / p + 256 * Bytewise(n / 256, p)
  }

  lemma PartBelow(d: nat, p: nat)
    requires p > 0
    ensures d / p <= d && (p > 1 && d > 0 ==> d / p < d)
  {
    var q := d / p;
    assert d == p * q + d % p;
    if q > 0 {
      MulMono(q, 1, p);
      if p > 1 { MulMono(q, 2, p); }
    }
  }

  /** Is every byte a multiple of `p`? */
  predicate Multiples(n: nat, p: nat)
    requires p > 0
  {
    n == 0 || ((n % 256) % p == 0 && Multiples(n / 256, p))
  }

  /** Dividing the bytes loses something exactly when one of them is no multiple. */
  lemma {:induction false} BytewiseLoses(n: nat, p: nat, m: nat)
    requires p > 0 && p * m == 256
    ensures p * Bytewise(n, p) <= n
    ensures p * Bytewise(n, p) == n <==> Multiples(n, p)
  {
    hide Bytewise, Multiples;
    if n == 0 {
      NothingLost(p);
    } else {
      var low, w := n % 256, n / 256;
      BytewiseLoses(w, p, m);
      BytewiseStep(n, p);
      MultiplesStep(n, p);
      ScaledParts(low / p, Bytewise(w, p), p);
      DivMod(low, p);
      Combined(n, p * Bytewise(n, p), low, w, p * (low / p), p * Bytewise(w, p));
    }
  }

  lemma NothingLost(p: nat)
    requires p > 0
    ensures p * Bytewise(0, p) == 0 && Multiples(0, p)
  {
  }

  lemma MultiplesStep(n: nat, p: nat)
    requires p > 0 && n > 0
    ensures Multiples(n, p) <==> (n % 256) % p == 0 && Multiples(n / 256, p)
  {
  }

  lemma Combined(n: nat, total: nat, low: nat, w: nat, lowPart: nat, highPart: nat)
    requires n == low + 256 * w && total == lowPart + 256 * highPart && lowPart <= low && highPart <= w
    ensures total <= n && (total == n <==> lowPart == low && highPart == w)
  {
  }

  lemma ScaledParts(a: nat, b: nat, p: nat)
    ensures p * (a + 256 * b) == p * a + 256 * (p * b)
  {
    Distribute(a, 256 * b, p);
    Associate(p, 256, b);
  }

  /** Dividing the bytes divides the number exactly when nothing crosses from one byte to the next. */
  lemma BytewiseDivides(n: nat, p: nat, m: nat)
    requires p > 0 && p * m == 256
    ensures Bytewise(n, p) <= n / p
    ensures Bytewise(n, p) == n / p <==> Multiples(n / 256, p)
  {
    hide Bytewise, Multiples;
    var w := n / 256;
    BytewiseStep(n, p);
    BytewiseLoses(w, p, m);
    SplitQuotient(n, p, m);
    Regrouped(Bytewise(w, p), p, m);
    if p * Bytewise(w, p) < w { Scaled(m, p * Bytewise(w, p), w); }
  }

  lemma BytewiseStep(n: nat, p: nat)
    requires p > 0
    ensures Bytewise(n, p) == (n % 256) / p + 256 * Bytewise(n / 256, p)
  {
  }

  lemma SplitQuotient(n: nat, p: nat, m: nat)
    requires p > 0 && p * m == 256
    ensures n / p == (n % 256) / p + m * (n / 256)
  {
    Regrouped(n / 256, p, m);
    assert p * (m * (n / 256)) == 256 * (n / 256);
    Divided(n % 256, m * (n / 256), p);
  }

  lemma Regrouped(b: nat, p: nat, m: nat)
    requires p * m == 256
    ensures m > 0 && p * (m * b) == 256 * b && m * (p * b) == 256 * b
  {
    Associate(p, m, b);
    Associate(m, p, b);
  }

  lemma Divided(low: nat, k: nat, p: nat)
    requires p > 0
    ensures (low + p * k) / p == low / p + k
  {
    var q := low / p;
    assert low == p * q + low % p;
    Distribute(q, k, p);
    UniqueQuotient(low + p * k, p, q + k, low % p);
  }

  lemma UniqueQuotient(a: nat, b: nat, q: nat, r: nat)
    requires b > 0 && a == b * q + r && r < b
    ensures a / b == q && a % b == r
  {
    var q', r' := a / b, a % b;
    assert a == b * q' + r';
    if q < q' { Scaled(b, q, q'); }
    if q' < q { Scaled(b, q', q); }
  }

  lemma {:induction false} ValueOfShifted(s: seq<Digit>, r: seq<Digit>, p: nat)
    requires p > 0 && |r| == |s| && forall k | 0 <= k < |s| :: r[k] == s[k] / p
    ensures Value(r) == Bytewise(Value(s), p)
  {
    if s != [] {
      ValueOfShifted(s[1..], r[1..], p);
      ValueHead(s, s[0], s[1..]);
      ValueHead(r, r[0], r[1..]);
      assert Value(s) % 256 == s[0] && Value(s) / 256 == Value(s[1..]);
      if Value(s) == 0 { assert s[0] / p == 0; }
    }
  }

  /** The loop of `operator>>`. */
  method ShiftDigits(s: seq<Digit>, offset: nat, p: nat) returns (r: seq<Digit>)
    requires p > 0 && offset < |s|
    ensures Trimmed(r) && Value(r) == Bytewise(Value(s[offset..]), p)
  {
    var a := new Digit[|s| - offset](_ => 0);
    var i := 0;
    while i + offset < |s|
      invariant 0 <= i <= |s| - offset
      invariant forall k | 0 <= k < i :: a[k] == s[offset..][k] / p
    {
      assert s[offset..][i] == s[i + offset];
      a[i] := s[i + offset] / p;
      i := i + 1;
    }
    ValueOfShifted(s[offset..], a[..], p);
    r := Normalize(a[..]);
  }

  /** What `operator>>` returns, on the integers: its guard compares bits with bytes, and its loop
      shifts every byte on its own. */
  ghost function ShiftOf(x: BigInt, y: nat): int {
    if y > |x.digits| then if x.sign > 0 then 0 else -1
    else
      var m := ShiftedBytes(Value(x.digits), y);
      if x.sign == 1 then m else 0 - m
  }

  function ShiftedBytes(v: nat, y: nat): nat {
    Bytewise(Part(v, Pow(y / 8)), Pow2(y % 8))
  }

  function Part(v: nat, a: nat): nat
    requires a > 0
  {
    v / a
  }

  predicate NoCrossing(v: nat, y: nat) {
    Multiples(Part(v, Pow(y / 8)) / 256, Pow2(y % 8))
  }

  method ShiftRight(x: BigInt, y: nat) returns (r: BigInt)
    requires x.Valid()
    ensures Trimmed(r.digits) && (r.sign == 1 || r.sign == -1) && r.Int() == ShiftOf(x, y)
    ensures x.sign == 1 ==> r.Valid()
    ensures y <= |x.digits| ==> r.sign == x.sign
  {
    if y > |x.digits| {
      if x.sign > 0 { r := FromLong(0); } else { r := FromLong(-1); }
      return;
    }
    SplitDigits(x.digits, y / 8);
    var digits := ShiftDigits(x.digits, y / 8, Pow2(y % 8));
    r := BigInt(x.sign, digits);
  }

  lemma SplitDigits(s: seq<Digit>, k: nat)
    requires k < |s|
    ensures Value(s[k..]) == Value(s) / Pow(k)
  {
    ValueSplit(s, k);
    ValueBound(s[..k]);
    UniqueQuotient(Value(s), Pow(k), Value(s[k..]), Value(s[..k]));
  }

  /** Does `>>` lose nothing but the fraction? Past the guard, the number must be below the power of
      two; otherwise no bit may cross from one byte to the next, and of a negative number none may be
      dropped. */
  ghost predicate Shiftable(x: BigInt, y: nat) {
    var v := Value(x.digits);
    if y > |x.digits| then v < Pow2(y) || (x.sign == -1 && v == Pow2(y))
    else NoCrossing(v, y) && (x.sign == 1 || v % Pow2(y) == 0)
  }

  /** Exactly when `x >> y` is `x` divided by two to the power `y` and rounded down. */
  lemma ShiftExact(x: BigInt, y: nat)
    requires x.Valid()
    ensures ShiftOf(x, y) == x.Int() / Pow2(y) <==> Shiftable(x, y)
  {
    hide Value, Pow2, ShiftedBytes, NoCrossing;
    var v := Value(x.digits);
    if y <= |x.digits| {
      ShiftNear(v, y);
      FloorNegative(v, Pow2(y));
    } else if x.sign == -1 {
      NegativeOne(v, Pow2(y));
    } else {
      SmallQuotient(v, Pow2(y));
    }
  }

  lemma ShiftNear(v: nat, y: nat)
    ensures ShiftedBytes(v, y) <= v / Pow2(y)
    ensures ShiftedBytes(v, y) == v / Pow2(y) <==> NoCrossing(v, y)
  {
    hide Pow, Pow2, Bytewise, Multiples, Part;
    Pow2Split(y);
    PartOfByte(y % 8);
    NearParts(v, Pow(y / 8), Pow2(y % 8), Pow2(8 - y % 8));
  }

  lemma NearParts(v: nat, a: nat, b: nat, m: nat)
    requires a > 0 && b > 0 && b * m == 256
    ensures a * b > 0 && Bytewise(Part(v, a), b) <= v / (a * b)
    ensures Bytewise(Part(v, a), b) == v / (a * b) <==> Multiples(Part(v, a) / 256, b)
  {
    hide Bytewise, Multiples;
    TwiceDivided(v, a, b);
    BytewiseDivides(v / a, b, m);
  }

  lemma FloorNegative(v: nat, p: nat)
    requires p > 0
    ensures (0 - v) / p == if v % p == 0 then 0 - v / p else -1 - v / p
  {
    var q, r := v / p, v % p;
    assert v == p * q + r;
    if r == 0 {
      FloorIs(0 - v, p, 0 - q, 0);
    } else {
      FloorIs(0 - v, p, -1 - q, p - r);
    }
  }

  lemma FloorIs(a: int, p: nat, q: int, r: nat)
    requires p > 0 && a == p * q + r && r < p
    ensures a / p == q
  {
    var q', r' := a / p, a % p;
    assert a == p * q' + r' && 0 <= r' < p;
    if q < q' { StepUp(p, q, q'); }
    if q' < q { StepUp(p, q', q); }
  }

  lemma StepUp(p: nat, a: int, b: int)
    requires a < b
    ensures p * a + p <= p * b
  {
    var d: nat := b - a;
    assert p * b == p * a + p * d;
    MulMono(p, 1, d);
  }

  lemma NegativeOne(v: nat, p: nat)
    requires p > 0 && v > 0
    ensures (0 - v) / p == -1 <==> v <= p
  {
    FloorNegative(v, p);
    var q, r := v / p, v % p;
    assert v == p * q + r;
    if v == p { UniqueQuotient(v, p, 1, 0); }
    if v < p { UniqueQuotient(v, p, 0, v); }
    assert p * 0 == 0 && p * 1 == p;
  }

  lemma Pow2Split(y: nat)
    ensures Pow2(y) == Pow(y / 8) * Pow2(y % 8)
    decreases y
  {
    if y < 8 {
      assert Pow(0) == 1;
    } else {
      Pow2Split(y - 8);
      PartOfByte(0);
      Pow2Sum(8, y - 8);
      assert Pow(y / 8) == 256 * Pow((y - 8) / 8);
      hide Pow, Pow2;
      Associate(256, Pow((y - 8) / 8), Pow2(y % 8));
    }
  }

  lemma {:induction false} Pow2Sum(m: nat, n: nat)
    ensures Pow2(m + n) == Pow2(m) * Pow2(n)
  {
    if m > 0 {
      Pow2Sum(m - 1, n);
      assert Pow2(m + n) == 2 * (Pow2(m - 1) * Pow2(n));
    }
  }

  lemma PartOfByte(i: nat)
    requires i < 8
    ensures Pow2(i) * Pow2(8 - i) == 256 && Pow2(8) == 256
  {
    assert Pow2(4) == 16 && Pow2(8) == 16 * 16;
    Pow2Sum(i, 8 - i);
  }

  lemma DivMod(a: nat, b: nat)
    requires b > 0
    ensures a == b * (a / b) + a % b && a % b < b
  {
  }

  lemma TwiceDivided(v: nat, a: nat, b: nat)
    requires a > 0 && b > 0
    ensures a * b > 0 && v / (a * b) == v / a / b
  {
    var w := v / a;
    var q, r := w / b, w % b;
    DivMod(v, a);
    DivMod(w, b);
    Distribute(b * q, r, a);
    Associate(a, b, q);
    Scaled(a, r, b);
    UniqueQuotient(v, a * b, q, a * r + v % a);
  }

  /** The shift of `pow` with the carry put in: a half, whatever the bytes. */
  method HalveDigits(s: seq<Digit>) returns (r: seq<Digit>)
    requires |s| > 0
    ensures Trimmed(r) && Value(r) == Value(s) / 2
  {
    var a := new Digit[|s|](_ => 0);
    var i := |s|;
    var carry: Digit := 0;
    assert a[i..] == [] && s[i..] == [];
    while i > 0
      invariant 0 <= i <= |s|
      invariant Value(a[i..]) == Value(s[i..]) / 2 && carry == Value(s[i..]) % 2
    {
      ghost var above := a[i..];
      i := i - 1;
      a[i] := (s[i] + 256 * carry) / 2;
      assert a[i + 1..] == above;
      ValueHead(a[i..], a[i], a[i + 1..]);
      ValueHead(s[i..], s[i], s[i + 1..]);
      carry := s[i] % 2;
    }
    assert a[i..] == a[..] && s[i..] == s;
    r := Normalize(a[..]);
  }

  // ---- The power ----

  function IntPow(b: int, n: nat): int {
    if n == 0 then 1 else b * IntPow(b, n - 1)
  }

  lemma {:induction false} IntPowSum(b: int, m: nat, n: nat)
    ensures IntPow(b, m + n) == IntPow(b, m) * IntPow(b, n)
  {
    if m > 0 {
      IntPowSum(b, m - 1, n);
      Associate(b, IntPow(b, m - 1), IntPow(b, n));
    }
  }

  lemma Associate(a: int, b: int, c: int)
    ensures a * (b * c) == (a * b) * c
  {
  }

  lemma {:induction false} IntPowSquare(b: int, n: nat)
    ensures IntPow(b * b, n) == IntPow(b, 2 * n)
  {
    if n > 0 {
      IntPowSquare(b, n - 1);
      Associate(b, b, IntPow(b, 2 * (n - 1)));
      assert IntPow(b, 2 * n) == b * IntPow(b, 2 * n - 1);
    }
  }

  lemma OneDigit(x: BigInt)
    requires x.Valid()
    ensures x.digits == [1] <==> Abs(x.Int()) == 1
    ensures x.digits[0] % 2 == x.Int() % 2
  {
    assert Value([1]) == 1;
    hide Value;
    if Value(x.digits) == 1 { TrimmedUnique(x.digits, [1]); }
    LowBit(x.digits);
  }

  lemma LowBit(s: seq<Digit>)
    requires s != []
    ensures s[0] % 2 == Value(s) % 2 == (0 - Value(s)) % 2
  {
  }

  lemma UnitPower(b: int, n: nat)
    requires Abs(b) == 1
    ensures IntPow(b, n) == if n % 2 == 1 then b else 1
  {
    if n >= 2 {
      UnitPower(b, n - 2);
      Associate(b, b, IntPow(b, n - 2));
      assert IntPow(b, n) == b * IntPow(b, n - 1);
      assert b * b == 1;
    } else if n == 1 {
      assert IntPow(b, 0) == 1;
    }
  }

  method StrictlyLess(x: BigInt, y: BigInt) returns (b: bool)
    requires x.Valid() && y.Valid()
    ensures b <==> x.Int() < y.Int()
  {
    var d := Minus(y, x);
    ZeroValue(d);
    b := d.sign > 0 && !IsZero(d);
  }

  lemma SquareStep(u: int, z: int, e: nat, u': int)
    requires u' == if e % 2 == 1 then u * z else u
    ensures u' * IntPow(z * z, e / 2) == u * IntPow(z, e)
  {
    IntPowSquare(z, e / 2);
    if e % 2 == 1 {
      assert e == 2 * (e / 2) + 1;
      Associate(u, z, IntPow(z, 2 * (e / 2)));
    }
  }

  /** `pow` with its three lines repaired: the power by repeated squaring. Zero to the power zero
      is zero, and for a negative exponent the base comes back, or its sign by the parity. */
  method Power(x: BigInt, y: BigInt) returns (r: BigInt)
    requires x.Valid() && y.Valid()
    ensures r.Valid()
    ensures y.Int() >= 0 ==> r.Int() == if x.Int() == 0 then 0 else IntPow(x.Int(), y.Int())
    ensures y.Int() < 0 ==> r.Int() == if Abs(x.Int()) == 1 && y.Int() % 2 == 0 then 1 else x.Int()
  {
    hide Value, IntPow;
    ZeroValue(x);
    ZeroValue(y);
    OneDigit(x);
    OneDigit(y);
    var one := FromLong(1);
    IntPowEnds(x.Int());
    if IsZero(x) { return x; }
    if IsZero(y) { return one; }
    if x.digits == [1] {
      if y.sign == 1 { UnitPower(x.Int(), y.Int()); }
      r := FromLong(if y.digits[0] % 2 == 1 then x.sign else 1);
      return;
    }
    var z, u, e := x, one, y;
    var more := StrictlyLess(one, e);
    while more
      invariant z.Valid() && u.Valid() && e.Valid() && e.sign == y.sign
      invariant more <==> 1 < e.Int()
      invariant y.sign == -1 ==> z == x && u.Int() == 1
      invariant y.sign == 1 ==> e.Int() >= 1 && u.Int() * IntPow(z.Int(), e.Int()) == IntPow(x.Int(), y.Int())
      decreases e.Int()
    {
      OneDigit(e);
      ghost var before := u.Int();
      if e.digits[0] % 2 == 1 { u := Multiply(u, z); }
      SquareStep(before, z.Int(), e.Int(), u.Int());
      z := Multiply(z, z);
      var half := HalveDigits(e.digits);
      e := Signed(1, half);
      more := StrictlyLess(one, e);
    }
    IntPowEnds(z.Int());
    r := Multiply(u, z);
  }

  lemma IntPowEnds(b: int)
    ensures IntPow(b, 0) == 1 && IntPow(b, 1) == b
  {
    assert IntPow(b, 0) == 1;
  }

  /** The loop of `pow` as it stands: the last square and the product collected beside it. */
  function Loop(z: int, u: int, e: nat): (int, int)
    decreases e
  {
    if e == 0 then (z, u)
    else Loop(z * z, if e % 2 == 1 then u * z else u, Bytewise(e, 2))
  }

  /** What `pow` returns as it stands, for `product` with line 339 alone repaired. */
  function PowOf(b: int, n: int, product: bool): int {
    if b == 0 then 0
    else if n == 0 then 1
    else if Abs(b) == 1 then if n % 2 == 1 then b else 1
    else if n < 0 then b
    else
      var (z, u) := Loop(b, 1, n);
      if product then u * z else z
  }

  method PowCode(x: BigInt, y: BigInt, product: bool) returns (r: BigInt)
    requires x.Valid() && y.Valid()
    ensures r.Valid() && r.Int() == PowOf(x.Int(), y.Int(), product)
  {
    hide Value;
    ZeroValue(x);
    ZeroValue(y);
    OneDigit(x);
    OneDigit(y);
    var one := FromLong(1);
    if IsZero(x) { return x; }
    if IsZero(y) { return one; }
    if x.digits == [1] {
      r := FromLong(if y.digits[0] % 2 == 1 then x.sign else 1);
      return;
    }
    var z, u, e := x, one, y;
    var more := Less(one, e);
    while more
      invariant z.Valid() && u.Valid() && e.Valid() && e.sign == y.sign
      invariant more <==> 1 <= e.Int()
      invariant y.sign == -1 ==> z == x && u.Int() == 1
      invariant y.sign == 1 ==> Loop(z.Int(), u.Int(), e.Int()) == Loop(x.Int(), 1, y.Int())
      decreases e.Int()
    {
      OneDigit(e);
      if e.digits[0] % 2 == 1 { u := Multiply(u, z); }
      z := Multiply(z, z);
      e := ShiftOne(e);
      more := Less(one, e);
    }
    if product { r := Multiply(u, z); } else { r := z; }
  }

  method ShiftOne(e: BigInt) returns (r: BigInt)
    requires e.Valid() && e.sign == 1
    ensures r.Valid() && r.sign == 1 && r.Int() == Bytewise(e.Int(), 2)
  {
    hide Value, Bytewise, ShiftOf;
    ShiftOfOne(e);
    r := ShiftRight(e, 1);
  }

  lemma ShiftOfOne(e: BigInt)
    requires e.Valid() && e.sign == 1
    ensures ShiftOf(e, 1) == Bytewise(e.Int(), 2)
  {
    hide Value, Bytewise;
    assert Pow(0) == 1 && Pow2(1) == 2 by { assert Pow2(0) == 1; }
    assert Value(e.digits) / 1 == Value(e.digits);
  }

  /** The number of rounds of the loop. */
  function Rounds(e: nat): nat
    decreases e
  {
    if e == 0 then 0 else 1 + Rounds(Bytewise(e, 2))
  }

  /** The loop squares once a round, and collects the powers for the bits of the lowest byte only. */
  lemma {:induction false} LoopPowers(b: int, s: nat, t: nat, e: nat)
    ensures Loop(IntPow(b, s), IntPow(b, t), e) ==
              (IntPow(b, s * Pow2(Rounds(e))), IntPow(b, t + s * (e % 256)))
    decreases e
  {
    hide IntPow, Pow2, Rounds, Bytewise;
    RoundStep(s, e);
    if e == 0 {
      assert s * (e % 256) == 0;
    } else {
      var h := Bytewise(e, 2);
      IntPowSum(b, s, s);
      IntPowSum(b, t, s);
      LoopPowers(b, 2 * s, if e % 2 == 1 then t + s else t, h);
      LowByte(s, e % 256);
      assert e % 256 % 2 == e % 2;
    }
  }

  lemma RoundStep(s: nat, e: nat)
    ensures e == 0 ==> s * Pow2(Rounds(e)) == s
    ensures e > 0 ==> (2 * s) * Pow2(Rounds(Bytewise(e, 2))) == s * Pow2(Rounds(e))
    ensures e > 0 ==> Bytewise(e, 2) % 256 == (e % 256) / 2
  {
    hide Bytewise, Pow2;
    OneRound(e);
    hide Rounds;
    if e > 0 {
      DoublePow(Rounds(Bytewise(e, 2)));
      Doubled(s, Pow2(Rounds(Bytewise(e, 2))));
      BytewiseLow(e);
    }
  }

  lemma Doubled(s: nat, p: nat)
    ensures (2 * s) * p == s * (2 * p)
  {
  }

  lemma BytewiseLow(e: nat)
    ensures Bytewise(e, 2) % 256 == (e % 256) / 2
  {
    hide Bytewise;
    BytewiseStep(e, 2);
    LowHalf(e % 256, Bytewise(e / 256, 2));
  }

  lemma OneRound(e: nat)
    ensures Rounds(0) == 0 && Pow2(0) == 1
    ensures e > 0 ==> Rounds(e) == 1 + Rounds(Bytewise(e, 2))
  {
    hide Bytewise;
  }

  lemma DoublePow(n: nat)
    ensures Pow2(1 + n) == 2 * Pow2(n)
  {
  }

  lemma LowHalf(d: nat, w: nat)
    requires d < 256
    ensures (d / 2 + 256 * w) % 256 == d / 2
  {
  }

  lemma LowByte(s: nat, d: nat)
    ensures (if d % 2 == 1 then s else 0) + (2 * s) * (d / 2) == s * d
  {
    assert d == 2 * (d / 2) + d % 2;
    Distribute(2 * (d / 2), d % 2, s);
    assert s * (2 * (d / 2)) == (2 * s) * (d / 2);
  }

  predicate BytesBelow(n: nat, b: nat) {
    n == 0 || (n % 256 < b && BytesBelow(n / 256, b))
  }

  lemma {:induction false} BytesHalved(n: nat, b: nat)
    requires b > 0
    ensures BytesBelow(Bytewise(n, 2), b) <==> BytesBelow(n, 2 * b)
  {
    if n != 0 {
      BytesHalved(n / 256, b);
      var h := Bytewise(n, 2);
      assert h % 256 == (n % 256) / 2 && h / 256 == Bytewise(n / 256, 2);
      if h == 0 { assert Bytewise(n / 256, 2) == 0; }
    }
  }

  /** The rounds are the bits of the widest byte. */
  lemma {:induction false} RoundsAre(e: nat, k: nat)
    ensures Rounds(e) <= k <==> BytesBelow(e, Pow2(k))
    decreases k
  {
    if k == 0 {
      NoBytes(e);
    } else if e != 0 {
      RoundsAre(Bytewise(e, 2), k - 1);
      BytesHalved(e, Pow2(k - 1));
    }
  }

  lemma {:induction false} NoBytes(e: nat)
    ensures BytesBelow(e, 1) <==> e == 0
  {
    if e != 0 { NoBytes(e / 256); }
  }

  lemma {:induction false} AllBytes(e: nat)
    ensures BytesBelow(e, 256)
  {
    if e != 0 { AllBytes(e / 256); }
  }

  /** The exponent the loop comes to is never the one asked for, and with the product put back it is
      the one asked for exactly between 384 and 511. */
  lemma ExponentReached(n: nat)
    requires n > 0
    ensures Pow2(Rounds(n)) != n
    ensures Pow2(Rounds(n)) + n % 256 == n <==> 384 <= n < 512
  {
    var k := Rounds(n);
    hide Rounds, Pow2, BytesBelow;
    SomePowers();
    RoundsAre(n, k);
    RoundsAre(n, 7);
    RoundsAre(n, 8);
    AllBytes(n);
    BytesOf(n, Pow2(k));
    BytesOf(n, 128);
    if k <= 7 { Pow2Monotone(k, 7); }
    if n == 256 {
      BytesOf(256, 2);
      RoundsAre(256, 1);
      Pow2Monotone(k, 1);
    }
  }

  lemma SomePowers()
    ensures Pow2(1) == 2 && Pow2(7) == 128 && Pow2(8) == 256
  {
    PartOfByte(0);
    assert Pow2(8) == 2 * Pow2(7) && Pow2(1) == 2 * Pow2(0);
  }

  lemma BytesOf(n: nat, b: nat)
    ensures n > 0 && BytesBelow(n, b) ==> n % 256 < b
    ensures 256 <= n < 512 ==> (BytesBelow(n, b) <==> n % 256 < b && 1 < b)
  {
    if 256 <= n < 512 {
      assert n / 256 == 1 && 1 % 256 == 1 && 1 / 256 == 0;
      assert BytesBelow(1, b) <==> 1 < b && BytesBelow(0, b);
    }
  }

  lemma {:induction false} PowGrows(b: int, m: nat, n: nat)
    requires Abs(b) >= 2 && m < n
    ensures 0 < Abs(IntPow(b, m)) < Abs(IntPow(b, n))
    decreases n
  {
    if n > 1 && m < n - 1 { PowGrows(b, m, n - 1); } else { PowPositive(b, m); }
    AbsTimes(b, IntPow(b, n - 1));
    var p := Abs(IntPow(b, n - 1));
    MulMono(p, 2, Abs(b));
  }

  lemma {:induction false} PowPositive(b: int, n: nat)
    requires b != 0
    ensures IntPow(b, n) != 0
  {
    if n > 0 {
      PowPositive(b, n - 1);
      AbsTimes(b, IntPow(b, n - 1));
      MulMono(Abs(b), 1, Abs(IntPow(b, n - 1)));
    }
  }

  lemma AbsTimes(a: int, b: int)
    ensures Abs(a * b) == Abs(b) * Abs(a)
  {
    SignedProduct(Abs(a), Abs(b));
  }

  lemma PowInjective(b: int, m: nat, n: nat)
    requires Abs(b) >= 2
    ensures IntPow(b, m) == IntPow(b, n) <==> m == n
  {
    if m < n { PowGrows(b, m, n); }
    if n < m { PowGrows(b, n, m); }
  }

  /** Exactly when `pow` returns the power. As it stands that is for no base of two or more and no
      exponent of one or more; with line 339 repaired, for the exponents from 384 to 511. */
  lemma PowExact(b: int, n: nat, product: bool)
    ensures PowOf(b, n, product) == IntPow(b, n) <==>
              (b == 0 && n > 0) || Abs(b) == 1 || (Abs(b) >= 2 && (n == 0 || (product && 384 <= n < 512)))
  {
    hide Rounds, Loop, Bytewise;
    IntPowEnds(b);
    if b == 0 {
      assert n > 0 ==> IntPow(b, n) == 0;
    } else if Abs(b) == 1 {
      UnitPower(b, n);
    } else if n > 0 {
      var k := Pow2(Rounds(n));
      LoopPowers(b, 1, 0, n);
      ExponentReached(n);
      IntPowSum(b, n % 256, k);
      PowInjective(b, k, n);
      PowInjective(b, n % 256 + k, n);
      assert 1 * k == k && 0 + 1 * (n % 256) == n % 256;
    }
  }

  /** Ten to the power 19 comes out as ten to the power 32, or 51 with line 339 repaired. */
  lemma NineteenTens()
    ensures PowOf(10, 19, false) == IntPow(10, 32) != IntPow(10, 19)
    ensures PowOf(10, 19, true) == IntPow(10, 51) != IntPow(10, 19)
  {
    assert Bytewise(19, 2) == 9 && Bytewise(9, 2) == 4 && Bytewise(4, 2) == 2 && Bytewise(2, 2) == 1 &&
      Bytewise(1, 2) == 0;
    assert Rounds(0) == 0;
    assert Rounds(1) == 1;
    assert Rounds(2) == 2;
    assert Rounds(4) == 3;
    assert Rounds(9) == 4;
    assert Rounds(19) == 5;
    assert Pow2(4) == 16;
    assert Pow2(5) == 32;
    hide Rounds, Loop, Bytewise, Pow2, IntPow;
    IntPowEnds(10);
    LoopPowers(10, 1, 0, 19);
    IntPowSum(10, 19, 32);
    PowInjective(10, 32, 19);
    PowInjective(10, 51, 19);
  }
}
