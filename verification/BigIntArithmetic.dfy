/** Addition, subtraction, multiplication and comparison of digit strings
    (src/Numbers.cpp:183-233, 388-445, 547-558). */
module BigIntArithmetic {
  import opened Digits
  import opened BigIntDivision

  /** A digit string as `normalize` leaves it: `ndigits` digits, none of them a leading zero. */
  predicate Trimmed(s: seq<Digit>) {
    |s| > 0 && (|s| > 1 ==> s[|s| - 1] != 0)
  }

  method Normalize(z: seq<Digit>) returns (r: seq<Digit>)
    requires |z| > 0
    ensures Trimmed(r) && Value(r) == Value(z)
  {
    var n := Length(z);
    r := z[..n];
  }

  /** A trimmed string is at least as large as the power of its top digit. */
  lemma TrimmedLarge(s: seq<Digit>)
    requires Trimmed(s)
    ensures |s| > 1 ==> Pow(|s| - 1) <= Value(s)
  {
    if |s| > 1 { DivisorLead(s); }
  }

  /** Trimmed strings are unique representations. */
  lemma TrimmedUnique(s: seq<Digit>, t: seq<Digit>)
    requires Trimmed(s) && Trimmed(t) && Value(s) == Value(t)
    ensures s == t
  {
    LongerIsLarger(s, t);
    LongerIsLarger(t, s);
    ValueInjective(s, t);
  }

  lemma LongerIsLarger(s: seq<Digit>, t: seq<Digit>)
    requires |s| > 0 && Trimmed(t)
    ensures |s| < |t| ==> Value(s) < Value(t)
  {
    if |s| < |t| {
      TrimmedLarge(t);
      ValueBound(s);
      PowMonotone(|s|, |t| - 1);
    }
  }

  /** The number of digits of a number, at least one. */
  function Width(n: nat): (w: nat)
    ensures w > 0
  {
    if n < 256 then 1 else 1 + Width(n / 256)
  }

  lemma {:induction false} WidthIs(n: nat)
    ensures n < Pow(Width(n)) && (Width(n) > 1 ==> Pow(Width(n) - 1) <= n)
  {
    assert Pow(1) == 256 by { assert Pow(0) == 1; }
    assert Pow(0) == 1;
    if n >= 256 {
      WidthIs(n / 256);
      PowNext(Width(n / 256));
      PowNext(Width(n / 256) - 1);
    }
  }

  /** A number has at most `k` digits just when it is below the power of `k`. */
  lemma WidthAtMost(n: nat, k: nat)
    requires k > 0
    ensures Width(n) <= k <==> n < Pow(k)
  {
    WidthIs(n);
    if Width(n) <= k { PowMonotone(Width(n), k); } else { PowMonotone(k, Width(n) - 1); }
  }

  lemma WidthSteps(n: nat)
    ensures Width(n) == if n < 256 then 1 else 1 + Width(n / 256)
  {
  }

  lemma TrimmedWidth(s: seq<Digit>)
    requires Trimmed(s)
    ensures Width(Value(s)) == |s|
  {
    hide Value;
    ValueBound(s);
    TrimmedLarge(s);
    WidthAtMost(Value(s), |s|);
    if |s| > 1 { WidthAtMost(Value(s), |s| - 1); }
  }

  // ---- Addition ----

  /** One digit of a sum: the digit written and the carry passed on. */
  lemma CarryStep(z: nat, p: nat, carry: nat, total: nat, add: nat, c: nat)
    requires z + p * carry == total && c == carry + add
    ensures z + p * (c % 256) + (256 * p) * (c / 256) == total + p * add
  {
    Distribute(carry, add, p);
    Distribute(256 * (c / 256), c % 256, p);
    assert p * (256 * (c / 256)) == (256 * p) * (c / 256);
  }

  method AddLoop(z: array<Digit>, n: nat, x: seq<Digit>, y: seq<Digit>) returns (carry: Digit)
    requires n <= |x| && n <= |y| && n <= z.Length
    modifies z
    ensures Value(z[..n]) + Pow(n) * carry == Value(x[..n]) + Value(y[..n])
    ensures carry <= 1 && z[n..] == old(z[n..])
  {
    carry := 0;
    var i := 0;
    while i < n
      invariant 0 <= i <= n && carry <= 1
      invariant Value(z[..i]) + Pow(i) * carry == Value(x[..i]) + Value(y[..i])
      invariant z[n..] == old(z[n..])
    {
      var add := x[i] as nat + y[i] as nat;
      var c: nat := carry + add;
      ghost var before := z[..i];
      ghost var vx, vy, p := Value(x[..i]), Value(y[..i]), Pow(i);
      z[i] := c % 256;
      assert z[..i + 1] == before + [c % 256];
      assert x[..i + 1] == x[..i] + [x[i]] && y[..i + 1] == y[..i] + [y[i]];
      ValueAppend(before, c % 256);
      ValueAppend(x[..i], x[i]);
      ValueAppend(y[..i], y[i]);
      CarryStep(Value(before), p, carry, vx + vy, add, c);
      Distribute(x[i], y[i], p);
      carry := c / 256;
      i := i + 1;
    }
  }

  method AddTail(z: array<Digit>, n: nat, x: seq<Digit>, carry0: Digit) returns (carry: Digit)
    requires n <= |x| <= z.Length && carry0 <= 1
    modifies z
    ensures Value(z[..|x|]) + Pow(|x|) * carry == Value(old(z[..n]) + x[n..]) + Pow(n) * carry0
    ensures carry <= 1 && z[|x|..] == old(z[|x|..])
  {
    carry := carry0;
    ghost var t := z[..n] + x[n..];
    var i := n;
    assert t[..n] == z[..n];
    while i < |x|
      invariant n <= i <= |x| && carry <= 1
      invariant Value(z[..i]) + Pow(i) * carry == Value(t[..i]) + Pow(n) * carry0
      invariant z[|x|..] == old(z[|x|..])
    {
      var c: nat := carry + x[i];
      ghost var before := z[..i];
      z[i] := c % 256;
      assert z[..i + 1] == before + [c % 256] && t[..i + 1] == t[..i] + [x[i]];
      ValueAppend(before, c % 256);
      ValueAppend(t[..i], x[i]);
      CarryStep(Value(before), Pow(i), carry, Value(t[..i]) + Pow(n) * carry0, x[i], c);
      carry := c / 256;
      i := i + 1;
    }
    assert t[..|x|] == t;
  }

  /** `add`: the magnitudes added, with room for one carry digit. */
  method Add(x: seq<Digit>, y: seq<Digit>) returns (z: seq<Digit>)
    requires |x| > 0 && |y| > 0
    ensures Trimmed(z) && Value(z) == Value(x) + Value(y)
    decreases |y|
  {
    if |x| < |y| {
      z := Add(y, x);
      return;
    }
    var n := |y|;
    var a := new Digit[|x| + 1](_ => 0);
    var carry := AddLoop(a, n, x, y);
    ghost var low, c0 := a[..n], carry;
    carry := AddTail(a, n, x, carry);
    a[|x|] := carry;
    assert a[..] == a[..|x|] + [carry];
    SumSplit(x, y, low, c0, a[..|x|], carry);
    z := Normalize(a[..]);
  }

  lemma SumSplit(x: seq<Digit>, y: seq<Digit>, low: seq<Digit>, c0: nat, a: seq<Digit>, carry: Digit)
    requires |low| == |y| <= |x| == |a|
    requires Value(low) + Pow(|y|) * c0 == Value(x[..|y|]) + Value(y[..|y|])
    requires Value(a) + Pow(|x|) * carry == Value(low + x[|y|..]) + Pow(|y|) * c0
    ensures Value(a + [carry]) == Value(x) + Value(y)
  {
    hide Value, Pow;
    ValueAppend(a, carry);
    ValueConcat(low, x[|y|..]);
    ValueSplit(x, |y|);
    assert y[..|y|] == y;
  }

  // ---- Subtraction ----

  method SubLoop(z: array<Digit>, n: nat, x: seq<Digit>, y: seq<Digit>) returns (borrow: nat)
    requires n <= |x| && n <= |y| && n <= z.Length
    modifies z
    ensures borrow <= 1 && z[n..] == old(z[n..])
    ensures Value(z[..n]) + Value(y[..n]) == Value(x[..n]) + borrow * Pow(n)
  {
    borrow := 0;
    var i := 0;
    while i < n
      invariant 0 <= i <= n && borrow <= 1
      invariant Value(z[..i]) + Value(y[..i]) == Value(x[..i]) + borrow * Pow(i)
      invariant z[n..] == old(z[n..])
    {
      var d: nat := x[i] + 256 - borrow - y[i];
      ghost var before := z[..i];
      z[i] := d % 256;
      assert z[..i + 1] == before + [d % 256];
      assert x[..i + 1] == x[..i] + [x[i]] && y[..i + 1] == y[..i] + [y[i]];
      ValueAppend(before, d % 256);
      ValueAppend(x[..i], x[i]);
      ValueAppend(y[..i], y[i]);
      BorrowStep(Value(before), Value(y[..i]), Value(x[..i]), borrow, Pow(i), d, x[i], y[i]);
      borrow := 1 - d / 256;
      i := i + 1;
    }
  }

  method SubTail(z: array<Digit>, n: nat, x: seq<Digit>, borrow0: nat) returns (borrow: nat)
    requires n <= |x| == z.Length && borrow0 <= 1
    modifies z
    ensures borrow <= 1
    ensures Value(z[..]) + borrow0 * Pow(n) == Value(old(z[..n]) + x[n..]) + borrow * Pow(|x|)
  {
    borrow := borrow0;
    ghost var t := z[..n] + x[n..];
    var i := n;
    assert t[..n] == z[..n];
    while i < |x|
      invariant n <= i <= |x| && borrow <= 1
      invariant Value(z[..i]) + borrow0 * Pow(n) == Value(t[..i]) + borrow * Pow(i)
    {
      var d: nat := x[i] + 256 - borrow;
      ghost var before := z[..i];
      z[i] := d % 256;
      assert z[..i + 1] == before + [d % 256] && t[..i + 1] == t[..i] + [x[i]];
      ValueAppend(before, d % 256);
      ValueAppend(t[..i], x[i]);
      BorrowStep(Value(before), borrow0 * Pow(n), Value(t[..i]), borrow, Pow(i), d, x[i], 0);
      borrow := 1 - d / 256;
      i := i + 1;
    }
    assert t[..|x|] == t && z[..] == z[..|x|];
  }

  /** `sub`: the smaller magnitude taken from the larger; the final borrow is zero. */
  method Sub(x: seq<Digit>, y: seq<Digit>) returns (z: seq<Digit>)
    requires 0 < |y| <= |x| && Value(y) <= Value(x)
    ensures Trimmed(z) && Value(z) == Value(x) - Value(y)
  {
    var n := |y|;
    var a := new Digit[|x|](_ => 0);
    var borrow := SubLoop(a, n, x, y);
    ghost var low, b0 := a[..n], borrow;
    borrow := SubTail(a, n, x, borrow);
    DifferenceSplit(x, y, low, b0, a[..], borrow);
    assert borrow == 0;
    z := Normalize(a[..]);
  }

  lemma DifferenceSplit(x: seq<Digit>, y: seq<Digit>, low: seq<Digit>, b0: nat, a: seq<Digit>, borrow: nat)
    requires |low| == |y| <= |x| == |a| && Value(y) <= Value(x) && borrow <= 1
    requires Value(low) + Value(y[..|y|]) == Value(x[..|y|]) + b0 * Pow(|y|)
    requires Value(a) + b0 * Pow(|y|) == Value(low + x[|y|..]) + borrow * Pow(|x|)
    ensures borrow == 0 && Value(a) + Value(y) == Value(x)
  {
    hide Value, Pow;
    ValueConcat(low, x[|y|..]);
    ValueSplit(x, |y|);
    assert y[..|y|] == y;
    NoBorrow(a, Value(y), Value(x), borrow);
  }

  // ---- Multiplication ----

  /** The invariant of a row: the digits `z` written and the carry make up the old digits `w` plus
      `d` times the digits `y` taken so far. */
  ghost predicate Row(z: seq<Digit>, carry: nat, w: seq<Digit>, d: Digit, y: seq<Digit>) {
    |z| == |w| && Value(z) + Pow(|w|) * carry == Value(w) + d * Value(y)
  }

  /** One row of the schoolbook product, added into the window that starts at `i`. */
  method MulRow(z: array<Digit>, i: nat, d: Digit, y: seq<Digit>)
    requires i + |y| <= z.Length
    requires Value(z[i..]) + Times(d, Value(y)) < Pow(z.Length - i)
    modifies z
    ensures z[..i] == old(z[..i])
    ensures Value(z[i..]) == Value(old(z[i..])) + Times(d, Value(y))
  {
    hide Row, Value, Pow, Times;
    var carry: Digit := 0;
    ghost var w := z[i..];
    NoDigits(z[i..i], w[..0], y[..0], d);
    var j := 0;
    while j < |y|
      invariant 0 <= j <= |y|
      invariant z[..i] == old(z[..i]) && z[i + j..] == w[j..]
      invariant Row(z[i..i + j], carry, w[..j], d, y[..j])
    {
      DigitProduct(d, y[j]);
      var c: nat := carry + (d * y[j] + z[i + j]);
      ghost var before := z[i..i + j];
      assert z[i + j] == w[j] by { assert z[i + j] == z[i + j..][0]; }
      z[i + j] := c % 256;
      assert z[i..i + j + 1] == before + [c % 256];
      assert w[..j + 1] == w[..j] + [w[j]] && y[..j + 1] == y[..j] + [y[j]];
      RowStep(before, c, carry, w[..j], w[j], y[..j], y[j], d);
      carry := c / 256;
      j := j + 1;
    }
    assert y[..j] == y;
    MulRowCarry(z, i, j, carry, d, y, w);
    RowDone(z[i..], w, d, y);
  }

  /** The rest of a row, where only the carry travels on; it runs out before the window ends. */
  method MulRowCarry(z: array<Digit>, i: nat, n: nat, carry0: Digit, ghost d: Digit, ghost y: seq<Digit>,
                     ghost w: seq<Digit>)
    requires i + n <= z.Length && |w| == z.Length - i && z[i + n..] == w[n..]
    requires Row(z[i..i + n], carry0, w[..n], d, y)
    modifies z
    ensures z[..i] == old(z[..i]) && exists carry: nat :: Row(z[i..], carry, w, d, y)
  {
    hide Row;
    var carry: Digit := carry0;
    var j := n;
    while j < z.Length - i
      invariant n <= j <= z.Length - i
      invariant z[..i] == old(z[..i]) && z[i + j..] == w[j..]
      invariant Row(z[i..i + j], carry, w[..j], d, y)
    {
      var c: nat := carry + z[i + j];
      ghost var before := z[i..i + j];
      assert z[i + j] == w[j] by { assert z[i + j] == z[i + j..][0]; }
      z[i + j] := c % 256;
      assert z[i..i + j + 1] == before + [c % 256];
      assert w[..j + 1] == w[..j] + [w[j]] && w[j + 1..] == w[j..][1..];
      RowCarryStep(before, c, carry, w[..j], w[j], y, d);
      carry := c / 256;
      j := j + 1;
    }
    assert w[..j] == w && z[i..i + j] == z[i..];
    assert Row(z[i..], carry, w, d, y);
  }

  lemma NoDigits(z: seq<Digit>, w: seq<Digit>, y: seq<Digit>, d: Digit)
    requires z == [] && w == [] && y == []
    ensures Row(z, 0, w, d, y)
  {
  }

  lemma DigitProduct(a: Digit, b: Digit)
    ensures 0 <= a * b <= 255 * 255
  {
    MulMono(a, b, 255);
    MulMono(255, a, 255);
  }

  lemma RowStep(z: seq<Digit>, c: nat, carry: nat, w: seq<Digit>, wj: Digit, y: seq<Digit>, yj: Digit, d: Digit)
    requires |w| == |y| && Row(z, carry, w, d, y) && c == carry + (d * yj + wj)
    ensures Row(z + [c % 256], c / 256, w + [wj], d, y + [yj])
  {
    hide Value, Pow;
    ValueAppend(z, c % 256);
    ValueAppend(w, wj);
    ValueAppend(y, yj);
    RowDigit(Value(z), Pow(|w|), carry, Value(w), wj, Value(y), yj, d, c);
    PowNext(|w|);
  }

  lemma RowCarryStep(z: seq<Digit>, c: nat, carry: nat, w: seq<Digit>, wj: Digit, y: seq<Digit>, d: Digit)
    requires Row(z, carry, w, d, y) && c == carry + wj
    ensures Row(z + [c % 256], c / 256, w + [wj], d, y)
  {
    hide Value, Pow;
    ValueAppend(z, c % 256);
    ValueAppend(w, wj);
    CarryStep(Value(z), Pow(|w|), carry, Value(w) + d * Value(y), wj, c);
    PowNext(|w|);
  }

  lemma PowNext(n: nat)
    ensures Pow(n + 1) == 256 * Pow(n)
  {
  }

  lemma RowDigit(z: nat, p: nat, carry: nat, w: nat, wj: nat, y: nat, yj: nat, d: nat, c: nat)
    requires z + p * carry == w + d * y && c == carry + (d * yj + wj)
    ensures z + p * (c % 256) + (256 * p) * (c / 256) == w + p * wj + d * (y + p * yj)
  {
    CarryStep(z, p, carry, w + d * y, d * yj + wj, c);
    RowTerms(p, d, yj, wj, y);
  }

  lemma RowTerms(p: nat, d: nat, yj: nat, wj: nat, y: nat)
    ensures p * (d * yj + wj) + d * y == p * wj + d * (y + p * yj)
  {
    Distribute(d * yj, wj, p);
    Distribute(y, p * yj, d);
    MulSwap(p, d, yj);
  }

  lemma RowDone(z: seq<Digit>, w: seq<Digit>, d: Digit, y: seq<Digit>)
    requires exists carry: nat :: Row(z, carry, w, d, y)
    requires Value(w) + Times(d, Value(y)) < Pow(|z|)
    ensures Value(z) == Value(w) + Times(d, Value(y))
  {
    hide Value, Pow, Times;
    var carry: nat :| Row(z, carry, w, d, y);
    TimesIs(d, Value(y));
    if carry > 0 { MulMono(Pow(|z|), 1, carry); }
  }

  /** `operator*`: the schoolbook product. */
  method Mul(x: seq<Digit>, y: seq<Digit>) returns (z: seq<Digit>)
    requires |x| > 0 && |y| > 0
    ensures Trimmed(z) && Value(z) == Value(x) * Value(y)
  {
    var a := new Digit[|x| + |y|](_ => 0);
    var i := 0;
    ValueOfZeros(a[..]);
    while i < |x|
      invariant 0 <= i <= |x|
      invariant Value(a[..]) == Value(x[..i]) * Value(y)
    {
      ghost var before := a[..];
      RowFits(x, y, before, i);
      assert a[i..] == before[i..];
      MulRow(a, i, x[i], y);
      ghost var after := a[..];
      assert a[i..] == after[i..] && a[..i] == after[..i] == before[..i];
      RowAdded(x, y, before, after, i);
      i := i + 1;
    }
    assert x[..i] == x;
    z := Normalize(a[..]);
  }

  /** The row sum fits into its window, so the row loop drops no carry. */
  lemma RowFits(x: seq<Digit>, y: seq<Digit>, a: seq<Digit>, i: nat)
    requires i < |x| && |a| == |x| + |y|
    requires Value(a) == Value(x[..i]) * Value(y)
    ensures Value(a[i..]) + Times(x[i], Value(y)) < Pow(|a| - i)
  {
    hide Value, Pow, Times;
    ValueSplit(a, i);
    ValueBound(x[..i]);
    ValueBound(y);
    PowMonotone(|y| + 1, |a| - i);
    PowNext(|y|);
    WindowBelow(Pow(i), Value(a[i..]), Value(x[..i]), Value(y));
    RowBelow(x[i], Value(y));
  }

  lemma RowBelow(d: Digit, v: nat)
    ensures Times(d, v) <= 255 * v
  {
    hide Times;
    TimesIs(d, v);
    MulMono(v, d, 255);
  }

  lemma WindowBelow(p: nat, w: nat, v: nat, y: nat)
    requires p * w <= v * y && v < p
    ensures w <= y
  {
    if w > y {
      Scaled(p, y, w);
      MulMono(y, v, p);
    }
  }

  lemma RowAdded(x: seq<Digit>, y: seq<Digit>, before: seq<Digit>, after: seq<Digit>, i: nat)
    requires i < |x| && |before| == |after| == |x| + |y| && after[..i] == before[..i]
    requires Value(before) == Value(x[..i]) * Value(y)
    requires Value(after[i..]) == Value(before[i..]) + Times(x[i], Value(y))
    ensures Value(after) == Value(x[..i + 1]) * Value(y)
  {
    hide Value, Pow, Times;
    ValueSplit(before, i);
    ValueSplit(after, i);
    assert x[..i + 1] == x[..i] + [x[i]];
    ValueAppend(x[..i], x[i]);
    TimesIs(x[i], Value(y));
    RowSum(Pow(i), Value(x[..i]), x[i], Value(y), Value(before[i..]), Value(after[i..]), Value(before[..i]),
           Value(before), Value(after), Value(x[..i + 1]));
  }

  lemma RowSum(p: nat, v: nat, d: nat, y: nat, w: nat, w': nat, low: nat, a: nat, a': nat, v': nat)
    requires a == v * y && a == low + p * w && a' == low + p * w'
    requires w' == w + d * y && v' == v + p * d
    ensures a' == v' * y
  {
    Distribute(w, d * y, p);
    Distribute(v, p * d, y);
    assert p * (d * y) == (p * d) * y;
  }

  // ---- Comparison ----

  /** The order of two numbers as the sign of `cmp`. */
  function Order(a: int, b: int): int {
    if a < b then -1 else if a > b then 1 else 0
  }

  /** `cmp` on the magnitudes: the longer trimmed string is larger, and equally long ones are
      compared from the top digit down. */
  method Compare(x: seq<Digit>, y: seq<Digit>) returns (c: int)
    requires Trimmed(x) && Trimmed(y)
    ensures c == Order(Value(x), Value(y))
  {
    if |x| != |y| {
      LongerIsLarger(x, y);
      LongerIsLarger(y, x);
      return if |x| < |y| then -1 else 1;
    }
    var i := |x| - 1;
    while i > 0 && x[i] == y[i]
      invariant 0 <= i < |x| && x[i + 1..] == y[i + 1..]
    {
      assert x[i..] == [x[i]] + x[i + 1..] && y[i..] == [y[i]] + y[i + 1..];
      i := i - 1;
    }
    if x[i] < y[i] {
      LeadingDigit(x, y, i);
      return -1;
    } else if y[i] < x[i] {
      LeadingDigit(y, x, i);
      return 1;
    }
    assert x == [x[0]] + x[1..] && y == [y[0]] + y[1..];
    return 0;
  }
}
