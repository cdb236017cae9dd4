/** The digit loops of the big integers (src/Numbers.cpp:388-538): schoolbook addition,
    subtraction and multiplication, short division, and long division with a trial digit. */
module BigIntDivision {
  import opened Digits

  /** `length`: the digits that count, at least one. */
  method Length(s: seq<Digit>) returns (n: nat)
    requires |s| > 0
    ensures 1 <= n <= |s| && Value(s[..n]) == Value(s)
    ensures n > 1 ==> s[n - 1] != 0
  {
    n := |s|;
    assert s[..n] == s;
    while n > 1 && s[n - 1] == 0
      invariant 1 <= n <= |s| && Value(s[..n]) == Value(s)
    {
      assert s[..n] == s[..n - 1] + [s[n - 1]];
      ValueAppend(s[..n - 1], s[n - 1]);
      n := n - 1;
    }
  }

  // ---- Short division ----

  /** `quotient`: divide by one digit, from the top. */
  method Quotient(x: seq<Digit>, y: Digit) returns (q: seq<Digit>, carry: Digit)
    requires y > 0
    ensures |q| == |x| && carry < y && Value(x) == Value(q) * y + carry
  {
    q, carry := [], 0;
    var i := |x|;
    assert x[i..] == [];
    while i > 0
      invariant 0 <= i <= |x| && |q| == |x| - i && carry < y
      invariant Value(x[i..]) == Value(q) * y + carry
    {
      i := i - 1;
      assert x[i..] == [x[i]] + x[i + 1..];
      var d, c := ShortDivide(carry, x[i], y);
      var q' := [d] + q;
      assert q'[1..] == q;
      ShortStep(Value(x[i + 1..]), x[i], Value(q), y, carry, d, c, Value(x[i..]), Value(q'));
      q, carry := q', c;
    }
    assert x[0..] == x;
  }

  method ShortDivide(carry: Digit, d: Digit, y: Digit) returns (q: Digit, r: Digit)
    requires y > 0 && carry < y
    ensures r < y && carry * 256 + d == q * y + r
  {
    var c: nat := carry * 256 + d;
    ShortDigit(c, y, carry, d);
    q, r := c / y, c % y;
  }

  lemma ShortDigit(c: nat, y: Digit, carry: nat, d: Digit)
    requires y > 0 && carry < y && c == carry * 256 + d
    ensures c / y < 256 && c % y < y && c == (c / y) * y + c % y
  {
    if c / y >= 256 { MulMono(y, 256, c / y); }
  }

  lemma ShortStep(xv: nat, d: nat, qv: nat, y: nat, carry: nat, a: nat, b: nat, xv': nat, qv': nat)
    requires xv == qv * y + carry && carry * 256 + d == a * y + b
    requires xv' == d + 256 * xv && qv' == a + 256 * qv
    ensures xv' == qv' * y + b
  {
    Distribute(a, 256 * qv, y);
    assert (256 * qv) * y == 256 * (qv * y);
  }

  // ---- Long division ----

  /** `product`: the divisor times one digit. */
  method Product(n: nat, z: array<Digit>, x: seq<Digit>, y: Digit) returns (carry: Digit)
    requires n <= |x| && n <= z.Length
    modifies z
    ensures Value(z[..n] + [carry]) == Times(y, Value(x[..n]))
    ensures z[n..] == old(z[n..])
  {
    carry := 0;
    var i := 0;
    while i < n
      invariant 0 <= i <= n
      invariant Value(z[..i]) + Pow(i) * carry == Value(x[..i]) * y
      invariant z[n..] == old(z[n..])
    {
      var c: nat := carry + x[i] * y;
      assert x[i] * y <= 255 * 255 by { MulMono(x[i], y, 255); MulMono(255, x[i], 255); }
      ghost var before := z[..i];
      z[i] := c % 256;
      assert z[..i + 1] == before + [c % 256] && x[..i + 1] == x[..i] + [x[i]];
      ValueAppend(before, c % 256);
      ValueAppend(x[..i], x[i]);
      ProductStep(Value(before), Pow(i), carry, Value(x[..i]), x[i], y, c);
      carry := c / 256;
      i := i + 1;
    }
    ProductDone(z[..n], carry, Value(x[..n]), y);
  }

  lemma ProductDone(z: seq<Digit>, carry: Digit, v: nat, y: Digit)
    requires Value(z) + Pow(|z|) * carry == v * y
    ensures Value(z + [carry]) == Times(y, v)
  {
    ValueAppend(z, carry);
    TimesIs(y, v);
  }

  lemma ProductStep(z: nat, p: nat, carry: nat, v: nat, d: nat, y: nat, c: nat)
    requires z + p * carry == v * y && c == carry + d * y
    ensures z + p * (c % 256) + (256 * p) * (c / 256) == (v + p * d) * y
  {
    assert c == 256 * (c / 256) + c % 256;
    assert p * c == p * (256 * (c / 256)) + p * (c % 256) by { Distribute(256 * (c / 256), c % 256, p); }
    assert p * (256 * (c / 256)) == (256 * p) * (c / 256);
    assert p * c == p * carry + p * (d * y) by { Distribute(carry, d * y, p); }
    assert (v + p * d) * y == v * y + (p * d) * y by { Distribute(v, p * d, y); }
    assert (p * d) * y == p * (d * y);
  }

  /** Subtract `dq` from the window of `rem` that starts at `k`. */
  method SubtractWindow(rem: array<Digit>, k: nat, dq: seq<Digit>) returns (borrow: nat)
    requires k + |dq| <= rem.Length
    modifies rem
    ensures borrow <= 1
    ensures Value(rem[k..k + |dq|]) + Value(dq) == Value(old(rem[k..k + |dq|])) + borrow * Pow(|dq|)
    ensures rem[..k] == old(rem[..k]) && rem[k + |dq|..] == old(rem[k + |dq|..])
  {
    borrow := 0;
    var i := 0;
    ghost var w := rem[k..k + |dq|];
    while i < |dq|
      invariant 0 <= i <= |dq| && borrow <= 1
      invariant Value(rem[k..k + i]) + Value(dq[..i]) == Value(w[..i]) + borrow * Pow(i)
      invariant rem[..k] == old(rem[..k]) && rem[k + i..] == old(rem[k + i..])
    {
      var d: nat := rem[k + i] + 256 - borrow - dq[i];
      ghost var before := rem[k..k + i];
      assert rem[k + i] == w[i] by { assert rem[k + i] == old(rem[k + i..])[0]; }
      rem[k + i] := d % 256;
      assert rem[k..k + i + 1] == before + [d % 256];
      assert dq[..i + 1] == dq[..i] + [dq[i]] && w[..i + 1] == w[..i] + [w[i]];
      ValueAppend(before, d % 256);
      ValueAppend(dq[..i], dq[i]);
      ValueAppend(w[..i], w[i]);
      BorrowStep(Value(before), Value(dq[..i]), Value(w[..i]), borrow, Pow(i), d, w[i], dq[i]);
      borrow := 1 - d / 256;
      i := i + 1;
    }
    assert dq[..i] == dq && w[..i] == w;
  }

  lemma BorrowStep(r: nat, q: nat, w: nat, borrow: nat, p: nat, d: nat, wi: nat, qi: nat)
    requires r + q == w + borrow * p && borrow <= 1 && wi < 256 && qi < 256
    requires d == wi + 256 - borrow - qi
    ensures d / 256 <= 1
    ensures r + p * (d % 256) + (q + p * qi) == w + p * wi + (1 - d / 256) * (256 * p)
  {
    var b := 1 - d / 256;
    assert d % 256 + qi == wi - borrow + 256 * b;
    assert p * (d % 256) + p * qi == p * wi - p * borrow + p * (256 * b) by {
      Distribute(d % 256, qi, p);
      assert p * (wi - borrow + 256 * b) == p * wi - p * borrow + p * (256 * b);
    }
    assert p * (256 * b) == b * (256 * p);
    assert p * borrow == borrow * p;
  }

  /** The digit comparison of the window with the trial product. */
  method WindowLess(rem: array<Digit>, k: nat, dq: seq<Digit>) returns (less: bool)
    requires |dq| > 0 && k + |dq| <= rem.Length
    ensures less <==> Value(rem[k..k + |dq|]) < Value(dq)
  {
    var i := |dq| - 1;
    ghost var w := rem[k..k + |dq|];
    while i > 0 && rem[i + k] == dq[i]
      invariant 0 <= i < |dq|
      invariant w[i + 1..] == dq[i + 1..]
    {
      assert w[i] == dq[i];
      assert w[i..] == [w[i]] + w[i + 1..] && dq[i..] == [dq[i]] + dq[i + 1..];
      i := i - 1;
    }
    less := rem[i + k] < dq[i];
    assert w[i] == rem[i + k];
    if w[i] < dq[i] {
      LeadingDigit(w, dq, i);
    } else if dq[i] < w[i] {
      LeadingDigit(dq, w, i);
    } else {
      assert w == dq by {
        assert w == [w[0]] + w[1..] && dq == [dq[0]] + dq[1..];
      }
    }
  }

  ghost predicate Divisor(y: seq<Digit>) {
    |y| >= 2 && y[|y| - 1] != 0
  }

  /** A normalized divisor split after its two leading digits. */
  lemma DivisorLead(y: seq<Digit>)
    requires Divisor(y)
    ensures var m := |y|;
            var y2 := Lead(y[m - 1], y[m - 2]);
            && y2 >= 256
            && Value(y) == Value(y[..m - 2]) + Pow(m - 2) * y2
            && Value(y[..m - 2]) < Pow(m - 2)
            && Pow(m - 1) <= Value(y) < Pow(m)
  {
    var m := |y|;
    var y2 := Lead(y[m - 1], y[m - 2]);
    ValueSplit(y, m - 2);
    ValueBound(y[..m - 2]);
    ValueBound(y);
    TwoDigits(y[m - 2..], y[m - 2], y[m - 1]);
    MulMono(Pow(m - 2), 256, y2);
  }

  lemma TwoDigits(t: seq<Digit>, a: Digit, b: Digit)
    requires t == [a, b]
    ensures Value(t) == Lead(b, a)
  {
    assert t[1..] == [b];
    assert Value([b]) == b;
  }

  /** The window split after its three leading digits. */
  lemma WindowLead(w: seq<Digit>)
    requires |w| >= 3
    ensures var n := |w|;
            && Value(w) == Value(w[..n - 3]) + Pow(n - 3) * Lead(Lead(w[n - 1], w[n - 2]), w[n - 3])
            && Value(w[..n - 3]) < Pow(n - 3)
  {
    hide Value, Pow;
    var n := |w|;
    ValueSplit(w, n - 3);
    ValueBound(w[..n - 3]);
    ThreeDigits(w[n - 3..], w[n - 3], w[n - 2], w[n - 1]);
  }

  lemma ThreeDigits(t: seq<Digit>, a: Digit, b: Digit, c: Digit)
    requires t == [a, b, c]
    ensures Value(t) == Lead(Lead(c, b), a)
  {
    assert t[1..] == [b, c] && t[1..][1..] == [c];
    assert Value(t[1..][1..]) == c;
  }

  /** The trial digit from the three leading digits of the window and the two of the divisor. */
  method EstimateDigit(w: seq<Digit>, y: seq<Digit>) returns (q: Digit)
    requires Divisor(y) && |w| == |y| + 1 && Value(w[1..]) < Value(y)
    ensures Times(q, Value(y)) < Value(w) + Value(y) && Value(w) < Times(q, Value(y)) + Value(y)
  {
    var m := |y|;
    var r3, y2 := Lead(Lead(w[m], w[m - 1]), w[m - 2]), Lead(y[m - 1], y[m - 2]);
    DivisorLead(y);
    WindowLead(w);
    ValueHead(w, w[0], w[1..]);
    q := TrialDigit(r3, y2);
    TrialDigitClose(Value(w), Value(y), Pow(m - 2), r3, Value(w[..m - 2]), y2, Value(y[..m - 2]));
  }

  /** One step of long division: the window of `rem` at `k` loses the right multiple of `y`. One
      correction of the trial digit suffices and the final borrow is zero. */
  method DivStep(rem: array<Digit>, k: nat, y: seq<Digit>) returns (qk: Digit)
    requires Divisor(y) && k + |y| < rem.Length
    requires Value(rem[k + 1..k + 1 + |y|]) < Value(y)
    modifies rem
    ensures Value(old(rem[k..k + 1 + |y|])) == Times(qk, Value(y)) + Value(rem[k..k + 1 + |y|])
    ensures Value(rem[k..k + 1 + |y|]) < Value(y)
    ensures rem[..k] == old(rem[..k]) && rem[k + 1 + |y|..] == old(rem[k + 1 + |y|..])
  {
    ghost var km := k + 1 + |y|;
    ghost var w := rem[k..km];
    assert w[1..] == rem[k + 1..km];
    qk := EstimateDigit(rem[k..k + 1 + |y|], y);
    var dq := TrialProduct(y, qk);
    var less := WindowLess(rem, k, dq);
    if less {
      CorrectOnce(Value(w), Value(y), qk);
      qk := qk - 1;
      dq := TrialProduct(y, qk);
    }
    var borrow := SubtractWindow(rem, k, dq);
    NoBorrow(rem[k..km], Value(dq), Value(w), borrow);
  }

  lemma CorrectOnce(w: nat, y: nat, q: nat)
    requires w < Times(q, y) < w + y
    ensures q > 0 && Times(q - 1, y) <= w < Times(q - 1, y) + y
  {
  }

  lemma NoBorrow(r: seq<Digit>, dq: nat, w: nat, borrow: nat)
    requires Value(r) + dq == w + borrow * Pow(|r|) && dq <= w && borrow <= 1
    ensures borrow == 0 && Value(r) + dq == w
  {
    if borrow == 1 {
      assert borrow * Pow(|r|) == Pow(|r|);
      ValueBound(r);
    }
  }

  /** The divisor times the trial digit, with its carry as the last digit. */
  method TrialProduct(y: seq<Digit>, q: Digit) returns (dq: seq<Digit>)
    ensures |dq| == |y| + 1 && Value(dq) == Times(q, Value(y))
  {
    var z := new Digit[|y| + 1](_ => 0);
    var carry := Product(|y|, z, y, q);
    z[|y|] := carry;
    dq := z[..];
    assert dq == z[..|y|] + [carry] && y[..|y|] == y;
  }

  /** `div` on the magnitudes: for every dividend and every divisor but zero the quotient and
      remainder of integer division. */
  method DivDigits(xs: seq<Digit>, ys: seq<Digit>) returns (divideByZero: bool, q: seq<Digit>, r: seq<Digit>)
    requires |xs| > 0 && |ys| > 0
    ensures divideByZero <==> Value(ys) == 0
    ensures !divideByZero ==> |q| > 0 && |r| > 0
    ensures !divideByZero ==> Value(xs) == Value(q) * Value(ys) + Value(r) && Value(r) < Value(ys)
  {
    var n := Length(xs);
    var m := Length(ys);
    var x, y := xs[..n], ys[..m];
    if m == 1 {
      assert Value(y) == y[0] by { assert y[1..] == []; }
      if y[0] == 0 { return true, [], []; }
      var carry;
      q, carry := Quotient(x, y[0]);
      r := [carry];
      assert Value(r) == carry by { assert r[1..] == []; }
      return false, q, r;
    }
    DivisorLead(y);
    if m > n {
      ValueBound(x);
      PowMonotone(n, m - 1);
      q, r := [0], x;
      assert Value(q) == 0 by { ValueOfZeros(q); }
      return false, q, r;
    }
    q, r := LongDivision(x, y);
    return false, q, r;
  }

  /** Before step `k - 1` of long division: the digits from `k` on are divided, their remainder
      lies in the window at `k`, and the digits below are untouched. */
  ghost predicate Divided(x: seq<Digit>, y: seq<Digit>, rem: seq<Digit>, k: nat, q: seq<Digit>) {
    && Divisor(y) && |rem| == |x| + 1 && k + |y| <= |x| + 1
    && rem[..k] == x[..k]
    && Value(rem[k..k + |y|]) < Value(y)
    && Value(x[k..]) == Times(Value(q), Value(y)) + Value(rem[k..k + |y|])
  }

  method LongDivision(x: seq<Digit>, y: seq<Digit>) returns (q: seq<Digit>, r: seq<Digit>)
    requires Divisor(y) && |y| <= |x|
    ensures |q| == |x| - |y| + 1 && |r| == |y|
    ensures Value(x) == Value(q) * Value(y) + Value(r) && Value(r) < Value(y)
  {
    var n, m := |x|, |y|;
    var rem := new Digit[n + 1](i => if 0 <= i < n then x[i] else 0);
    assert rem[..n] == x && rem[n] == 0;
    q := [];
    var k := n - m + 1;
    StartWindow(x, y, rem[k..k + m]);
    assert rem[..][..k] == x[..k] && rem[..][k..k + m] == rem[k..k + m];
    while k > 0
      invariant 0 <= k <= n - m + 1 && |q| == n - m + 1 - k
      invariant Divided(x, y, rem[..], k, q)
    {
      k := k - 1;
      var qk := LongStep(x, y, rem, k, q);
      q := [qk] + q;
    }
    r := rem[0..m];
    assert rem[..][0..m] == r && x[0..] == x;
    TimesIs(Value(q), Value(y));
  }

  method LongStep(x: seq<Digit>, y: seq<Digit>, rem: array<Digit>, k: nat, ghost q: seq<Digit>) returns (qk: Digit)
    requires k < |x| && Divided(x, y, rem[..], k + 1, q)
    modifies rem
    ensures Divided(x, y, rem[..], k, [qk] + q)
  {
    var m := |y|;
    ghost var before := rem[..];
    ghost var w := before[k..k + 1 + m];
    assert rem[k + 1..k + 1 + m] == before[k + 1..k + 1 + m] && rem[k..k + 1 + m] == w;
    qk := DivStep(rem, k, y);
    ghost var after := rem[..];
    assert rem[k..k + 1 + m] == after[k..k + 1 + m];
    assert rem[..k] == before[..k] && after[..k] == x[..k] by {
      assert before[..k + 1] == x[..k + 1];
      assert before[..k] == before[..k + 1][..k] && x[..k] == x[..k + 1][..k];
    }
    assert w[0] == x[k] by { assert before[k] == before[..k + 1][k]; }
    StepDivided(x, y, before, after, k, q, qk);
  }

  lemma StepDivided(x: seq<Digit>, y: seq<Digit>, before: seq<Digit>, after: seq<Digit>, k: nat, q: seq<Digit>,
                    qk: Digit)
    requires k < |x| && Divided(x, y, before, k + 1, q) && |after| == |before|
    requires before[k] == x[k] && after[..k] == x[..k]
    requires Value(before[k..k + 1 + |y|]) == Times(qk, Value(y)) + Value(after[k..k + 1 + |y|])
    requires Value(after[k..k + 1 + |y|]) < Value(y)
    ensures Divided(x, y, after, k, [qk] + q)
  {
    hide Value, Times;
    var m := |y|;
    var low, w, w' := before[k + 1..k + 1 + m], before[k..k + 1 + m], after[k..k + 1 + m];
    assert w[1..] == low && w[0] == x[k];
    assert x[k..][1..] == x[k + 1..];
    ValueHead(w, x[k], low);
    ValueHead(x[k..], x[k], x[k + 1..]);
    ValueHead([qk] + q, qk, q);
    StepValue(x[k], Value(x[k + 1..]), Value(x[k..]), Value(q), Value([qk] + q), Value(y), Value(low), Value(w),
              Value(w'), qk);
    DropTop(w', y);
    assert w'[..m] == after[k..k + m];
  }

  /** A dividend digit `d` joins both the digits divided so far and the remainder. */
  lemma StepValue(d: nat, x: nat, x': nat, q: nat, q': nat, y: nat, low: nat, w: nat, w': nat, qk: nat)
    requires x == Times(q, y) + low && w == Times(qk, y) + w'
    requires x' == d + 256 * x && w == d + 256 * low && q' == qk + 256 * q
    ensures x' == Times(q', y) + w'
  {
    TimesStep(qk, q, y);
  }

  lemma StartWindow(x: seq<Digit>, y: seq<Digit>, w: seq<Digit>)
    requires Divisor(y) && |y| <= |x| && w == x[|x| - |y| + 1..] + [0]
    ensures Value(w) < Value(y) && Value(x[|x| - |y| + 1..]) == Value(w)
  {
    var t := x[|x| - |y| + 1..];
    ValueAppend(t, 0);
    ValueBound(t);
    DivisorLead(y);
  }

  /** A window smaller than the divisor has a zero on top. */
  lemma DropTop(w: seq<Digit>, y: seq<Digit>)
    requires Divisor(y) && |w| == |y| + 1 && Value(w) < Value(y)
    ensures Value(w[..|y|]) == Value(w)
  {
    var m := |y|;
    assert w == w[..m] + [w[m]];
    ValueAppend(w[..m], w[m]);
    DivisorLead(y);
    if w[m] > 0 { MulMono(Pow(m), 1, w[m]); }
  }
}
