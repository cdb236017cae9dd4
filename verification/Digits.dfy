/** Base-256 digit strings, least significant digit first (src/Numbers.cpp:69-133), and the
    arithmetic facts behind the trial digit of long division. */
module Digits {

  type Digit = d: nat | d < 256

  /** The number a digit string denotes. */
  function Value(s: seq<Digit>): nat {
    if s == [] then 0 else s[0] + 256 * Value(s[1..])
  }

  /** A leading digit followed by one more. */
  function Lead(high: nat, low: nat): nat {
    256 * high + low
  }

  function Pow(n: nat): (p: nat)
    ensures p > 0
  {
    if n == 0 then 1 else 256 * Pow(n - 1)
  }

  lemma {:induction false} PowSum(a: nat, b: nat)
    ensures Pow(a + b) == Pow(a) * Pow(b)
  {
    if a > 0 {
      PowSum(a - 1, b);
      MulAssoc(256, Pow(a - 1), Pow(b));
    }
  }

  lemma MulAssoc(a: int, b: int, c: int)
    ensures a * (b * c) == (a * b) * c
  {
  }

  lemma {:induction false} ValueBound(s: seq<Digit>)
    ensures Value(s) < Pow(|s|)
  {
    if s != [] { ValueBound(s[1..]); }
  }

  lemma {:induction false} ValueConcat(s: seq<Digit>, t: seq<Digit>)
    ensures Value(s + t) == Value(s) + Pow(|s|) * Value(t)
  {
    if s == [] {
      assert s + t == t;
    } else {
      ValueConcat(s[1..], t);
      assert (s + t)[1..] == s[1..] + t;
      assert 256 * (Pow(|s| - 1) * Value(t)) == Pow(|s|) * Value(t);
    }
  }

  lemma ValueHead(s: seq<Digit>, d: Digit, t: seq<Digit>)
    requires |s| > 0 && s[0] == d && s[1..] == t
    ensures Value(s) == d + 256 * Value(t)
  {
  }

  lemma ValueAppend(s: seq<Digit>, d: Digit)
    ensures Value(s + [d]) == Value(s) + Pow(|s|) * d
  {
    ValueConcat(s, [d]);
    assert Value([d]) == d;
  }

  lemma ValueSplit(s: seq<Digit>, k: nat)
    requires k <= |s|
    ensures Value(s) == Value(s[..k]) + Pow(k) * Value(s[k..])
  {
    assert s == s[..k] + s[k..];
    ValueConcat(s[..k], s[k..]);
  }

  lemma {:induction false} ValueOfZeros(s: seq<Digit>)
    requires forall i | 0 <= i < |s| :: s[i] == 0
    ensures Value(s) == 0
  {
    if s != [] { ValueOfZeros(s[1..]); }
  }

  /** Equal values of equally long strings mean equal strings. */
  lemma {:induction false} ValueInjective(s: seq<Digit>, t: seq<Digit>)
    requires |s| == |t| && Value(s) == Value(t)
    ensures s == t
  {
    if s != [] {
      assert s[0] == t[0] && Value(s[1..]) == Value(t[1..]);
      ValueInjective(s[1..], t[1..]);
      assert s == [s[0]] + s[1..] && t == [t[0]] + t[1..];
    }
  }

  /** The string with the larger leading digit after a common top part is the larger one. */
  lemma LeadingDigit(s: seq<Digit>, t: seq<Digit>, i: nat)
    requires |s| == |t| && i < |s| && s[i + 1..] == t[i + 1..] && s[i] < t[i]
    ensures Value(s) < Value(t)
  {
    ValueSplit(s, i);
    ValueSplit(t, i);
    ValueBound(s[..i]);
    var p, a, b, top := Pow(i), s[i], t[i], Value(s[i + 1..]);
    assert s[i..] == [a] + s[i + 1..] && t[i..] == [b] + t[i + 1..];
    assert s[i..][1..] == s[i + 1..] && t[i..][1..] == t[i + 1..];
    Scaled(p, a + 256 * top, b + 256 * top);
  }

  lemma Scaled(p: nat, a: nat, b: nat)
    requires a < b
    ensures p * a + p <= p * b
  {
    assert p * (a + 1) == p * a + p;
    MulMono(p, a + 1, b);
  }

  lemma {:induction false} PowMonotone(i: nat, j: nat)
    requires i <= j
    ensures Pow(i) <= Pow(j)
  {
    if i < j { PowMonotone(i, j - 1); }
  }

  // ---- The trial digit ----

  /** The quotient of the leading three digits of a remainder by the leading two of the divisor,
      capped at the largest digit (src/Numbers.cpp:485-489). */
  function TrialDigit(r3: nat, y2: nat): (q: nat)
    requires y2 > 0
    ensures q < 256
  {
    if r3 / y2 >= 256 then 256 - 1 else r3 / y2
  }

  /** With a two-digit lead of at least 256, the trial digit is the true quotient digit of `w` by
      `y` or one more. */
  lemma TrialDigitClose(w: nat, y: nat, p: nat, r3: nat, w0: nat, y2: nat, y0: nat)
    requires w == p * r3 + w0 && w0 < p
    requires y == p * y2 + y0 && y0 < p
    requires y2 >= 256 && w < 256 * y
    ensures var q := TrialDigit(r3, y2); Times(q, y) < w + y && w < Times(q, y) + y
  {
    var q := TrialDigit(r3, y2);
    TrialNotTooSmall(w, y, p, r3, w0, y2, y0, q);
    TrialNotTooLarge(w, y, p, r3, w0, y2, y0, q);
    TimesIs(q, y);
    Distribute(q, 1, y);
  }

  /** The product, as repeated addition: the proofs about digit strings use it where they need no
      law of multiplication but the ones below. */
  function Times(a: nat, b: nat): nat {
    if a == 0 then 0 else b + Times(a - 1, b)
  }

  lemma {:induction false} TimesIs(a: nat, b: nat)
    ensures Times(a, b) == a * b
  {
    if a > 0 {
      TimesIs(a - 1, b);
      assert a * b == b + (a - 1) * b;
    }
  }

  lemma TimesStep(a: nat, c: nat, b: nat)
    ensures Times(a + 256 * c, b) == Times(a, b) + 256 * Times(c, b)
  {
    TimesIs(a + 256 * c, b);
    TimesIs(a, b);
    TimesIs(c, b);
    Distribute(a, 256 * c, b);
    assert (256 * c) * b == 256 * (c * b);
  }

  lemma TrialNotTooSmall(w: nat, y: nat, p: nat, r3: nat, w0: nat, y2: nat, y0: nat, q: nat)
    requires w == p * r3 + w0 && w0 < p
    requires y == p * y2 + y0 && y2 > 0 && w < 256 * y
    requires q == TrialDigit(r3, y2)
    ensures w < (q + 1) * y
  {
    if q < 256 - 1 || r3 / y2 == q {
      QuotientAbove(r3, y2);
      assert r3 + 1 <= (q + 1) * y2;
      assert p * (r3 + 1) <= p * ((q + 1) * y2) by { MulMono(p, r3 + 1, (q + 1) * y2); }
      assert p * (r3 + 1) == p * r3 + p;
      assert p * ((q + 1) * y2) == (q + 1) * (p * y2) by { MulSwap(p, q + 1, y2); }
      assert (q + 1) * (p * y2) <= (q + 1) * y by { MulMono(q + 1, p * y2, y); }
    }
  }

  lemma TrialNotTooLarge(w: nat, y: nat, p: nat, r3: nat, w0: nat, y2: nat, y0: nat, q: nat)
    requires w == p * r3 + w0
    requires y == p * y2 + y0 && y0 < p && y2 >= 256
    requires q == TrialDigit(r3, y2)
    ensures q * y < w + y
  {
    QuotientBelow(r3, y2);
    var q0 := r3 / y2;
    assert q * y2 <= r3 by { MulMono(y2, q, q0); assert y2 * q == q * y2; }
    assert q * y == q * (p * y2) + q * y0;
    assert q * (p * y2) == p * (q * y2) by { MulSwap(p, q, y2); }
    assert p * (q * y2) <= p * r3 by { MulMono(p, q * y2, r3); }
    assert q * y0 <= q * p by { MulMono(q, y0, p); }
    assert q * p == p * q && p * q < p * 256 <= p * y2 by { Scaled(p, q, 256); MulMono(p, 256, y2); }
  }

  lemma QuotientAbove(a: nat, b: nat)
    requires b > 0
    ensures a < (a / b + 1) * b
  {
  }

  lemma QuotientBelow(a: nat, b: nat)
    requires b > 0
    ensures b * (a / b) <= a
  {
  }

  lemma MulMono(a: nat, b: nat, c: nat)
    requires b <= c
    ensures a * b <= a * c
  {
  }

  lemma MulSwap(a: nat, b: nat, c: nat)
    ensures a * (b * c) == b * (a * c)
  {
  }

  lemma Distribute(a: nat, b: nat, c: nat)
    ensures (a + b) * c == a * c + b * c
    ensures c * (a + b) == c * a + c * b
  {
  }
}
