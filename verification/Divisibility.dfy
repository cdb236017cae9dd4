/** Divisibility of natural numbers, for the Euclidean loop and the canonical ratios. */
module Divisibility {
  import opened Digits

  ghost predicate Divides(d: nat, n: nat) {
    exists k: nat :: Times(k, d) == n
  }

  lemma {:induction false} TimesSum(a: nat, b: nat, c: nat)
    ensures Times(a + b, c) == Times(a, c) + Times(b, c)
  {
    if a > 0 { TimesSum(a - 1, b, c); }
  }

  lemma {:induction false} TimesAssoc(a: nat, b: nat, c: nat)
    ensures Times(a, Times(b, c)) == Times(Times(a, b), c)
  {
    if a > 0 {
      TimesAssoc(a - 1, b, c);
      TimesSum(b, Times(a - 1, b), c);
    }
  }

  lemma TimesCommutes(a: nat, b: nat)
    ensures Times(a, b) == Times(b, a)
  {
    TimesIs(a, b);
    TimesIs(b, a);
  }

  /** A quotient and a remainder below the divisor are the quotient and the remainder. */
  lemma DivisionUnique(a: nat, b: nat, q: nat, r: nat)
    requires b > 0 && a == q * b + r && r < b
    ensures q == a / b && r == a % b
  {
    var q', r' := a / b, a % b;
    assert a == q' * b + r' by { QuotientRemainder(a, b); }
    if q < q' { MulMono(b, q + 1, q'); Distribute(q, 1, b); }
    if q' < q { MulMono(b, q' + 1, q); Distribute(q', 1, b); }
  }

  lemma QuotientRemainder(a: nat, b: nat)
    requires b > 0
    ensures a == (a / b) * b + a % b && a % b < b
  {
  }

  lemma ModIsZero(a: nat, b: nat)
    requires b > 0
    ensures a % b == 0 <==> Divides(b, a)
  {
    QuotientRemainder(a, b);
    TimesIs(a / b, b);
    if Divides(b, a) {
      var k: nat :| Times(k, b) == a;
      TimesIs(k, b);
      DivisionUnique(a, b, k, 0);
    }
  }

  lemma DividesLarge(d: nat, n: nat)
    requires Divides(d, n) && n > 0
    ensures 0 < d <= n
  {
    var k: nat :| Times(k, d) == n;
    TimesIs(k, d);
    if k > 0 { MulMono(d, 1, k); }
  }

  lemma DividesSelf(d: nat)
    ensures Divides(d, d) && Divides(1, d) && Divides(d, 0)
  {
    assert Times(1, d) == d by { assert Times(0, d) == 0; }
    TimesIs(d, 1);
    assert Times(0, d) == 0;
  }

  lemma DividesSum(d: nat, a: nat, b: nat)
    requires Divides(d, a)
    ensures Divides(d, b) <==> Divides(d, a + b)
  {
    var k: nat :| Times(k, d) == a;
    if Divides(d, b) {
      var l: nat :| Times(l, d) == b;
      TimesSum(k, l, d);
    }
    if Divides(d, a + b) {
      var l: nat :| Times(l, d) == a + b;
      TimesIs(k, d);
      TimesIs(l, d);
      if l < k {
        MulMono(d, l, k);
        assert b == 0;
        DividesSelf(d);
      } else {
        TimesSum(k, l - k, d);
      }
    }
  }

  lemma DividesTimes(d: nat, a: nat, k: nat)
    requires Divides(d, a)
    ensures Divides(d, Times(k, a)) && Divides(d, Times(a, k))
  {
    var l: nat :| Times(l, d) == a;
    TimesAssoc(k, l, d);
    TimesCommutes(a, k);
  }

  /** The common divisors of `a` and `b` are those of `b` and `a % b`. */
  lemma DividesMod(d: nat, a: nat, b: nat)
    requires b > 0 && Divides(d, b)
    ensures Divides(d, a) <==> Divides(d, a % b)
  {
    QuotientRemainder(a, b);
    TimesIs(a / b, b);
    DividesTimes(d, b, a / b);
    DividesSum(d, Times(a / b, b), a % b);
  }

  function NatGcd(a: nat, b: nat): nat
    decreases b
  {
    if b == 0 then a else NatGcd(b, a % b)
  }

  lemma {:induction false} NatGcdPositive(a: nat, b: nat)
    ensures NatGcd(a, b) > 0 <==> a > 0 || b > 0
    decreases b
  {
    if b != 0 { NatGcdPositive(b, a % b); }
  }

  /** NatGcd is a common divisor that every common divisor divides. */
  lemma {:induction false} NatGcdGreatest(a: nat, b: nat, d: nat)
    ensures Divides(d, NatGcd(a, b)) <==> Divides(d, a) && Divides(d, b)
    decreases b
  {
    if b == 0 {
      DividesSelf(d);
    } else {
      NatGcdGreatest(b, a % b, d);
      if Divides(d, b) { DividesMod(d, a, b); }
    }
  }

  lemma NatGcdDivides(a: nat, b: nat)
    ensures Divides(NatGcd(a, b), a) && Divides(NatGcd(a, b), b)
  {
    DividesSelf(NatGcd(a, b));
    NatGcdGreatest(a, b, NatGcd(a, b));
  }

  lemma {:induction false} NatGcdScaled(c: nat, a: nat, b: nat)
    requires c > 0
    ensures NatGcd(c * a, c * b) == c * NatGcd(a, b)
    decreases b
  {
    if b == 0 {
      assert c * b == 0;
    } else {
      MulMono(c, 1, b);
      ModScaled(c, a, b);
      NatGcdScaled(c, b, a % b);
    }
  }

  lemma ModScaled(c: nat, a: nat, b: nat)
    requires c > 0 && b > 0
    ensures c * b > 0 && (c * a) % (c * b) == c * (a % b)
  {
    MulMono(c, 1, b);
    QuotientRemainder(a, b);
    var q, r := a / b, a % b;
    assert c * a == q * (c * b) + c * r by {
      Distribute(q * b, r, c);
      MulSwap(c, q, b);
    }
    Scaled(c, r, b);
    DivisionUnique(c * a, c * b, q, c * r);
  }

  lemma NatGcdTurn(a: nat, b: nat, r: nat)
    requires b > 0 && a % b == r
    ensures NatGcd(a, b) == NatGcd(b, r)
  {
  }

  lemma NatGcdEnds(a: nat)
    ensures NatGcd(a, 0) == a
  {
  }

  ghost predicate Coprime(a: nat, b: nat) {
    NatGcd(a, b) == 1
  }

  /** Euclid's lemma. */
  lemma CoprimeDivides(a: nat, b: nat, c: nat)
    requires Coprime(a, b) && Divides(b, Times(c, a))
    ensures Divides(b, c)
  {
    if c == 0 {
      DividesSelf(b);
    } else {
      NatGcdScaled(c, a, b);
      TimesIs(c, a);
      TimesIs(c, b);
      DividesSelf(b);
      DividesTimes(b, b, c);
      NatGcdGreatest(c * a, c * b, b);
    }
  }

  /** Dividing out the greatest common divisor leaves coprime numbers. */
  lemma ReducedCoprime(a: nat, b: nat)
    requires b > 0
    ensures var g := NatGcd(a, b); g > 0 && Coprime(a / g, b / g) && a == g * (a / g) && b == g * (b / g) && b / g > 0
  {
    var g := NatGcd(a, b);
    NatGcdPositive(a, b);
    NatGcdDivides(a, b);
    ModIsZero(a, g);
    ModIsZero(b, g);
    QuotientRemainder(a, g);
    QuotientRemainder(b, g);
    NatGcdScaled(g, a / g, b / g);
    DividesLarge(g, b);
    if NatGcd(a / g, b / g) != 1 { CancelOne(g, NatGcd(a / g, b / g)); }
  }

  lemma CancelOne(g: nat, k: nat)
    requires g > 0 && g == g * k
    ensures k == 1
  {
    if k > 1 { Scaled(g, 1, k); }
  }
}
