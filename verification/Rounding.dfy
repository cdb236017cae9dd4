/** Decimal rounding on the integers (src/Numbers.cpp:1232-1318, 1365-1376): dividing an unscaled value
    in a rounding mode as it is meant, and cutting a number down to a precision. `RoundingForms` has
    the two forms in which the code divides. */
module Rounding {
  import opened Wrappers
  import opened Digits
  import opened Divisibility
  import opened BigInts
  import opened DecimalDigits
  import BigDecimals

  datatype Mode = Up | Down | Ceiling | Floor | HalfUp | HalfDown | HalfEven | Unnecessary

  /** The decision to step away from zero, for a quotient `q` of sign `qsign` with a remainder `r`
      of the divisor `t`. */
  predicate Increment(q: nat, r: nat, t: nat, qsign: int, rm: Mode)
    requires rm != Unnecessary
  {
    match rm
    case Up => true
    case Down => false
    case Ceiling => qsign > 0
    case Floor => qsign < 0
    case HalfUp => 2 * r >= t
    case HalfDown => 2 * r > t
    case HalfEven => 2 * r > t || (2 * r == t && q % 2 == 1)
  }

  /** The magnitude of the rounded quotient; None where the code throws because rounding would be
      necessary. */
  function RoundMagnitude(q: nat, r: nat, t: nat, qsign: int, rm: Mode): Option<nat> {
    if r == 0 then Some(q)
    else if rm == Unnecessary then None
    else Some(if Increment(q, r, t, qsign, rm) then q + 1 else q)
  }

  /** What `divideAndRound` is for; see `RoundingForms` for when its two forms come to it. */
  function DivideAndRound(v: int, t: nat, rm: Mode): Option<int>
    requires t > 0
  {
    match RoundMagnitude(Abs(v) / t, Abs(v) % t, t, if v < 0 then -1 else 1, rm)
    case None => None
    case Some(q) => Some(if v < 0 then 0 - q else q)
  }

  /** `q` is `v / t` rounded in a mode. */
  ghost predicate IsRounded(v: int, t: nat, rm: Mode, q: int) {
    RoundedProduct(v, t, rm, q, q * t)
  }

  ghost predicate RoundedProduct(v: int, t: nat, rm: Mode, q: int, p: int) {
    && Abs(p - v) < t
    && match rm
       case Up => Abs(p) >= Abs(v)
       case Down => Abs(p) <= Abs(v)
       case Ceiling => p >= v
       case Floor => p <= v
       case HalfUp => 2 * Abs(p - v) <= t && (2 * Abs(p - v) == t ==> Abs(p) > Abs(v))
       case HalfDown => 2 * Abs(p - v) <= t && (2 * Abs(p - v) == t ==> Abs(p) < Abs(v))
       case HalfEven => 2 * Abs(p - v) <= t && (2 * Abs(p - v) == t ==> q % 2 == 0)
       case Unnecessary => p == v
  }

  lemma DivideAndRoundCorrect(v: int, t: nat, rm: Mode)
    requires t > 0
    ensures DivideAndRound(v, t, rm).Some? ==> IsRounded(v, t, rm, DivideAndRound(v, t, rm).value)
    ensures DivideAndRound(v, t, rm).None? <==> rm == Unnecessary && !Divides(t, Abs(v))
  {
    hide RoundMagnitude, IsRounded, Divides;
    ModIsZero(Abs(v), t);
    QuotientRemainder(Abs(v), t);
    RoundCorrect(v, t, rm, Abs(v) / t, Abs(v) % t);
  }

  lemma RoundCorrect(v: int, t: nat, rm: Mode, q: nat, r: nat)
    requires t > 0 && Abs(v) == q * t + r && r < t
    ensures var m := RoundMagnitude(q, r, t, if v < 0 then -1 else 1, rm);
            && (m.Some? ==> IsRounded(v, t, rm, if v < 0 then 0 - m.value else m.value))
            && (m.None? <==> rm == Unnecessary && r != 0)
  {
    hide RoundedProduct;
    var m := RoundMagnitude(q, r, t, if v < 0 then -1 else 1, rm);
    RoundCases(v, t, rm, q, r, q * t);
    if m.Some? { RoundSteps(q, t, m.value); }
  }

  lemma RoundSteps(q: nat, t: nat, m: nat)
    requires m == q || m == q + 1
    ensures m * t == (if m == q then q * t else q * t + t) && (0 - m) * t == 0 - m * t
  {
    Distribute(q, 1, t);
    SignedProduct(m, t);
  }

  lemma RoundCases(v: int, t: nat, rm: Mode, q: nat, r: nat, p: nat)
    requires t > 0 && Abs(v) == p + r && r < t
    ensures var m := RoundMagnitude(q, r, t, if v < 0 then -1 else 1, rm);
            m.Some? ==>
              var p' := if m.value == q then p else p + t;
              RoundedProduct(v, t, rm, if v < 0 then 0 - m.value else m.value, if v < 0 then 0 - p' else p')
  {
  }

  /** The number of decimal digits, by which `getPrecision` measures a value. */
  function DigitCount(v: nat): (d: nat)
    ensures d > 0
  {
    if v < 10 then 1 else 1 + DigitCount(v / 10)
  }

  lemma {:induction false} DigitCountIs(v: nat)
    ensures HasDigits(v, DigitCount(v))
  {
    assert TenTo(1) == 10 by { assert TenTo(0) == 1; }
    if v >= 10 { DigitCountIs(v / 10); }
  }

  lemma HasDigitsUnique(v: nat, d: nat, e: nat)
    requires HasDigits(v, d) && HasDigits(v, e)
    ensures d == e
  {
    if d < e { TenToMonotone(d, e - 1); }
    if e < d { TenToMonotone(e, d - 1); }
  }

  /** Cutting `drop` digits leaves `mc` digits, or ten to the power `mc` when rounding carries all
      the way up. */
  lemma CutDigits(v: int, mc: nat, drop: nat, rm: Mode)
    requires mc > 0 && drop > 0 && HasDigits(Abs(v), mc + drop)
    ensures var q := DivideAndRound(v, TenTo(drop), rm);
            q.Some? ==> Abs(q.value) == TenTo(mc) || HasDigits(Abs(q.value), mc)
    ensures var q := DivideAndRound(v, TenTo(drop), rm);
            q.Some? ==> Abs(q.value) < Abs(v)
  {
    hide TenTo, DivideAndRound, HasDigits;
    var q := Abs(v) / TenTo(drop);
    DivideSteps(v, TenTo(drop), rm);
    CutBounds(Abs(v), mc, drop, q);
    LeadDigits(q, mc);
    LeadDigits(q + 1, mc);
  }

  lemma CutBounds(v: nat, mc: nat, drop: nat, q: nat)
    requires mc > 0 && drop > 0 && HasDigits(v, mc + drop) && q == v / TenTo(drop)
    ensures TenTo(mc - 1) <= q < TenTo(mc) && q + 1 < v
  {
    hide TenTo;
    BigDecimals.TenToSum(mc, drop);
    BigDecimals.TenToSum(mc - 1, drop);
    TenToMonotone(1, drop);
    TenToOne();
    CutRange(v, TenTo(drop), TenTo(mc - 1), TenTo(mc), q);
  }

  lemma LeadDigits(q: nat, mc: nat)
    requires mc > 0 && TenTo(mc - 1) <= q <= TenTo(mc)
    ensures q == TenTo(mc) || HasDigits(q, mc)
  {
  }

  lemma DivideSteps(v: int, t: nat, rm: Mode)
    requires t > 0
    ensures var q := DivideAndRound(v, t, rm);
            q.Some? ==> Abs(q.value) == Abs(v) / t || Abs(q.value) == Abs(v) / t + 1
  {
  }

  lemma TenToOne()
    ensures TenTo(0) == 1 && TenTo(1) == 10
  {
    assert TenTo(0) == 1;
  }

  /** A number between `low * t` and `high * t` has a quotient by `t` in between. */
  lemma CutRange(v: nat, t: nat, low: nat, high: nat, q: nat)
    requires t >= 10 && low > 0 && low * t <= v < high * t && q == v / t
    ensures low <= q < high && q + 1 < v
  {
    QuotientRemainder(v, t);
    if q >= high { MulMono(t, high, q); }
    if q < low { MulMono(t, q + 1, low); Distribute(q, 1, t); }
    CutSmaller(v, t, low, q);
  }

  lemma CutSmaller(v: nat, t: nat, low: nat, q: nat)
    requires t >= 10 && low > 0 && low * t <= v && q * t <= v
    ensures q + 1 < v
  {
    MulMono(q, 10, t);
    MulMono(t, 1, low);
  }

  /** What `doRound` leaves of the value `v`: the value cut to `mc` digits, where a carry out of the
      top digit costs one more, exact, cut. */
  function Cut(v: int, mc: nat, rm: Mode): Option<(int, nat)> {
    var n := DigitCount(Abs(v));
    if n <= mc then Some((v, 0))
    else
      var q := DivideAndRound(v, TenTo(n - mc), rm);
      if q.None? then None
      else if Abs(q.value) == TenTo(mc) then Some((q.value / 10, n - mc + 1))
      else Some((q.value, n - mc))
  }

  /** `c` with `k` digits dropped is `v` rounded to `mc` digits: the number that the value rounded to a
      multiple of the power of ten denotes, written with at most `mc` digits. */
  ghost predicate CutTo(v: int, mc: nat, rm: Mode, c: int, k: int) {
    var n := DigitCount(Abs(v));
    if n <= mc then c == v && k == 0
    else
      && DigitCount(Abs(c)) == mc && (k == n - mc || k == n - mc + 1)
      && MultipleNear(v, TenTo(n - mc), rm, c * TenTo(k))
  }

  /** `p` is `v` rounded to a multiple of `t`. */
  ghost predicate MultipleNear(v: int, t: nat, rm: Mode, p: int) {
    exists q :: IsRounded(v, t, rm, q) && p == q * t
  }

  /** The value cut down is the value rounded. */
  lemma CutRounds(v: int, mc: nat, rm: Mode)
    requires mc > 0
    ensures Cut(v, mc, rm).Some? ==> CutTo(v, mc, rm, Cut(v, mc, rm).value.0, Cut(v, mc, rm).value.1)
    ensures Cut(v, mc, rm).None? <==> CannotRound(v, mc, rm)
  {
    hide TenTo, DigitCount, DivideAndRound, IsRounded, Divides;
    var n := DigitCount(Abs(v));
    if n > mc {
      DivideAndRoundCorrect(v, TenTo(n - mc), rm);
      if Cut(v, mc, rm).Some? { CutDigitsRound(v, mc, rm); }
    }
  }

  /** Rounding is asked for and forbidden. */
  ghost predicate CannotRound(v: int, mc: nat, rm: Mode) {
    var n := DigitCount(Abs(v));
    n > mc && rm == Unnecessary && !Divides(TenTo(n - mc), Abs(v))
  }

  lemma CutDigitsRound(v: int, mc: nat, rm: Mode)
    requires mc > 0 && DigitCount(Abs(v)) > mc && Cut(v, mc, rm).Some?
    ensures CutTo(v, mc, rm, Cut(v, mc, rm).value.0, Cut(v, mc, rm).value.1)
  {
    var n, c := DigitCount(Abs(v)), Cut(v, mc, rm).value;
    hide IsRounded, TenTo, DivideAndRound, DigitCount;
    DigitCountIs(Abs(v));
    DigitCountIs(Abs(c.0));
    var drop := n - mc;
    var q := DivideAndRound(v, TenTo(drop), rm).value;
    DivideAndRoundCorrect(v, TenTo(drop), rm);
    CutDigits(v, mc, drop, rm);
    PowerDigits(mc);
    SignedTenth(q, mc);
    if Abs(q) == TenTo(mc) {
      TenToNext(drop);
      TenthScaled(q, c.0, TenTo(drop), TenTo(drop + 1));
    }
    HasDigitsUnique(Abs(c.0), DigitCount(Abs(c.0)), mc);
  }

  lemma TenToNext(n: nat)
    ensures TenTo(n + 1) == 10 * TenTo(n)
  {
  }

  lemma TenthScaled(q: int, c: int, t: nat, t': nat)
    requires q == 10 * c && t' == 10 * t
    ensures c * t' == q * t
  {
  }

  /** Ten to the power `mc` has one digit more than `mc`, and its tenth has `mc`. */
  lemma PowerDigits(mc: nat)
    requires mc > 0
    ensures DigitCount(TenTo(mc)) == mc + 1 && HasDigits(TenTo(mc - 1), mc)
  {
    DigitCountIs(TenTo(mc));
    TenToMonotone(mc, mc + 1);
    HasDigitsUnique(TenTo(mc), DigitCount(TenTo(mc)), mc + 1);
    TenToMonotone(mc - 1, mc);
  }

  lemma SignedTenth(q: int, mc: nat)
    requires mc > 0
    ensures Abs(q) == TenTo(mc) ==> q == 10 * (q / 10) && Abs(q / 10) == TenTo(mc - 1)
  {
  }

  /** Where the loop of `doRound` stands after one or two rounds. */
  ghost predicate Progress(v: int, scale: int, mc: nat, rm: Mode, rounds: nat, d: int, s: int) {
    var n := DigitCount(Abs(v));
    n > mc > 0 &&
    var q := DivideAndRound(v, TenTo(n - mc), rm);
    q.Some? &&
    if rounds == 1 then d == q.value && s == scale - (n - mc)
    else rounds == 2 && Abs(q.value) == TenTo(mc) && d == q.value / 10 && s == scale - (n - mc) - 1
  }

  /** The value after a round: right, or one digit too long, or right after two. */
  lemma ProgressDigits(v: int, scale: int, mc: nat, rm: Mode, rounds: nat, d: int, s: int)
    requires Progress(v, scale, mc, rm, rounds, d, s)
    ensures DigitCount(Abs(d)) > mc <==> rounds == 1 && Abs(d) == TenTo(mc)
    ensures DigitCount(Abs(d)) > mc ==> DigitCount(Abs(d)) == mc + 1
  {
    DigitCountIs(Abs(v));
    DigitCountIs(Abs(d));
    CutDigits(v, mc, DigitCount(Abs(v)) - mc, rm);
    PowerDigits(mc);
    SignedTenth(DivideAndRound(v, TenTo(DigitCount(Abs(v)) - mc), rm).value, mc);
    if Abs(d) != TenTo(mc) { HasDigitsUnique(Abs(d), DigitCount(Abs(d)), mc); }
  }

  /** The second round divides a power of ten by ten and so does not round. */
  lemma SecondRound(d: int, mc: nat, rm: Mode)
    requires mc > 0 && Abs(d) == TenTo(mc)
    ensures TenTo(1) == 10 && DivideAndRound(d, 10, rm) == Some(d / 10)
  {
    assert TenTo(0) == 1;
    SignedTenth(d, mc);
  }

  /** `doRound`: the loop ends after at most two rounds, with a value of at most `mc` digits. The
      caller never asks for precision zero; with it the loop would not end. */
  method DoRound(v: int, scale: int, mc: nat, rm: Mode) returns (r: Option<(int, int)>, rounds: nat)
    requires mc > 0
    ensures rounds <= 2
    ensures r.None? <==> CannotRound(v, mc, rm)
    ensures r.Some? ==> CutTo(v, mc, rm, r.value.0, scale - r.value.1)
  {
    hide TenTo, DigitCount, DivideAndRound, CutTo, CannotRound;
    CutRounds(v, mc, rm);
    rounds := 0;
    var d, s := v, scale;
    while DigitCount(Abs(d)) > mc
      invariant rounds == 0 ==> d == v && s == scale
      invariant rounds > 0 ==> Progress(v, scale, mc, rm, rounds, d, s)
      decreases Abs(d)
    {
      var drop := DigitCount(Abs(d)) - mc;
      DigitCountIs(Abs(d));
      CutDigits(d, mc, drop, rm);
      if rounds > 0 {
        ProgressDigits(v, scale, mc, rm, rounds, d, s);
        SecondRound(d, mc, rm);
      }
      var q := DivideAndRound(d, TenTo(drop), rm);
      if q.None? { return None, rounds; }
      d, s := q.value, s - drop;
      rounds := rounds + 1;
    }
    if rounds > 0 { ProgressDigits(v, scale, mc, rm, rounds, d, s); }
    return Some((d, s)), rounds;
  }
}
