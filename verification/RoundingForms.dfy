/** Division and rounding in the two forms a decimal has (src/Numbers.cpp:348-368, 743-749,
    1064-1082, 1232-1318): on two longs, and on two big integers. `Rounding.DivideAndRound` is what
    both are for; each form is stated as the code has it, with the condition under which it rounds
    as meant. The missing breaks of lines 1269-1275 are put in. */
module RoundingForms {
  import opened Wrappers
  import opened Bits
  import opened Digits
  import opened Divisibility
  import opened BigIntArithmetic
  import opened BigInts
  import opened BigPowers
  import opened DecimalDigits
  import opened BigDecimals
  import opened Rounding
  import LongOps

  /** `v / d` rounded, for a divisor of either sign. */
  function Rounded(v: int, d: int, rm: Mode): Option<int>
    requires d != 0
  {
    if d > 0 then DivideAndRound(v, d, rm) else DivideAndRound(-v, -d, rm)
  }

  predicate Half(rm: Mode) {
    rm.HalfUp? || rm.HalfDown? || rm.HalfEven?
  }

  /** The step away from zero, for a remainder that is less than, equal to or more than a half. */
  predicate Decide(rm: Mode, qsign: int, cmp: int, odd: bool)
    requires rm != Unnecessary
  {
    match rm
    case Up => true
    case Down => false
    case Ceiling => qsign > 0
    case Floor => qsign < 0
    case HalfUp => cmp >= 0
    case HalfDown => cmp > 0
    case HalfEven => cmp > 0 || (cmp == 0 && odd)
  }

  function QSign(v: int, d: int): int {
    if (v < 0) == (d < 0) then 1 else -1
  }

  /** The rounded quotient is the magnitude of the quotient with the step taken, and the sign. */
  lemma RoundedIs(v: int, d: int, rm: Mode)
    requires d != 0
    ensures var q, r := Abs(v) / Abs(d), Abs(v) % Abs(d);
            Rounded(v, d, rm) ==
              if r == 0 then Some(QSign(v, d) * q)
              else if rm == Unnecessary then None
              else Some(QSign(v, d) * if Decide(rm, QSign(v, d), Order(2 * r, Abs(d)), q % 2 == 1) then q + 1 else q)
  {
    var q, r := Abs(v) / Abs(d), Abs(v) % Abs(d);
    if v == 0 { assert q == 0 && r == 0 by { DivisionUnique(0, Abs(d), 0, 0); } }
    Signs(q);
    Signs(q + 1);
  }

  lemma Signs(q: int)
    ensures 1 * q == q && -1 * q == 0 - q
  {
  }

  // ---- Two longs ----

  /** The half test on longs, with the guard against the overflow of `2 * r`. */
  function HalfOfLong(r: int, d: int): int {
    if r <= -0x4000_0000_0000_0000 || r >= 0x3fff_ffff_ffff_ffff then 1 else Order(Abs(2 * r), Abs(d))
  }

  /** `divideAndRound` of a long by a long. */
  function CompactForm(n: LongOps.Long, d: LongOps.Long, rm: Mode): Option<int>
    requires d != 0 && n != LONG_MIN
  {
    var q, r := LongOps.CDiv(n, d), LongOps.CRem(n, d);
    if r == 0 then Some(q)
    else if rm == Unnecessary then None
    else Some(if Decide(rm, QSign(n, d), HalfOfLong(r, d), q % 2 != 0) then q + QSign(n, d) else q)
  }

  /** Exactly when a long by a long is rounded as meant: the guard of the half test is one too wide,
      so a dividend of 2^62 - 1 rounds up at the two largest divisors, where it is at most a half. */
  lemma CompactExact(n: LongOps.Long, d: LongOps.Long, rm: Mode)
    requires d != 0 && n != LONG_MIN && d != LONG_MIN
    ensures CompactForm(n, d, rm) == Rounded(n, d, rm) <==>
              !(n == 0x3fff_ffff_ffff_ffff && Half(rm) &&
                (Abs(d) == LONG_MAX || (Abs(d) == LONG_MAX - 1 && rm != HalfUp)))
  {
    var q, r := Abs(n) / Abs(d), Abs(n) % Abs(d);
    CompactIs(n, d, rm);
    RoundedIs(n, d, rm);
    hide Rounded, CompactForm;
    LongHalf(n, d);
    hide HalfOfLong;
    Signs(q);
    Signs(q + 1);
  }

  lemma CompactIs(n: LongOps.Long, d: LongOps.Long, rm: Mode)
    requires d != 0 && n != LONG_MIN && d != LONG_MIN
    ensures var q, r := Abs(n) / Abs(d), Abs(n) % Abs(d);
            CompactForm(n, d, rm) ==
              if r == 0 then Some(QSign(n, d) * q)
              else if rm == Unnecessary then None
              else Some(QSign(n, d) * if Decide(rm, QSign(n, d), HalfOfLong(LongOps.CRem(n, d), d), q % 2 == 1)
                then q + 1 else q)
  {
    hide HalfOfLong, Decide;
    var q := Abs(n) / Abs(d);
    Signs(q);
    Signs(q + 1);
  }

  /** The guard fires wrongly for one dividend only. */
  lemma LongHalf(n: LongOps.Long, d: LongOps.Long)
    requires d != 0 && n != LONG_MIN && d != LONG_MIN
    ensures var r, h := Abs(n) % Abs(d), HalfOfLong(LongOps.CRem(n, d), d);
            if n == 0x3fff_ffff_ffff_ffff && Abs(d) >= LONG_MAX - 1
            then h == 1 && r == n && n / Abs(d) == 0 && 2 * r == LONG_MAX - 1
            else r != 0 ==> h == Order(2 * r, Abs(d))
  {
    var q, r := Abs(n) / Abs(d), Abs(n) % Abs(d);
    QuotientRemainder(Abs(n), Abs(d));
    if n == 0x3fff_ffff_ffff_ffff && Abs(d) >= LONG_MAX - 1 {
      DivisionUnique(n, Abs(d), 0, n);
    } else if r >= 0x3fff_ffff_ffff_ffff && 2 * r <= Abs(d) {
      OneRemainder(Abs(n), Abs(d), q, r);
    }
  }

  lemma OneRemainder(n: nat, d: nat, q: nat, r: nat)
    requires n == q * d + r && n <= LONG_MAX && d <= LONG_MAX && r >= 0x3fff_ffff_ffff_ffff && 2 * r <= d
    ensures q == 0 && n == r == 0x3fff_ffff_ffff_ffff
  {
    if q > 0 { MulMono(d, 1, q); }
  }

  /** Rounding to a power of ten is not touched by it. */
  lemma CompactTens(n: LongOps.Long, k: nat, rm: Mode)
    requires n != LONG_MIN && k < 19
    ensures TenTo(k) <= LONG_MAX && CompactForm(n, TenTo(k), rm) == DivideAndRound(n, TenTo(k), rm)
  {
    PowersOfTen();
    TenToMonotone(k, 18);
    hide TenTo, CompactForm, DivideAndRound;
    CompactExact(n, TenTo(k), rm);
  }

  // ---- Two big integers ----

  /** The half test on big integers: the shift takes the whole difference, `(r - d) >> 1`, where
      `r - (d >> 1)` is meant. */
  function HalfOfBig(r: nat, d: int): int {
    var m := Bytewise(Abs(r - d), 2);
    if m == 0 then 0 else if r < d then -1 else 1
  }

  // The conversion of the quotient.

  /** `operator long` of a number whose array has `size` digits: the loop over them starts from the
      sign, and wraps around (src/Numbers.cpp:146-155). */
  function LongOf(n: int, size: nat): LongOps.Long {
    LongOps.Wrap((if n < 0 then 0 - Pow(size) else Pow(size)) + Abs(n))
  }

  method ToLong(x: BigInt, size: nat) returns (ret: LongOps.Long)
    requires x.Valid() && |x.digits| <= size
    ensures ret == LongOf(x.Int(), size)
  {
    hide Value, Pow, LongOps.Wrap;
    var a := Padded(x.digits, size);
    WrapSmall(x.sign);
    ret := x.sign;
    var i := size;
    FromTheTop(a);
    while i > 0
      invariant 0 <= i <= size && ret == LongOps.Wrap(x.sign * Pow(size - i) + Value(a[i..]))
      decreases i
    {
      i := i - 1;
      ValueHead(a[i..], a[i], a[i + 1..]);
      PowNext(size - i - 1);
      Associate(256, x.sign, Pow(size - i - 1));
      WrapStep(x.sign * Pow(size - i - 1) + Value(a[i + 1..]), a[i]);
      Associate(x.sign, 256, Pow(size - i - 1));
      ret := LongOps.Wrap(LongOps.Wrap(ret * 256) + a[i]);
    }
    assert a[0..] == a;
    PaddedValue(x.digits, size);
    ValueBound(x.digits);
    PowMonotone(|x.digits|, size);
    DivisionUnique(Value(x.digits), Pow(size), 0, Value(x.digits));
    Signs(Pow(size));
    ZeroValue(x);
  }

  lemma FromTheTop(a: seq<Digit>)
    ensures a[|a|..] == [] && Value(a[|a|..]) == 0 && Pow(0) == 1
  {
  }

  lemma WrapSmall(x: int)
    requires LONG_MIN <= x <= LONG_MAX
    ensures LongOps.Wrap(x) == x
  {
  }

  /** A step of a sum may be wrapped around or not. */
  lemma WrapStep(x: int, d: nat)
    ensures LongOps.Wrap(LongOps.Wrap(LongOps.Wrap(x) * 256) + d) == LongOps.Wrap(256 * x + d)
  {
    var w := LongOps.Wrap(x);
    var v := LongOps.Wrap(w * 256);
    var j: int :| x == w + j * 0x1_0000_0000_0000_0000;
    var k: int :| w * 256 == v + k * 0x1_0000_0000_0000_0000;
    SameWrap(256 * x + d, v + d, 256 * j + k);
  }

  lemma SameWrap(x: int, y: int, k: int)
    requires x == y + k * 0x1_0000_0000_0000_0000
    ensures LongOps.Wrap(x) == LongOps.Wrap(y)
  {
    hide LongOps.Wrap;
    WrapIs(x);
    WrapIs(y);
    WrapTurns(x, y, k);
  }

  lemma WrapIs(x: int)
    ensures var m := x % 0x1_0000_0000_0000_0000;
            LongOps.Wrap(x) == if m < 0x8000_0000_0000_0000 then m else m - 0x1_0000_0000_0000_0000
  {
  }

  lemma WrapTurns(x: int, y: int, k: int)
    requires x == y + k * 0x1_0000_0000_0000_0000
    ensures x % 0x1_0000_0000_0000_0000 == y % 0x1_0000_0000_0000_0000
  {
  }

  /** The unscaled value `toBigDecimal` makes of a number: zero, the number itself if it is large, and
      otherwise its conversion to a long. */
  function Converted(n: int, size: nat): int {
    if n == 0 || Abs(n) > LONG_MAX then n else LongOf(n, size)
  }

  /** The conversion of a number below 2^63: with fewer than eight digits in the array the start from
      the sign stays in; with eight or more it is lost, and the sign with it. */
  lemma ConvertedIs(n: int, size: nat)
    requires Abs(n) < Pow(size) && Abs(n) <= LONG_MAX
    ensures LongOf(n, size) ==
              if size >= 8 then Abs(n) else if n < 0 then Abs(n) - Pow(size) else Abs(n) + Pow(size)
    ensures LongOf(n, size) != LONG_MIN && (size < 8 ==> Pow(size) <= 0x100_0000_0000_0000)
  {
    hide Pow, LongOps.Wrap;
    EightDigits();
    PowNext(7);
    if size >= 8 {
      PowSum(8, size - 8);
      SameWrap(Abs(n) + Pow(size), Abs(n), Pow(size - 8));
      SameWrap(Abs(n) - Pow(size), Abs(n), 0 - Pow(size - 8));
      WrapSmall(Abs(n));
    } else {
      PowMonotone(size, 7);
      WrapSmall((if n < 0 then 0 - Pow(size) else Pow(size)) + Abs(n));
    }
  }

  /** Exactly when `toBigDecimal` keeps a number held in an array of `size` digits. */
  lemma ConvertedExact(n: int, size: nat)
    requires Abs(n) < Pow(size)
    ensures Converted(n, size) == n <==>
              n == 0 || Abs(n) > LONG_MAX || (n > 0 && size >= 8) || (n < 0 && size < 8 && 2 * Abs(n) == Pow(size))
  {
    hide Pow, LongOf;
    if Abs(n) <= LONG_MAX { ConvertedIs(n, size); }
  }

  /** `toBigDecimal`; the sign it is handed is not looked at. */
  method ToBigDecimal(x: BigInt, size: nat, scale: int) returns (d: BigDecimal)
    requires x.Valid() && |x.digits| <= size && INT_MIN <= scale <= INT_MAX
    ensures Is(d, Converted(x.Int(), size), scale)
  {
    hide Value, Pow, LongOf, HasDigits;
    ZeroValue(x);
    if IsZero(x) {
      d := ValueOf(0, scale);
      return;
    }
    LongDigits(x);
    if |x.digits| > 8 || (|x.digits| == 8 && x.digits[7] >= 128) {
      d := BigDecimal(Some(x), INFLATED, scale, 0);
      return;
    }
    ValueBound(x.digits);
    PowMonotone(|x.digits|, size);
    ConvertedIs(x.Int(), size);
    var l := ToLong(x, size);
    d := BigDecimal(None, l, scale, 0);
  }

  /** Eight digits whose top bit is clear make a long. */
  lemma LongDigits(x: BigInt)
    requires x.Valid()
    ensures Abs(x.Int()) > LONG_MAX <==> |x.digits| > 8 || (|x.digits| == 8 && x.digits[7] >= 128)
  {
    hide Value, Pow;
    EightDigits();
    PowNext(7);
    ValueBound(x.digits);
    TrimmedLarge(x.digits);
    if |x.digits| > 8 {
      PowMonotone(8, |x.digits| - 1);
    } else if |x.digits| == 8 {
      TopDigit(x.digits);
    } else {
      PowMonotone(|x.digits|, 7);
    }
  }

  lemma TopDigit(s: seq<Digit>)
    requires |s| == 8 && Pow(7) == 0x100_0000_0000_0000
    ensures Value(s) > LONG_MAX <==> s[7] >= 128
  {
    hide Value, Pow;
    assert s == s[..7] + [s[7]];
    ValueAppend(s[..7], s[7]);
    ValueBound(s[..7]);
  }

  /** The quotient of the magnitudes, and what remains. */
  function Quo(v: int, d: int): (q: nat)
    requires d != 0
    ensures q <= Abs(v) && (q == 0 <==> Abs(v) < Abs(d))
  {
    SmallQuotient(Abs(v), Abs(d));
    QuotientRemainder(Abs(v), Abs(d));
    MulMono(Abs(v) / Abs(d), 1, Abs(d));
    Abs(v) / Abs(d)
  }

  function Rest(v: int, d: int): (r: nat)
    requires d != 0
    ensures r < Abs(d) && (Abs(v) < Abs(d) ==> r == Abs(v))
  {
    if Abs(v) < Abs(d) then Abs(v) else Abs(v) % Abs(d)
  }

  /** Does the code add one to the quotient? */
  predicate Steps(v: int, d: int, rm: Mode)
    requires d != 0
  {
    Rest(v, d) != 0 && rm != Unnecessary && Decide(rm, QSign(v, d), HalfOfBig(Rest(v, d), d), Quo(v, d) % 2 == 1)
  }

  /** `divideAndRound` of a big integer by a big integer. The quotient comes in an array of as many
      digits as the dividend has, and the quotient with one added in an array of one digit more than
      its own; `toBigDecimal` converts it and makes nothing of the sign it is handed. */
  function BigForm(v: int, d: int, rm: Mode): Option<int>
    requires d != 0
  {
    if Rest(v, d) != 0 && rm == Unnecessary then None
    else if Steps(v, d, rm) then Some(Converted(Quo(v, d) + 1, Width(Quo(v, d)) + 1))
    else Some(Converted(Quo(v, d), Width(Abs(v))))
  }

  /** Does the conversion keep the quotient? A quotient with one added needs seven digits before, and
      one without comes from a dividend of eight, or is zero. */
  predicate Survives(v: int, d: int, rm: Mode)
    requires d != 0
  {
    if Steps(v, d, rm) then Quo(v, d) >= 0x1_0000_0000_0000
    else Quo(v, d) == 0 || Abs(v) >= 0x100_0000_0000_0000
  }

  /** Does the half test come out as it should, for a quotient `q` and a remainder `r`? The difference
      counts as nothing when none of its bytes is above one. */
  predicate HalfServes(q: nat, r: nat, d: int, rm: Mode) {
    var small := BytesBelow(Abs(r - d), 2);
    match rm
    case HalfUp => 2 * r >= Abs(d) <==> small || d < 0
    case HalfDown => 2 * r > Abs(d) <==> !small && d < 0
    case HalfEven =>
      if 2 * r == Abs(d) then if q % 2 == 1 then small || d < 0 else small || d > 0
      else if 2 * r > Abs(d) then if small then q % 2 == 1 else d < 0
      else if small then q % 2 == 0 else d > 0
    case _ => true
  }

  /** Is a quotient of unlike signs rounded to zero? */
  predicate RoundsToZero(v: int, d: int, rm: Mode) {
    Abs(v) < Abs(d) &&
    (v == 0 ||
     match rm
     case Down => true
     case Ceiling => true
     case HalfUp => 2 * Abs(v) < Abs(d)
     case HalfDown => 2 * Abs(v) <= Abs(d)
     case HalfEven => 2 * Abs(v) <= Abs(d)
     case _ => false)
  }

  /** Exactly when a big integer by a big integer is rounded as meant: the quotient must not be
      negative, the half test must come out right, and the quotient must survive its conversion. */
  lemma BigExact(v: int, d: int, rm: Mode)
    requires d != 0
    ensures BigForm(v, d, rm) == Rounded(v, d, rm) <==>
              (Rest(v, d) != 0 && rm == Unnecessary) ||
              ((Rest(v, d) == 0 || HalfServes(Quo(v, d), Rest(v, d), d, rm)) &&
               (QSign(v, d) == 1 || RoundsToZero(v, d, rm)) && Survives(v, d, rm))
  {
    RoundedSteps(v, d, rm);
    hide Rounded, HalfServes, HalfOfBig;
    if Rest(v, d) == 0 || rm != Unnecessary {
      if Rest(v, d) != 0 { StepServes(v, d, rm); }
      ConvertedQuotient(v, d, rm);
      ToZero(v, d, rm);
    }
    hide Converted, Width, Quo, Rest, Survives, Steps, Decide, RoundsToZero;
  }

  /** `RoundedIs`, in the terms of the big form. */
  lemma RoundedSteps(v: int, d: int, rm: Mode)
    requires d != 0
    ensures Rounded(v, d, rm) ==
              if Rest(v, d) == 0 then Some(QSign(v, d) * Quo(v, d))
              else if rm == Unnecessary then None
              else Some(QSign(v, d) * if MeantToStep(v, d, rm) then Quo(v, d) + 1 else Quo(v, d))
    ensures QSign(v, d) * Quo(v, d) == (if QSign(v, d) == 1 then Quo(v, d) else 0 - Quo(v, d))
    ensures QSign(v, d) * (Quo(v, d) + 1) == (if QSign(v, d) == 1 then Quo(v, d) + 1 else 0 - Quo(v, d) - 1)
  {
    hide Rounded, Decide;
    RoundedIs(v, d, rm);
    Signs(Quo(v, d));
    Signs(Quo(v, d) + 1);
    if Abs(v) < Abs(d) { DivisionUnique(Abs(v), Abs(d), 0, Abs(v)); }
  }

  predicate MeantToStep(v: int, d: int, rm: Mode)
    requires d != 0 && rm != Unnecessary
  {
    Decide(rm, QSign(v, d), Order(2 * Rest(v, d), Abs(d)), Quo(v, d) % 2 == 1)
  }

  /** The half test comes out right exactly when it decides as meant. */
  lemma StepServes(v: int, d: int, rm: Mode)
    requires d != 0 && rm != Unnecessary && Rest(v, d) != 0
    ensures HalfServes(Quo(v, d), Rest(v, d), d, rm) <==> (Steps(v, d, rm) <==> MeantToStep(v, d, rm))
  {
    hide BytesBelow, Bytewise, Quo, Rest;
    HalfNothing(Abs(Rest(v, d) - d));
  }

  /** What is of unlike signs is rounded to zero when there is nothing to take a step from. */
  lemma ToZero(v: int, d: int, rm: Mode)
    requires d != 0 && (Rest(v, d) == 0 || rm != Unnecessary)
    ensures QSign(v, d) == -1 ==>
              (RoundsToZero(v, d, rm) <==> Quo(v, d) == 0 && (Rest(v, d) != 0 ==> !MeantToStep(v, d, rm)))
  {
    hide Quo, Rest;
  }

  /** What the quotient is converted to: itself, or something larger than any quotient in question. */
  lemma ConvertedQuotient(v: int, d: int, rm: Mode)
    requires d != 0 && (Rest(v, d) == 0 || rm != Unnecessary)
    ensures BigForm(v, d, rm).Some?
    ensures var m, c := if Steps(v, d, rm) then Quo(v, d) + 1 else Quo(v, d), BigForm(v, d, rm).value;
            if Survives(v, d, rm) then c == m else c > m + 1
  {
    hide Pow, Width, Steps, Converted, Quo, Rest;
    var q := Quo(v, d);
    EightDigits();
    PowNext(7);
    PowNext(6);
    if Steps(v, d, rm) {
      WidthIs(q);
      PowNext(Width(q));
      WidthAtMost(q, 6);
      SurvivesAt(q + 1, Width(q) + 1);
    } else {
      WidthIs(Abs(v));
      WidthAtMost(Abs(v), 7);
      SurvivesAt(q, Width(Abs(v)));
    }
  }

  lemma SurvivesAt(m: nat, size: nat)
    requires m < Pow(size) && size > 0
    ensures if m == 0 || size >= 8 || m > LONG_MAX then Converted(m, size) == m else Converted(m, size) > m + 1
    ensures size < 8 ==> m <= LONG_MAX
  {
    hide LongOf;
    EightDigits();
    PowNext(7);
    PowNext(size - 1);
    hide Pow;
    if m <= LONG_MAX { ConvertedIs(m, size); }
    if size < 8 { PowMonotone(size, 7); }
  }

  lemma HalfNothing(n: nat)
    ensures Bytewise(n, 2) == 0 <==> BytesBelow(n, 2)
  {
    BytesHalved(n, 1);
    NoBytes(Bytewise(n, 2));
  }

  /** Nine tenths of ten to the power 20, rounded half up: the code makes it 0 in place of 1. */
  lemma BigHalfWrong()
    ensures BigForm(90_000_000_000_000_000_000, 100_000_000_000_000_000_000, HalfUp) == Some(0)
    ensures Rounded(90_000_000_000_000_000_000, 100_000_000_000_000_000_000, HalfUp) == Some(1)
  {
    var m := 10_000_000_000_000_000_000;
    hide Bytewise, BytesBelow, LongOf, Width;
    HalfNothing(m);
    assert m / 256 == 39_062_500_000_000_000 && m / 256 / 256 == 152_587_890_625_000;
    BytesOfStep(m, 2);
    BytesOfStep(m / 256, 2);
    BytesOfStep(m / 256 / 256, 2);
  }

  /** An exact quotient loses its sign, and below 2^56 its value. */
  lemma BigSignLost(t: int)
    requires t > 0
    ensures BigForm(-t, t, HalfUp) == Some(if t >= 0x100_0000_0000_0000 then 1 else 1 + Pow(Width(t)))
    ensures Rounded(-t, t, HalfUp) == Some(0 - 1)
  {
    hide Pow, Width, LongOf;
    DivisionUnique(t, t, 1, 0);
    EightDigits();
    PowNext(7);
    WidthIs(t);
    WidthAtMost(t, 7);
    ConvertedIs(1, Width(t));
  }

  /** The quotient of 10^19 - 1 by 10^19, and that of 9 * 10^19 by 10^20 rounded up, should be 1: the
      one is added in an array of two digits, and the conversion makes 65537 of it. */
  lemma ConversionWrong()
    ensures BigForm(9_999_999_999_999_999_999, 10_000_000_000_000_000_000, HalfUp) == Some(65537)
    ensures Rounded(9_999_999_999_999_999_999, 10_000_000_000_000_000_000, HalfUp) == Some(1)
    ensures BigForm(90_000_000_000_000_000_000, 100_000_000_000_000_000_000, Mode.Up) == Some(65537)
    ensures Rounded(90_000_000_000_000_000_000, 100_000_000_000_000_000_000, Mode.Up) == Some(1)
  {
    TwoDigitArray();
    ByteHalf(1);
    hide Converted, Width, Bytewise;
  }

  /** Zero with one added. */
  lemma TwoDigitArray()
    ensures Width(0) == 1 && Converted(1, 2) == 65537
  {
    PowNext(0);
    PowNext(1);
    BigInts.NoDigits();
    hide Pow, LongOf;
    ConvertedIs(1, 2);
  }

  lemma ByteHalf(d: Digit)
    ensures Bytewise(d, 2) == d / 2
  {
  }

  lemma BytesOfStep(n: nat, b: nat)
    requires n > 0
    ensures BytesBelow(n, b) <==> n % 256 < b && BytesBelow(n / 256, b)
  {
  }

  /** The big form on big integers; None where the code throws because rounding would be necessary. */
  method DivideBig(v: BigInt, d: BigInt, rm: Mode, scale: int) returns (o: Option<BigDecimal>)
    requires v.Valid() && d.Valid() && d.Int() != 0 && INT_MIN <= scale <= INT_MAX
    ensures o.None? <==> BigForm(v.Int(), d.Int(), rm).None?
    ensures o.Some? ==> Is(o.value, BigForm(v.Int(), d.Int(), rm).value, scale)
  {
    hide Value, Pow, Width, HalfOfBig, Decide, Converted, HasDigits, Is;
    var mq, mr := Parts(v, d);
    hide Quo, Rest;
    ZeroValue(mr);
    QuotientFits(v, mq);
    var size := |v.digits|;
    if IsZero(mr) {
      var exact := ToBigDecimal(mq, size, scale);
      return Some(exact);
    }
    if rm == Unnecessary { return None; }
    var up := RoundUp(v, d, mq, mr, rm);
    if up {
      var one := FromLong(1);
      size := |mq.digits| + 1;
      mq := BigInts.Plus(mq, one);
      NextFits(mq, size);
    }
    var rounded := ToBigDecimal(mq, size, scale);
    o := Some(rounded);
  }

  method Parts(v: BigInt, d: BigInt) returns (mq: BigInt, mr: BigInt)
    requires v.Valid() && d.Valid() && d.Int() != 0
    ensures mq.Valid() && mr.Valid() && mq.Int() == Quo(v.Int(), d.Int()) && mr.Int() == Rest(v.Int(), d.Int())
  {
    var dz;
    dz, mq, mr := DivRem(v, d);
    if Abs(v.Int()) < Abs(d.Int()) { DivisionUnique(Abs(v.Int()), Abs(d.Int()), 0, Abs(v.Int())); }
  }

  method RoundUp(v: BigInt, d: BigInt, mq: BigInt, mr: BigInt, rm: Mode) returns (up: bool)
    requires v.Valid() && d.Valid() && d.Int() != 0 && rm != Unnecessary
    requires mq.Valid() && mr.Valid() && mq.Int() == Quo(v.Int(), d.Int()) && mr.Int() == Rest(v.Int(), d.Int()) > 0
    ensures up <==> Steps(v.Int(), d.Int(), rm)
  {
    hide Value, HalfOfBig, Decide, Quo, Rest;
    ZeroValue(v);
    OneDigit(mq);
    var cmp := HalfTest(mr, d);
    var qsign := if v.sign == d.sign then 1 else -1;
    up := Decide(rm, qsign, cmp, mq.digits[0] % 2 == 1);
  }

  /** The quotient has no more digits than the dividend. */
  lemma QuotientFits(v: BigInt, mq: BigInt)
    requires v.Valid() && mq.Valid() && 0 <= mq.Int() <= Abs(v.Int())
    ensures |mq.digits| <= |v.digits| == Width(Abs(v.Int())) && |mq.digits| == Width(mq.Int())
  {
    hide Value, Width;
    TrimmedWidth(v.digits);
    TrimmedWidth(mq.digits);
    WidthAtMost(Abs(v.Int()), |v.digits|);
    WidthAtMost(mq.Int(), |v.digits|);
  }

  lemma NextFits(mq: BigInt, size: nat)
    requires mq.Valid() && mq.Int() > 0 && size == Width(mq.Int() - 1) + 1
    ensures |mq.digits| <= size
  {
    hide Value, Width, Pow;
    TrimmedWidth(mq.digits);
    WidthIs(mq.Int() - 1);
    PowNext(size - 1);
    WidthAtMost(mq.Int(), size);
  }

  method HalfTest(mr: BigInt, d: BigInt) returns (cmp: int)
    requires mr.Valid() && d.Valid() && 0 <= mr.Int() < Abs(d.Int())
    ensures cmp == HalfOfBig(mr.Int(), d.Int())
  {
    hide Value, Bytewise;
    var difference := Minus(mr, d);
    var half := ShiftRight(difference, 1);
    ShiftedSignum(difference, half);
    ZeroValue(difference);
    cmp := Signum(half);
  }

  lemma ShiftedSignum(x: BigInt, half: BigInt)
    requires x.Valid() && Trimmed(half.digits) && (half.sign == 1 || half.sign == -1)
    requires half.Int() == ShiftOf(x, 1) && (x.sign == 1 ==> half.Valid()) && half.sign == x.sign
    ensures Signum(half) == if Bytewise(Abs(x.Int()), 2) == 0 then 0 else x.sign
  {
    hide Value, Bytewise;
    ByOne(Value(x.digits));
    hide ShiftedBytes;
    ZeroString();
    if Value(half.digits) == 0 { TrimmedUnique(half.digits, [0]); }
  }

  lemma ZeroString()
    ensures Trimmed([0]) && Value([0]) == 0
  {
  }

  lemma ByOne(v: nat)
    ensures ShiftedBytes(v, 1) == Bytewise(v, 2)
  {
    hide Bytewise;
    assert Pow(0) == 1 && Pow2(1) == 2 by { assert Pow2(0) == 1; }
  }

  // ---- A big integer by a long ----

  /** Is one of the numbers that the loops of `divide` gather from the top digits too large for a long? */
  ghost predicate Overflows(s: seq<Digit>, y: nat)
    requires y > 0
  {
    exists k :: 0 <= k <= |s| && Gathered(s, y, k) > LONG_MAX
  }

  /** What is gathered once the digits from `k` on have been taken in. */
  ghost function Gathered(s: seq<Digit>, y: nat, k: nat): nat
    requires y > 0 && k <= |s|
  {
    Value(s[k..]) % (256 * y)
  }

  /** A divisor up to 2^55 is safe. */
  lemma SmallDivisor(s: seq<Digit>, y: nat)
    requires 0 < y <= 0x80_0000_0000_0000
    ensures !Overflows(s, y)
  {
    hide Value;
  }

  /** `BigInt::divide(long)` on the magnitudes: the first loop gathers digits until they reach the
      divisor, the second goes through the rest but never divides what the last one leaves. Where the
      first loop runs out of digits the quotient is not touched. */
  method DivideByLong(x: BigInt, d: LongOps.Long)
    returns (divideByZero: bool, overflow: bool, q: Option<seq<Digit>>, r: nat)
    requires x.Valid() && d != LONG_MIN
    ensures divideByZero <==> d == 0
    ensures !divideByZero ==> (overflow <==> Overflows(x.digits, Abs(d)))
    ensures !divideByZero && !overflow ==> (q.None? <==> Abs(x.Int()) < 256 * Abs(d))
    ensures !divideByZero && !overflow ==>
              LongStops(Abs(x.Int()), Abs(d), if q.Some? then Value(q.value) else 0, r)
  {
    hide Value, Gathered;
    if d == 0 { return true, false, None, 0; }
    divideByZero := false;
    var i, ret;
    overflow, i, ret := Gather(x.digits, Abs(d));
    if overflow { return false, true, None, 0; }
    if i == 0 {
      UniqueQuotient(ret, 256 * Abs(d), 0, ret);
      return false, false, None, ret;
    }
    var z;
    overflow, z, ret := DivideRest(x.digits, i, Abs(d), ret);
    return false, overflow, Some(z), ret;
  }

  /** The first loop: the digits from `i` on reach the divisor, or there are no more. */
  method Gather(s: seq<Digit>, y: nat) returns (overflow: bool, i: nat, ret: nat)
    requires y > 0
    ensures overflow ==> Overflows(s, y)
    ensures !overflow ==> i <= |s| && ret == Value(s[i..]) && ret < 256 * y && (i > 0 ==> ret >= y)
    ensures !overflow ==> forall k | i <= k <= |s| :: Gathered(s, y, k) <= LONG_MAX
    ensures i == 0 ==> s[0..] == s
  {
    hide Value;
    i, ret := |s|, 0;
    ZeroDigitsValue(s);
    SmallQuotient(ret, y);
    UniqueQuotient(0, 256 * y, 0, 0);
    while ret / y == 0 && i > 0
      invariant i <= |s| && ret == Value(s[i..]) && ret < 256 * y
      invariant ret / y == 0 <==> ret < y
      invariant forall k | i <= k <= |s| :: Gathered(s, y, k) <= LONG_MAX
      decreases i
    {
      i := i - 1;
      ValueHead(s[i..], s[i], s[i + 1..]);
      ret := ret * 256 + s[i];
      UniqueQuotient(ret, 256 * y, 0, ret);
      assert Gathered(s, y, i) == ret;
      if ret > LONG_MAX { return true, i, ret; }
      SmallQuotient(ret, y);
    }
    overflow := false;
  }

  /** The second loop, over the digits below `first`. */
  method DivideRest(s: seq<Digit>, first: nat, y: nat, start: nat)
    returns (overflow: bool, z: seq<Digit>, ret: nat)
    requires 0 < first <= |s| && start == Value(s[first..]) && y <= start < 256 * y
    requires forall k | first <= k <= |s| :: Gathered(s, y, k) <= LONG_MAX
    ensures Value(s) >= 256 * y && (overflow <==> Overflows(s, y))
    ensures !overflow ==> LongStops(Value(s), y, Value(z), ret)
  {
    hide Value, LongStops, Gathered;
    ZeroDigitsValue(s);
    z, ret := [], start;
    overflow := false;
    var i := first;
    while i > 0
      invariant 0 <= i <= first && Between(Value(s[i..]), y, Value(z), ret)
      invariant Value(s[i..]) >= (if i < first then 256 * y else y)
      invariant overflow ==> Overflows(s, y)
      invariant !overflow ==> forall k | i <= k <= |s| :: Gathered(s, y, k) <= LONG_MAX
    {
      i := i - 1;
      RestStep(s, i, y, z, ret);
      z := [ret / y] + z;
      ret := (ret % y) * 256 + s[i];
      if ret > LONG_MAX { overflow := true; }
    }
    StopsAt(Value(s), y, Value(z), ret);
  }

  lemma RestStep(s: seq<Digit>, i: nat, y: nat, z: seq<Digit>, ret: nat)
    requires i < |s| && y > 0 && Between(Value(s[i + 1..]), y, Value(z), ret) && Value(s[i + 1..]) >= y
    ensures ret / y < 256 && Between(Value(s[i..]), y, Value([ret / y] + z), (ret % y) * 256 + s[i])
    ensures Value(s[i..]) >= 256 * y && Gathered(s, y, i) == (ret % y) * 256 + s[i]
  {
    hide Value, Between;
    ValueHead(s[i..], s[i], s[i + 1..]);
    LongStep(Value(s[i + 1..]), s[i], y, Value(z), ret);
    ValueHead([ret / y] + z, ret / y, z);
    StopsAt(Value(s[i..]), y, Value([ret / y] + z), (ret % y) * 256 + s[i]);
  }

  /** `q` and `r` divide `v` by 256 times `y`. */
  ghost predicate Between(v: nat, y: nat, q: nat, r: nat) {
    v == (256 * y) * q + r && r < 256 * y
  }

  lemma StopsAt(v: nat, y: nat, q: nat, r: nat)
    requires y > 0 && Between(v, y, q, r)
    ensures LongStops(v, y, q, r)
  {
    UniqueQuotient(v, 256 * y, q, r);
  }

  lemma ZeroDigitsValue(s: seq<Digit>)
    ensures s[|s|..] == [] && Value(s[|s|..]) == 0 && Value([]) == 0 && s[0..] == s
  {
  }

  /** What `divide` comes to: the division by 256 times the divisor. */
  ghost predicate LongStops(v: nat, y: nat, q: nat, r: nat)
    requires y > 0
  {
    q == v / (256 * y) && r == v % (256 * y)
  }

  lemma LongStep(h: nat, d: Digit, y: nat, z: nat, ret: nat)
    requires y > 0 && Between(h, y, z, ret)
    ensures ret / y < 256 && Between(d + 256 * h, y, ret / y + 256 * z, (ret % y) * 256 + d)
  {
    DivMod(ret, y);
    if ret / y >= 256 { MulMono(y, 256, ret / y); }
    Distribute(ret / y, 256 * z, 256 * y);
    Associate(256, y, ret / y);
    Associate(256 * y, 256, z);
  }

  /** Exactly when `divide` returns the quotient and the remainder: when there was nothing to divide. */
  lemma LongExact(v: nat, y: nat, q: nat, r: nat)
    requires y > 0 && LongStops(v, y, q, r)
    ensures q == v / y && r == v % y <==> v < y
  {
    DivMod(v, y);
    DivMod(v, 256 * y);
    if v < y {
      UniqueQuotient(v, y, 0, v);
      UniqueQuotient(v, 256 * y, 0, v);
    } else if q == v / y && r == v % y {
      Associate(256, y, q);
    }
  }

  // ---- Changing the scale ----

  /** What `setScale` comes to: a number, its two errors, or a division of big integers (for which see
      `DivideBig` and `DivideByLong`). */
  datatype Rescaled = Scaled(d: BigDecimal) | ScaleOverflow | RoundingNecessary | BigDivision

  /** The unscaled value raised with the digits counted along. */
  lemma DigitsRaised(v: nat, p: nat, n: nat)
    requires v > 0 && HasDigits(v, p)
    ensures HasDigits(v * TenTo(n), p + n)
  {
    TenToSum(p, n);
    TenToSum(p - 1, n);
    LeadingOne(v, p);
    RaisedBounds(v, TenTo(p - 1), TenTo(p), TenTo(n));
    assert p - 1 + n == p + n - 1;
  }

  lemma LeadingOne(v: nat, p: nat)
    requires v > 0 && HasDigits(v, p)
    ensures TenTo(p - 1) <= v < TenTo(p)
  {
    assert TenTo(0) == 1;
  }

  lemma RaisedBounds(v: nat, low: nat, high: nat, t: nat)
    requires low <= v < high && t > 0
    ensures low * t <= v * t < high * t
  {
    MulMono(t, low, v);
    Digits.Scaled(t, v, high);
  }

  /** `setScale`: for a larger scale the unscaled value is raised by what `pow` makes of the power of ten
      (see `RaiseExact`), for a smaller one it is rounded. Where the power is right so is the number,
      with its precision. */
  method SetScale(d: BigDecimal, newscale: int, rm: Mode, pow: Source) returns (o: Rescaled)
    requires Valid(d) && INT_MIN <= newscale <= INT_MAX
    ensures newscale == d.scale ==> o == Scaled(d)
    ensures o.ScaleOverflow? <==> Unscaled(d) != 0 && Abs(newscale - d.scale) > INT_MAX
    ensures o.BigDivision? ==> d.scale - newscale > 0 && (d.intCompact == INFLATED || d.scale - newscale >= 19)
    ensures o.RoundingNecessary? ==>
              d.scale > newscale && rm == Unnecessary && !Divides(TenTo(d.scale - newscale), Abs(Unscaled(d)))
    ensures o.Scaled? && newscale > d.scale ==>
              && Shaped(o.d) && o.d.scale == newscale && Unscaled(o.d) == RaisedBy(d, newscale - d.scale, pow)
              && (RaisedBy(d, newscale - d.scale, pow) == Unscaled(d) * TenTo(newscale - d.scale) ==> Valid(o.d))
    ensures o.Scaled? && newscale < d.scale ==>
              Valid(o.d) && o.d.scale == newscale &&
              IsRounded(Unscaled(d), TenTo(d.scale - newscale), rm, Unscaled(o.d))
  {
    hide TenTo, IsRounded, Divides, HasDigits, TenPower;
    if newscale == d.scale { return Scaled(d); }
    var b := Inflate(d);
    ZeroValue(b);
    if IsZero(b) {
      var z := ValueOf(0, newscale);
      ZeroScaled(newscale - d.scale, rm);
      return Scaled(z);
    }
    if newscale > d.scale {
      var raise := CheckScale(newscale - d.scale);
      if raise.None? { return ScaleOverflow; }
      var r := RaiseScale(d, raise.value, newscale, pow);
      return Scaled(r);
    }
    var drop := CheckScale(d.scale - newscale);
    if drop.None? { return ScaleOverflow; }
    if d.intCompact == INFLATED || drop.value >= 19 { return BigDivision; }
    var q := DropScale(d.intCompact, drop.value, rm);
    if q.None? { return RoundingNecessary; }
    var r := ValueOf(q.value, newscale);
    return Scaled(r);
  }

  lemma ZeroScaled(n: int, rm: Mode)
    ensures n >= 0 ==> 0 * TenTo(n) == 0
    ensures n < 0 ==> IsRounded(0, TenTo(-n), rm, 0)
  {
    hide TenTo;
  }

  method RaiseScale(d: BigDecimal, raise: int, newscale: int, pow: Source) returns (r: BigDecimal)
    requires Valid(d) && Unscaled(d) != 0 && 0 < raise <= INT_MAX
    requires INT_MIN <= newscale <= INT_MAX
    ensures Shaped(r) && r.scale == newscale && Unscaled(r) == RaisedBy(d, raise, pow)
    ensures RaisedBy(d, raise, pow) == Unscaled(d) * TenTo(raise) ==> Valid(r)
  {
    hide TenTo, HasDigits, StaysCompact;
    var o := Raise(d, raise, pow);
    hide RaisedBy;
    LongOps.AbsProduct(Unscaled(d), TenTo(raise));
    if d.precision > 0 { DigitsRaised(Abs(Unscaled(d)), d.precision, raise); }
    r := BigDecimal(o.big, o.compact, newscale, if d.precision > 0 then d.precision + raise else 0);
  }

  /** One at scale 0, brought to scale 19: ten to the power 32 at scale 19, or 51. */
  lemma ScaleWrong(d: BigDecimal)
    requires d == BigDecimal(None, 1, 0, 0)
    ensures Valid(d) && RaisedBy(d, 19, AsWritten) == TenTo(32) != Unscaled(d) * TenTo(19)
    ensures RaisedBy(d, 19, LineRepaired) == TenTo(51) != Unscaled(d) * TenTo(19)
  {
    hide TenTo, PowOf;
    var y := BigDecimal(None, 1, 19, 0);
    PlusWrong(d, y);
    hide RaisedBy;
    assert SumAt(d, y) == Unscaled(d) * TenTo(19) + 1;
  }

  method DropScale(n: LongOps.Long, drop: nat, rm: Mode) returns (q: Option<LongOps.Long>)
    requires n != LONG_MIN && 0 < drop < 19
    ensures q.Some? ==> IsRounded(n, TenTo(drop), rm, q.value)
    ensures q.None? ==> rm == Unnecessary && !Divides(TenTo(drop), Abs(n))
    ensures DivideAndRound(n, TenTo(drop), rm) == if q.Some? then Some(q.value) else None
    ensures q.Some? ==> q.value != LONG_MIN
  {
    CompactTens(n, drop, rm);
    DivideAndRoundCorrect(n, TenTo(drop), rm);
    hide TenTo, IsRounded, Divides;
    var t: nat := LONG_TEN_POWERS(drop);
    CompactFits(n, t, rm);
    var o := CompactForm(n, t, rm);
    if o.Some? { q := Some(o.value); } else { q := None; }
  }

  // ---- Cutting a compact number down to a precision ----

  /** Cutting the digits would take the scale out of the range of an int. */
  ghost predicate CutsTooFar(v: int, scale: int, mc: nat, rm: Mode)
    requires mc > 0
  {
    var n := DigitCount(Abs(v));
    n > mc && (scale - (n - mc) < INT_MIN || (Cut(v, mc, rm).Some? && scale - Cut(v, mc, rm).value.1 < INT_MIN))
  }

  /** `doRound` of a compact number, as the code has it: the table of powers of ten serves every round,
      and so the rounding is as meant. The second round, after a carry out of the top digit, is the last. */
  method DoRoundCompact(d: BigDecimal, mc: nat, rm: Mode) returns (o: Rescaled, ghost rounds: nat)
    requires Valid(d) && d.intCompact != INFLATED && mc > 0
    ensures rounds <= 2 && !o.BigDivision?
    ensures o.ScaleOverflow? <==> CutsTooFar(Unscaled(d), d.scale, mc, rm)
    ensures o.RoundingNecessary? ==> CannotRound(Unscaled(d), mc, rm)
    ensures o.Scaled? ==> Valid(o.d) && CutTo(Unscaled(d), mc, rm, Unscaled(o.d), d.scale - o.d.scale)
  {
    hide TenTo, DigitCount, DivideAndRound, CutTo, CannotRound, HasDigits;
    ghost var v := Unscaled(d);
    CutRounds(v, mc, rm);
    rounds := 0;
    var e := d;
    var p := GetPrecision(e);
    DigitsCounted(e.intCompact, p);
    while p > mc
      invariant Valid(e) && e.intCompact != INFLATED && p == DigitCount(Abs(Unscaled(e))) <= 19
      invariant rounds == 0 ==> e == d
      invariant rounds > 0 ==> Progress(v, d.scale, mc, rm, rounds, Unscaled(e), e.scale)
      decreases Abs(Unscaled(e))
    {
      var step := CutOnce(e, p, mc, rm);
      if rounds > 0 {
        ProgressDigits(v, d.scale, mc, rm, rounds, Unscaled(e), e.scale);
        SecondRound(Unscaled(e), mc, rm);
      }
      if !step.Scaled? { return step, rounds; }
      e := step.d;
      p := GetPrecision(e);
      DigitsCounted(e.intCompact, p);
      rounds := rounds + 1;
    }
    if rounds > 0 { ProgressDigits(v, d.scale, mc, rm, rounds, Unscaled(e), e.scale); }
    return Rescaled.Scaled(e), rounds;
  }

  /** The body of the loop. */
  method CutOnce(e: BigDecimal, p: nat, mc: nat, rm: Mode) returns (o: Rescaled)
    requires Valid(e) && e.intCompact != INFLATED && 0 < mc < p == DigitCount(Abs(Unscaled(e))) <= 19
    ensures !o.BigDivision? && (o.ScaleOverflow? <==> e.scale - (p - mc) < INT_MIN)
    ensures o.RoundingNecessary? ==> DivideAndRound(Unscaled(e), TenTo(p - mc), rm) == None
    ensures o.Scaled? ==>
              && Valid(o.d) && o.d.intCompact != INFLATED && o.d.scale == e.scale - (p - mc)
              && DivideAndRound(Unscaled(e), TenTo(p - mc), rm) == Some(Unscaled(o.d))
              && Abs(Unscaled(o.d)) < Abs(Unscaled(e))
  {
    hide TenTo, DigitCount, DivideAndRound, HasDigits, IsRounded, Divides;
    var drop := p - mc;
    DigitCountIs(Abs(Unscaled(e)));
    CutDigits(Unscaled(e), mc, drop, rm);
    var newScale := CheckScale(e.scale - drop);
    if newScale.None? { return ScaleOverflow; }
    var q := DropScale(e.intCompact, drop, rm);
    if q.None? { return RoundingNecessary; }
    o := Rescaled.Scaled(BigDecimal(None, q.value, newScale.value, 0));
  }

  lemma DigitsCounted(n: LongOps.Long, p: nat)
    requires n != LONG_MIN && HasDigits(Abs(n), p)
    ensures p == DigitCount(Abs(n)) <= 19
  {
    DigitCountIs(Abs(n));
    HasDigitsUnique(Abs(n), p, DigitCount(Abs(n)));
    PowersOfTen();
    if p > 19 { TenToMonotone(19, p - 1); }
  }

  /** The table of the powers of ten that are longs. */
  function LONG_TEN_POWERS(i: nat): (t: LongOps.Long)
    requires i < 19
    ensures t == TenTo(i)
  {
    PowersOfTen();
    TenToMonotone(i, 18);
    TenTo(i)
  }

  /** The rounded quotient is a long again. */
  lemma CompactFits(n: LongOps.Long, d: LongOps.Long, rm: Mode)
    requires n != LONG_MIN && d > 0
    ensures CompactForm(n, d, rm).Some? ==> LONG_MIN < CompactForm(n, d, rm).value <= LONG_MAX
  {
    hide Decide, HalfOfLong;
    StepFits(Abs(n), Abs(d));
  }

  lemma StepFits(n: nat, d: nat)
    requires n <= LONG_MAX && d > 0
    ensures 0 <= n / d <= LONG_MAX && (n % d != 0 ==> n / d + 1 <= LONG_MAX)
  {
    QuotientRemainder(n, d);
    MulMono(n / d, if n % d == 0 then 1 else 2, d);
  }
}
