/** The number of decimal digits of a long (src/Numbers.cpp:1336-1357). */
module DecimalDigits {
  import opened Bits
  import opened BigInts
  import LongOps

  function TenTo(n: nat): (t: nat)
    ensures t > 0
  {
    if n == 0 then 1 else 10 * TenTo(n - 1)
  }

  lemma {:induction false} TenToMonotone(i: nat, j: nat)
    requires i <= j
    ensures TenTo(i) <= TenTo(j)
    ensures i < j ==> TenTo(i) < TenTo(j)
  {
    if i < j { TenToMonotone(i, j - 1); }
  }

  /** The decimal notation of `v` has `d` digits; zero has one. */
  ghost predicate HasDigits(v: nat, d: nat) {
    d > 0 && v < TenTo(d) && (d > 1 ==> TenTo(d - 1) <= v)
  }

  /** The estimate of the number of digits of a number of `b` bits: 1233/4096 stands for the
      decimal logarithm of two. */
  function Estimate(b: nat): nat {
    (b + 1) * 1233 / 4096
  }

  /** The estimate is right or one too small, for every number of `b` bits. */
  predicate Close(b: nat)
    requires b > 0
  {
    Estimate(b) > 0 && TenTo(Estimate(b) - 1) <= Pow2(b - 1) && Pow2(b) <= TenTo(Estimate(b) + 1)
  }

  lemma CloseBetween(b: nat, lo: nat, hi: nat, r: nat)
    requires 0 < lo <= b <= hi && Estimate(lo) == r == Estimate(hi) && r > 0
    requires TenTo(r - 1) <= Pow2(lo - 1) && Pow2(hi) <= TenTo(r + 1)
    ensures Close(b)
  {
    Pow2Monotone(lo - 1, b - 1);
    Pow2Monotone(b, hi);
  }

  lemma TwoStep(n: nat)
    ensures Pow2(n + 1) == 2 * Pow2(n) && Pow2(n + 2) == 4 * Pow2(n)
    ensures Pow2(n + 3) == 8 * Pow2(n) && Pow2(n + 4) == 16 * Pow2(n)
  {
    assert Pow2(n + 2) == 2 * Pow2(n + 1);
    assert Pow2(n + 3) == 2 * Pow2(n + 2);
  }

  lemma PowersOfTwo()
    ensures Pow2(3) == 0x8 && Pow2(5) == 0x20 && Pow2(8) == 0x100 &&
            Pow2(12) == 0x1000 && Pow2(15) == 0x8000 && Pow2(18) == 0x40000 &&
            Pow2(22) == 0x400000 && Pow2(25) == 0x2000000 && Pow2(28) == 0x10000000 &&
            Pow2(32) == 0x100000000 && Pow2(35) == 0x800000000 && Pow2(38) == 0x4000000000 &&
            Pow2(42) == 0x40000000000 && Pow2(45) == 0x200000000000 && Pow2(48) == 0x1000000000000 &&
            Pow2(52) == 0x10000000000000 && Pow2(55) == 0x80000000000000 && Pow2(58) == 0x400000000000000 &&
            Pow2(62) == 0x4000000000000000 && Pow2(63) == 0x8000000000000000
  {
    hide Pow2;
    PowerOfTwoThree();
    TwoStep(3);
    TwoStep(5);
    TwoStep(8);
    TwoStep(12);
    TwoStep(15);
    TwoStep(18);
    TwoStep(22);
    TwoStep(25);
    TwoStep(28);
    TwoStep(32);
    TwoStep(35);
    TwoStep(38);
    TwoStep(42);
    TwoStep(45);
    TwoStep(48);
    TwoStep(52);
    TwoStep(55);
    TwoStep(58);
    TwoStep(62);
  }

  lemma PowerOfTwoThree()
    ensures Pow2(3) == 8
  {
    TwoStep(0);
  }

  lemma PowersOfTen()
    ensures TenTo(0) == 1 && TenTo(1) == 10 && TenTo(2) == 100 &&
            TenTo(3) == 1000 && TenTo(4) == 10000 && TenTo(5) == 100000 &&
            TenTo(6) == 1000000 && TenTo(7) == 10000000 && TenTo(8) == 100000000 &&
            TenTo(9) == 1000000000 && TenTo(10) == 10000000000 && TenTo(11) == 100000000000 &&
            TenTo(12) == 1000000000000 && TenTo(13) == 10000000000000 && TenTo(14) == 100000000000000 &&
            TenTo(15) == 1000000000000000 && TenTo(16) == 10000000000000000 && TenTo(17) == 100000000000000000 &&
            TenTo(18) == 1000000000000000000 && TenTo(19) == 10000000000000000000 && TenTo(20) == 100000000000000000000
  {
  }

  lemma CloseAt(b: nat)
    requires 4 <= b <= 63
    ensures Close(b)
  {
    hide Pow2, TenTo, Close;
    PowersOfTwo();
    PowersOfTen();
    if b <= 5 { CloseBetween(b, 4, 5, 1); }
    else if b <= 8 { CloseBetween(b, 6, 8, 2); }
    else if b <= 12 { CloseBetween(b, 9, 12, 3); }
    else if b <= 15 { CloseBetween(b, 13, 15, 4); }
    else if b <= 18 { CloseBetween(b, 16, 18, 5); }
    else if b <= 22 { CloseBetween(b, 19, 22, 6); }
    else if b <= 25 { CloseBetween(b, 23, 25, 7); }
    else if b <= 28 { CloseBetween(b, 26, 28, 8); }
    else if b <= 32 { CloseBetween(b, 29, 32, 9); }
    else if b <= 35 { CloseBetween(b, 33, 35, 10); }
    else if b <= 38 { CloseBetween(b, 36, 38, 11); }
    else if b <= 42 { CloseBetween(b, 39, 42, 12); }
    else if b <= 45 { CloseBetween(b, 43, 45, 13); }
    else if b <= 48 { CloseBetween(b, 46, 48, 14); }
    else if b <= 52 { CloseBetween(b, 49, 52, 15); }
    else if b <= 55 { CloseBetween(b, 53, 55, 16); }
    else if b <= 58 { CloseBetween(b, 56, 58, 17); }
    else if b <= 62 { CloseBetween(b, 59, 62, 18); }
    else { CloseBetween(b, 63, 63, 19); }
  }

  lemma {:induction false} ShlScales(x: nat, m: nat, k: nat)
    ensures Shl(x, k) < Pow2(m + k) <==> x < Pow2(m)
  {
    if k > 0 { ShlScales(x, m, k - 1); }
  }

  lemma {:induction false} ShrZero(y: nat, k: nat)
    ensures Shr(y, k) == 0 <==> y < Pow2(k)
  {
    if k > 0 { ShrZero(y / 2, k - 1); }
  }

  lemma {:induction false} ShlTwice(x: nat, j: nat, k: nat)
    ensures Shl(Shl(x, j), k) == Shl(x, j + k)
  {
    if k > 0 { ShlTwice(x, j, k - 1); }
  }

  /** One step of the search: `y` is `x` moved up by 64 - n places, and its top bit lies in the upper
      `2 * l` places; afterwards it lies in the upper `l` ones. */
  lemma HalveWindow(x: nat, n: nat, y: nat, l: nat)
    requires 0 < l && 2 * l <= n <= 64 && y == Shl(x, 64 - n) && Pow2(64 - 2 * l) <= y < Pow2(64)
    ensures Shr(y, 64 - l) != 0 ==> Pow2(64 - l) <= y
    ensures Shr(y, 64 - l) == 0 ==> Shl(y, l) == Shl(x, 64 - (n - l)) && Pow2(64 - l) <= Shl(y, l) < Pow2(64)
  {
    hide Pow2, Shl, Shr;
    ShrZero(y, 64 - l);
    ShlScales(y, 64 - l, l);
    ShlScales(y, 64 - 2 * l, l);
    ShlTwice(x, 64 - n, l);
  }

  lemma WindowFound(x: nat, n: nat, y: nat)
    requires 2 <= n <= 64 && y == Shl(x, 64 - n) && Pow2(62) <= y < Pow2(64)
    ensures Shr(y, 63) != 0 ==> n > 0 && Pow2(n - 1) <= x < Pow2(n)
    ensures Shr(y, 63) == 0 ==> Pow2(n - 2) <= x < Pow2(n - 1)
  {
    hide Pow2, Shl, Shr;
    ShrZero(y, 63);
    ShlScales(x, n - 2, 64 - n);
    ShlScales(x, n - 1, 64 - n);
    ShlScales(x, n, 64 - n);
  }

  /** The bit length of `x` plus one, by halving the window the top bit can lie in. */
  method BitLengthPlusOne(x: nat) returns (n: nat)
    requires 0 < x < Pow2(63)
    ensures 2 <= n <= 64 && Pow2(n - 2) <= x < Pow2(n - 1)
  {
    assert Shl(x, 0) == x && Pow2(0) == 1;
    hide Pow2, Shl, Shr;
    n := 64;
    var y := x;
    var rshift := 0;
    var lshift := 32;
    Pow2Monotone(63, 64);
    while lshift > 1
      invariant lshift in {32, 16, 8, 4, 2, 1} && rshift == 64 - 2 * lshift
      invariant 2 * lshift <= n <= 64
      invariant y == Shl(x, 64 - n) && Pow2(rshift) <= y < Pow2(64)
      decreases lshift
    {
      HalveWindow(x, n, y, lshift);
      rshift := rshift + lshift;
      if Shr(y, rshift) == 0 {
        n := n - lshift;
        y := Shl(y, lshift);
      }
      lshift := lshift / 2;
    }
    WindowFound(x, n, y);
    n := (if Shr(y, rshift + 1) == 0 then 0 else 1) + n;
  }

  /** `longDigitLength`: right for every long but LONG_MIN, which the code excludes by assertion. */
  method LongDigitLength(val: LongOps.Long) returns (d: nat)
    requires val != LONG_MIN
    ensures HasDigits(Abs(val), d) && d <= 19
  {
    hide Pow2, TenTo;
    var x: nat := Abs(val);
    PowersOfTwo();
    PowersOfTen();
    if x < 10 { return 1; }
    var n := BitLengthPlusOne(x);
    if n < 5 { Pow2Monotone(n - 1, 3); }
    CloseAt(n - 1);
    var r := n * 1233 / 4096;
    d := if r >= 19 || x < TenTo(r) then r else r + 1;
  }
}
