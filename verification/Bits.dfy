/** Unsigned machine words as natural numbers, with the C operators the trie uses
    (src/Map.c:23-33, src/intrinsics.h) defined bit by bit. */
module Bits {

  const WORD := 0x1_0000_0000

  function Pow2(n: nat): (p: nat)
    ensures p > 0
  {
    if n == 0 then 1 else 2 * Pow2(n - 1)
  }

  /** Is bit `i` of `b` set? */
  predicate Bit(b: nat, i: nat) {
    if i == 0 then b % 2 == 1 else Bit(b / 2, i - 1)
  }

  /** `h >> n` */
  function Shr(h: nat, n: nat): nat {
    if n == 0 then h else Shr(h / 2, n - 1)
  }

  /** `x << n` */
  function Shl(x: nat, n: nat): nat {
    if n == 0 then x else 2 * Shl(x, n - 1)
  }

  /** The low `n` bits of `h`. */
  function Low(h: nat, n: nat): (l: nat)
    ensures l < Pow2(n)
  {
    if n == 0 then 0 else h % 2 + 2 * Low(h / 2, n - 1)
  }

  /** `x & y` */
  function And(x: nat, y: nat): nat {
    if x == 0 then 0 else (x % 2) * (y % 2) + 2 * And(x / 2, y / 2)
  }

  /** `x | y` */
  function Or(x: nat, y: nat): nat
    decreases x + y
  {
    if x == 0 && y == 0 then 0
    else (if x % 2 == 1 || y % 2 == 1 then 1 else 0) + 2 * Or(x / 2, y / 2)
  }

  /** `x ^ y` */
  function Xor(x: nat, y: nat): nat
    decreases x + y
  {
    if x == 0 && y == 0 then 0
    else (if x % 2 == y % 2 then 0 else 1) + 2 * Xor(x / 2, y / 2)
  }

  function PopCount(b: nat): nat {
    if b == 0 then 0 else b % 2 + PopCount(b / 2)
  }

  /** The number of set bits of `b` below position `i`. */
  function Rank(b: nat, i: nat): nat {
    if i == 0 then 0 else b % 2 + Rank(b / 2, i - 1)
  }

  lemma {:induction false} BitOfZero(i: nat)
    ensures !Bit(0, i)
  {
    if i > 0 { BitOfZero(i - 1); }
  }

  /** `bitmap & bit` tests exactly one position. */
  lemma {:induction false} AndTestsBit(b: nat, i: nat)
    ensures And(b, Pow2(i)) != 0 <==> Bit(b, i)
  {
    if b == 0 {
      BitOfZero(i);
    } else if i == 0 {
      AndZero(b / 2);
    } else {
      AndTestsBit(b / 2, i - 1);
    }
  }

  lemma {:induction false} AndZero(b: nat)
    ensures And(b, 0) == 0
  {
    if b > 0 { AndZero(b / 2); }
  }

  /** `popcount(bitmap & (bit - 1))` counts the set bits below the tested one. */
  lemma {:induction false} PopCountBelow(b: nat, i: nat)
    ensures PopCount(And(b, Pow2(i) - 1)) == Rank(b, i)
  {
    if i == 0 {
      AndZero(b);
    } else if b == 0 {
      RankOfZero(i);
    } else {
      PopCountBelow(b / 2, i - 1);
      assert (Pow2(i) - 1) / 2 == Pow2(i - 1) - 1;
      var a := And(b / 2, Pow2(i - 1) - 1);
      assert And(b, Pow2(i) - 1) == b % 2 + 2 * a;
      assert PopCount(b % 2 + 2 * a) == b % 2 + PopCount(a);
    }
  }

  lemma {:induction false} RankOfZero(i: nat)
    ensures Rank(0, i) == 0
  {
    if i > 0 { RankOfZero(i - 1); }
  }

  /** `bitmap | bit` adds one position. */
  lemma {:induction false} OrSetsBit(b: nat, i: nat, j: nat)
    ensures Bit(Or(b, Pow2(i)), j) <==> Bit(b, j) || j == i
  {
    var r := Or(b, Pow2(i));
    if i == 0 {
      OrZero(b / 2);
      assert r == 1 + 2 * (b / 2);
    } else {
      if j > 0 { OrSetsBit(b / 2, i - 1, j - 1); }
      assert r / 2 == Or(b / 2, Pow2(i - 1));
      assert r % 2 == b % 2;
    }
  }

  lemma {:induction false} OrZero(b: nat)
    ensures Or(b, 0) == b && Or(0, b) == b
  {
    if b > 0 { OrZero(b / 2); }
  }

  /** `bitmap ^ bit` removes a position that is set. */
  lemma {:induction false} XorClearsBit(b: nat, i: nat, j: nat)
    requires Bit(b, i)
    ensures Bit(Xor(b, Pow2(i)), j) <==> Bit(b, j) && j != i
  {
    var r := Xor(b, Pow2(i));
    if i == 0 {
      XorZero(b / 2);
      assert r == 2 * (b / 2);
    } else {
      if j > 0 { XorClearsBit(b / 2, i - 1, j - 1); }
      assert r / 2 == Xor(b / 2, Pow2(i - 1));
      assert r % 2 == b % 2;
    }
  }

  lemma {:induction false} XorZero(b: nat)
    ensures Xor(b, 0) == b && Xor(0, b) == b
  {
    if b > 0 { XorZero(b / 2); }
  }

  /** Ranks after adding a clear position. */
  lemma {:induction false} RankAfterOr(b: nat, i: nat, j: nat)
    requires !Bit(b, i)
    ensures Rank(Or(b, Pow2(i)), j) == Rank(b, j) + if j > i then 1 else 0
  {
    var r := Or(b, Pow2(i));
    if i == 0 {
      OrZero(b / 2);
      assert r == 1 + 2 * (b / 2);
    } else {
      assert r / 2 == Or(b / 2, Pow2(i - 1));
      assert r % 2 == b % 2;
      if j > 0 { RankAfterOr(b / 2, i - 1, j - 1); }
    }
  }

  /** Ranks after removing a set position. */
  lemma {:induction false} RankAfterXor(b: nat, i: nat, j: nat)
    requires Bit(b, i)
    ensures Rank(Xor(b, Pow2(i)), j) == Rank(b, j) - if j > i then 1 else 0
  {
    var r := Xor(b, Pow2(i));
    if i == 0 {
      XorZero(b / 2);
      assert r == 2 * (b / 2);
    } else {
      assert r / 2 == Xor(b / 2, Pow2(i - 1));
      assert r % 2 == b % 2;
      if j > 0 { RankAfterXor(b / 2, i - 1, j - 1); }
    }
  }

  /** Ranks of two positions: a set bit lies strictly below every later rank. */
  lemma {:induction false} RankMonotone(b: nat, i: nat, j: nat)
    requires i < j
    ensures Rank(b, i) + (if Bit(b, i) then 1 else 0) <= Rank(b, j)
  {
    if i == 0 {
    } else {
      RankMonotone(b / 2, i - 1, j - 1);
    }
  }

  /** A word below 2^n has all its set bits below position n. */
  lemma {:induction false} RankAll(b: nat, n: nat)
    requires b < Pow2(n)
    ensures Rank(b, n) == PopCount(b)
  {
    if n == 0 {
    } else if b == 0 {
      RankOfZero(n);
    } else {
      RankAll(b / 2, n - 1);
    }
  }

  lemma {:induction false} OrBound(x: nat, y: nat, n: nat)
    requires x < Pow2(n) && y < Pow2(n)
    ensures Or(x, y) < Pow2(n)
  {
    if n > 0 && (x != 0 || y != 0) { OrBound(x / 2, y / 2, n - 1); }
  }

  lemma {:induction false} XorBound(x: nat, y: nat, n: nat)
    requires x < Pow2(n) && y < Pow2(n)
    ensures Xor(x, y) < Pow2(n)
  {
    if n > 0 && (x != 0 || y != 0) { XorBound(x / 2, y / 2, n - 1); }
  }

  lemma {:induction false} Pow2Monotone(i: nat, j: nat)
    requires i <= j
    ensures Pow2(i) <= Pow2(j)
    ensures i < j ==> Pow2(i) < Pow2(j)
  {
    if i < j { Pow2Monotone(i, j - 1); }
  }

  lemma Pow2Values()
    ensures Pow2(4) == 16 && Pow2(5) == 32 && Pow2(32) == WORD
  {
    assert Pow2(8) == 256;
    assert Pow2(16) == 65536;
    assert Pow2(24) == 16777216;
  }

  lemma {:induction false} LowAll(h: nat, n: nat)
    requires h < Pow2(n)
    ensures Low(h, n) == h
  {
    if n > 0 { LowAll(h / 2, n - 1); }
  }

  lemma {:induction false} ShrBound(h: nat, n: nat, m: nat)
    requires h < Pow2(n + m)
    ensures Shr(h, n) < Pow2(m)
  {
    if n > 0 { ShrBound(h / 2, n - 1, m); }
  }

  lemma {:induction false} ShlZero(n: nat)
    ensures Shl(0, n) == 0
  {
    if n > 0 { ShlZero(n - 1); }
  }

  /** The low `n + 5` bits of `h` are `pre` followed by the digit `i` exactly when the low `n` bits
      are `pre` and the next five are `i`. */
  lemma {:induction false} LowStep(h: nat, n: nat, pre: nat, i: nat)
    requires pre < Pow2(n) && i < 32
    ensures pre + Shl(i, n) < Pow2(n + 5)
    ensures Low(h, n + 5) == pre + Shl(i, n) <==> Low(h, n) == pre && Shr(h, n) % 32 == i
  {
    if n == 0 {
      Pow2Values();
      LowFive(h);
    } else {
      LowStep(h / 2, n - 1, pre / 2, i);
      assert pre + Shl(i, n) == pre % 2 + 2 * (pre / 2 + Shl(i, n - 1));
      assert Low(h, n + 5) == h % 2 + 2 * Low(h / 2, n - 1 + 5);
    }
  }

  lemma LowFive(h: nat)
    ensures Low(h, 5) == h % 32
  {
    var h1 := h / 2;
    var h2 := h1 / 2;
    var h3 := h2 / 2;
    var h4 := h3 / 2;
    assert Low(h4, 1) == h4 % 2;
    assert Low(h3, 2) == h3 % 2 + 2 * Low(h4, 1);
    assert Low(h2, 3) == h2 % 2 + 2 * Low(h3, 2);
    assert Low(h1, 4) == h1 % 2 + 2 * Low(h2, 3);
    assert Low(h, 5) == h % 2 + 2 * Low(h1, 4);
  }

  lemma {:induction false} BitBound(b: nat, i: nat, n: nat)
    requires b < Pow2(n) && Bit(b, i)
    ensures i < n
  {
    if n == 0 {
      BitOfZero(i);
    } else if i > 0 {
      BitBound(b / 2, i - 1, n - 1);
    }
  }

  /** A clear bitmap has no bits; a bitmap with no set bit below 32 is 0. */
  lemma {:induction false} NoBitsIsZero(b: nat, n: nat)
    requires b < Pow2(n)
    requires forall i: nat :: i < n ==> !Bit(b, i)
    ensures b == 0
  {
    if n > 0 {
      assert !Bit(b, 0);
      forall i: nat | i < n - 1 ensures !Bit(b / 2, i) {
        assert !Bit(b, i + 1);
      }
      NoBitsIsZero(b / 2, n - 1);
    }
  }

}
