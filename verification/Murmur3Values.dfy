/** The hash on some strings (src/Murmur3.c:3-52). The steps are worked out in plain arithmetic, with
    rotations and shifts as quotients and remainders and the exclusive or digit by digit. */
module Murmur3Values {
  import opened Bits
  import opened Divisibility
  import opened Murmur3

  // ---- The steps in arithmetic ----

  /** A word of eight hexadecimal digits. */
  datatype Hex = Hex(d7: nat, d6: nat, d5: nat, d4: nat, d3: nat, d2: nat, d1: nat, d0: nat) {

    predicate Valid() {
      d7 < 16 && d6 < 16 && d5 < 16 && d4 < 16 && d3 < 16 && d2 < 16 && d1 < 16 && d0 < 16
    }

    function Value(): nat {
      0x1000_0000 * d7 + 0x100_0000 * d6 + 0x10_0000 * d5 + 0x1_0000 * d4 + 0x1000 * d3 + 0x100 * d2 + 0x10 * d1 + d0
    }
  }

  /** The exclusive or of two bits, of two numbers of two, three and four bits, and of two words. */
  function XorOne(p: nat, q: nat): nat {
    if p == q then 0 else 1
  }

  function XorTwo(p: nat, q: nat): nat {
    (if p >= 2 <==> q >= 2 then 0 else 2) + XorOne(if p >= 2 then p - 2 else p, if q >= 2 then q - 2 else q)
  }

  function XorThree(p: nat, q: nat): nat {
    (if p >= 4 <==> q >= 4 then 0 else 4) + XorTwo(if p >= 4 then p - 4 else p, if q >= 4 then q - 4 else q)
  }

  function XorDigit(p: nat, q: nat): nat {
    (if p >= 8 <==> q >= 8 then 0 else 8) + XorThree(if p >= 8 then p - 8 else p, if q >= 8 then q - 8 else q)
  }

  function XorHex(a: Hex, b: Hex): Hex {
    Hex(XorDigit(a.d7, b.d7), XorDigit(a.d6, b.d6), XorDigit(a.d5, b.d5), XorDigit(a.d4, b.d4),
        XorDigit(a.d3, b.d3), XorDigit(a.d2, b.d2), XorDigit(a.d1, b.d1), XorDigit(a.d0, b.d0))
  }

  lemma XorPair(x: nat, y: nat, p: nat, q: nat)
    requires p < 2 && q < 2
    ensures Xor(2 * x + p, 2 * y + q) == 2 * Xor(x, y) + XorOne(p, q)
  {
    XorStep(2 * x + p, 2 * y + q);
    hide Xor;
    assert (2 * x + p) / 2 == x && (2 * y + q) / 2 == y && (2 * x + p) % 2 == p && (2 * y + q) % 2 == q;
  }

  lemma XorLowTwo(x: nat, y: nat, p: nat, q: nat)
    requires p < 4 && q < 4
    ensures Xor(4 * x + p, 4 * y + q) == 4 * Xor(x, y) + XorTwo(p, q)
  {
    hide Xor;
    var p', q' := if p >= 2 then 1 else 0, if q >= 2 then 1 else 0;
    XorPair(x, y, p', q');
    XorPair(2 * x + p', 2 * y + q', p - 2 * p', q - 2 * q');
  }

  lemma XorLowThree(x: nat, y: nat, p: nat, q: nat)
    requires p < 8 && q < 8
    ensures Xor(8 * x + p, 8 * y + q) == 8 * Xor(x, y) + XorThree(p, q)
  {
    hide Xor, XorTwo;
    var p', q' := if p >= 4 then 1 else 0, if q >= 4 then 1 else 0;
    XorPair(x, y, p', q');
    XorLowTwo(2 * x + p', 2 * y + q', p - 4 * p', q - 4 * q');
  }

  lemma XorLowDigit(x: nat, y: nat, p: nat, q: nat)
    requires p < 16 && q < 16
    ensures Xor(16 * x + p, 16 * y + q) == 16 * Xor(x, y) + XorDigit(p, q)
  {
    hide Xor, XorThree;
    var p', q' := if p >= 8 then 1 else 0, if q >= 8 then 1 else 0;
    XorPair(x, y, p', q');
    XorLowThree(2 * x + p', 2 * y + q', p - 8 * p', q - 8 * q');
  }

  lemma XorIsHex(a: Hex, b: Hex)
    requires a.Valid() && b.Valid()
    ensures Xor(a.Value(), b.Value()) == XorHex(a, b).Value()
  {
    hide Xor, XorDigit;
    XorZero(0);
    XorLowDigit(0, 0, a.d7, b.d7);
    XorLowDigit(a.d7, b.d7, a.d6, b.d6);
    var x, y := 16 * a.d7 + a.d6, 16 * b.d7 + b.d6;
    XorLowDigit(x, y, a.d5, b.d5);
    XorLowDigit(16 * x + a.d5, 16 * y + b.d5, a.d4, b.d4);
    var x', y' := 256 * x + 16 * a.d5 + a.d4, 256 * y + 16 * b.d5 + b.d4;
    XorLowDigit(x', y', a.d3, b.d3);
    XorLowDigit(16 * x' + a.d3, 16 * y' + b.d3, a.d2, b.d2);
    var x'', y'' := 256 * x' + 16 * a.d3 + a.d2, 256 * y' + 16 * b.d3 + b.d2;
    XorLowDigit(x'', y'', a.d1, b.d1);
    XorLowDigit(16 * x'' + a.d1, 16 * y'' + b.d1, a.d0, b.d0);
  }

  /** The exclusive or of `x` and `y`, given by their digits. */
  lemma XorIs(x: Word, y: Word, z: Word, a: Hex, b: Hex)
    requires a.Valid() && b.Valid() && a.Value() == x && b.Value() == y && XorHex(a, b).Value() == z
    ensures XorWords(x, y) == z
  {
    hide Xor;
    XorIsHex(a, b);
  }

  lemma XorNothing(x: Word)
    ensures XorWords(x, 0) == x && XorWords(0, x) == x
  {
    hide Xor;
    XorZero(x);
  }

  lemma {:induction false} ShrIsQuotient(x: nat, r: nat)
    ensures Shr(x, r) == x / Pow2(r)
  {
    if r > 0 {
      ShrIsQuotient(x / 2, r - 1);
      Halved(x, Pow2(r - 1));
    }
  }

  lemma Halved(x: nat, p: nat)
    requires p > 0
    ensures x / 2 / p == x / (2 * p)
  {
    var q, r := x / 2 / p, x / 2 % p;
    QuotientRemainder(x / 2, p);
    Doubled(q, p);
    DivisionUnique(x, 2 * p, q, 2 * r + x % 2);
  }

  lemma Doubled(q: nat, p: nat)
    ensures 2 * (q * p) == q * (2 * p)
  {
  }

  lemma Quotient(a: nat, b: nat, q: nat, r: nat)
    requires a == b * q + r && r < b
    ensures a / b == q
  {
    DivisionUnique(a, b, q, r);
  }

  lemma {:induction false} ShlIsProduct(x: nat, r: nat)
    ensures Shl(x, r) == x * Pow2(r)
  {
    if r > 0 {
      ShlIsProduct(x, r - 1);
      assert 2 * (x * Pow2(r - 1)) == x * (2 * Pow2(r - 1));
    }
  }

  lemma {:induction false} LowIsRemainder(x: nat, n: nat)
    ensures x == Low(x, n) + Shl(Shr(x, n), n)
  {
    if n > 0 { LowIsRemainder(x / 2, n - 1); }
  }

  /** A rotation by `r` moves the top `r` bits below the others. */
  lemma RotlIs(x: Word, r: nat, low: nat, high: nat)
    requires 0 < r < 32 && x == low + high * Pow2(32 - r) && low < Pow2(32 - r)
    ensures Rotl(x, r) == low * Pow2(r) + high
  {
    hide Rotl, Low, Shr, Shl, Pow2;
    var y := Rotl(x, r);
    RotlParts(x, r);
    LowIsRemainder(y, r);
    LowIsRemainder(x, 32 - r);
    ShlIsProduct(Shr(y, r), r);
    ShrIsQuotient(x, 32 - r);
    ShlIsProduct(Shr(x, 32 - r), 32 - r);
    Quotient(x, Pow2(32 - r), high, low);
  }

  lemma Powers()
    ensures Pow2(13) == 8192 && Pow2(15) == 32768 && Pow2(16) == 65536 && Pow2(17) == 131072 && Pow2(19) == 524288
  {
    assert Pow2(4) == 16;
    assert Pow2(8) == 256;
    assert Pow2(12) == 4096;
    assert Pow2(13) == 8192;
    assert Pow2(16) == 65536;
  }

  // ---- The steps on given numbers ----

  lemma MixIs(k: Word, a: Word, b: Word, m: Word)
    requires k * 0xcc9e2d51 % 0x1_0000_0000 == a && a % 131072 * 32768 + a / 131072 == b
    requires b * 0x1b873593 % 0x1_0000_0000 == m
    ensures MixBlock(k) == m
  {
    Powers();
    hide Pow2, Rotl;
    RotlIs(a, 15, a % 131072, a / 131072);
  }

  lemma RoundIs(h: Word, k: Word, m: Word, x: Word, r: Word, h': Word)
    requires MixBlock(k) == m && XorWords(h, m) == x && x % 524288 * 8192 + x / 524288 == r
    requires (r * 5 + 0xe6546b64) % 0x1_0000_0000 == h'
    ensures Round(h, k) == h'
  {
    Powers();
    hide Pow2, Rotl, XorWords, MixBlock;
    RotlIs(x, 13, x % 524288, x / 524288);
  }

  lemma FmixIs(h: Word, a: Word, b: Word, c: Word, d: Word, e: Word)
    requires XorWords(h, h / 65536) == a && a * 0x85ebca6b % 0x1_0000_0000 == b
    requires XorWords(b, b / 8192) == c && c * 0xc2b2ae35 % 0x1_0000_0000 == d
    requires XorWords(d, d / 65536) == e
    ensures Fmix(h) == e
  {
    Powers();
    hide Pow2, XorWords, Shr;
    ShrIsQuotient(h, 16);
    ShrIsQuotient(b, 13);
    ShrIsQuotient(d, 16);
  }

  /** Four bytes as one number. */
  function FourBytes(b0: nat, b1: nat, b2: nat, b3: nat): nat {
    b0 + 0x100 * b1 + 0x1_0000 * b2 + 0x100_0000 * b3
  }

  lemma StateNext(data: seq<Byte>, n: nat, h: Word, k: Word, h': Word)
    requires 4 * n + 4 <= |data| && State(data, n) == h && Round(h, k) == h'
    requires FourBytes(data[4 * n], data[4 * n + 1], data[4 * n + 2], data[4 * n + 3]) == k
    ensures State(data, n + 1) == h'
  {
    hide Round;
    assert BlockAt(data, n) == k;
    hide BlockOf, BlockAt;
  }

  lemma StateStarts(data: seq<Byte>)
    ensures State(data, 0) == 0
  {
  }

  lemma TailSum(b0: Byte, b1: Byte, b2: Byte)
    ensures TailWord(b0, b1, b2) == FourBytes(b0, b1, b2, 0)
  {
    hide TailWord, Low, Shr, Shl;
    var w := TailWord(b0, b1, b2);
    TailWordParts(b0, b1, b2);
    LowIsRemainder(w, 8);
    LowIsRemainder(Shr(w, 8), 8);
    ShlIsProduct(Shr(w, 8), 8);
    ShlIsProduct(Shr(Shr(w, 8), 8), 8);
    assert Pow2(8) == 256;
  }

  /** The tail enters the state. */
  lemma TailIs(data: seq<Byte>, t: seq<Byte>, h: Word, k: Word, m: Word, g: Word)
    requires 0 < |t| < 4 && Tail(data) == t && State(data, |data| / 4) == h && MixBlock(k) == m && XorWords(h, m) == g
    requires FourBytes(t[0], if |t| > 1 then t[1] else 0, if |t| > 2 then t[2] else 0, 0) == k
    ensures Hash(data) == Fmix(XorWords(g, |data| % 0x1_0000_0000))
  {
    TailSum(t[0], if |t| > 1 then t[1] else 0, if |t| > 2 then t[2] else 0);
    hide MixBlock, Fmix, XorWords, State, TailWord;
  }

  lemma NoTail(data: seq<Byte>, h: Word)
    requires Tail(data) == [] && State(data, |data| / 4) == h
    ensures Hash(data) == Fmix(XorWords(h, |data| % 0x1_0000_0000))
  {
    hide Fmix, XorWords, State;
  }

  // ---- Published values ----

  // The hash with seed 0, as it is published, of the empty string, of a tail alone, of a block alone and of
  // three blocks with a tail.

  lemma StepsOfNothing()
    ensures Fmix(XorWords(0, 0)) == 0
  {
    hide MixBlock, Round, Fmix, XorWords;
    XorNothing(0);
    FmixIs(0, 0, 0, 0, 0, 0);
  }

  /** "" */
  lemma HashOfNothing()
    ensures Hash([]) == 0
  {
    hide Hash, State, MixBlock, Round, Fmix, XorWords;
    StepsOfNothing();
    StateStarts([]);
    NoTail([], 0);
  }

  lemma FmixOfA()
    ensures Fmix(0x504ba9d4) == 0x3c2569b2
  {
    hide Fmix, XorWords;
    assert XorWords(0x504ba9d4, 0x504b) == 0x504bf99f by {
      XorIs(0x504ba9d4, 0x504b, 0x504bf99f, Hex(5, 0, 4, 11, 10, 9, 13, 4), Hex(0, 0, 0, 0, 5, 0, 4, 11));
    }
    assert XorWords(0x42adcb75, 0x2156e) == 0x42afde1b by {
      XorIs(0x42adcb75, 0x2156e, 0x42afde1b, Hex(4, 2, 10, 13, 12, 11, 7, 5), Hex(0, 0, 0, 2, 1, 5, 6, 14));
    }
    assert XorWords(0x3c255597, 0x3c25) == 0x3c2569b2 by {
      XorIs(0x3c255597, 0x3c25, 0x3c2569b2, Hex(3, 12, 2, 5, 5, 5, 9, 7), Hex(0, 0, 0, 0, 3, 12, 2, 5));
    }
    FmixIs(0x504ba9d4, 0x504bf99f, 0x42adcb75, 0x42afde1b, 0x3c255597, 0x3c2569b2);
  }

  lemma StepsOfA()
    ensures MixBlock(0x61) == 0x504ba9d5 && XorWords(0, 0x504ba9d5) == 0x504ba9d5
    ensures Fmix(XorWords(0x504ba9d5, 1)) == 0x3c2569b2
  {
    hide MixBlock, Round, Fmix, XorWords;
    MixIs(0x61, 0x87ef2bb1, 0x95d8c3f7, 0x504ba9d5);
    XorNothing(0x504ba9d5);
    assert XorWords(0x504ba9d5, 1) == 0x504ba9d4 by {
      XorIs(0x504ba9d5, 1, 0x504ba9d4, Hex(5, 0, 4, 11, 10, 9, 13, 5), Hex(0, 0, 0, 0, 0, 0, 0, 1));
    }
    FmixOfA();
  }

  /** "a" */
  lemma HashOfA()
    ensures Hash([97]) == 0x3c2569b2
  {
    hide Hash, State, MixBlock, Round, Fmix, XorWords;
    StepsOfA();
    StateStarts([97]);
    TailIs([97], [97], 0, 0x61, 0x504ba9d5, 0x504ba9d5);
  }

  lemma FmixOfTest()
    ensures Fmix(0x7985975f) == 0xba6bd213
  {
    hide Fmix, XorWords;
    assert XorWords(0x7985975f, 0x7985) == 0x7985eeda by {
      XorIs(0x7985975f, 0x7985, 0x7985eeda, Hex(7, 9, 8, 5, 9, 7, 5, 15), Hex(0, 0, 0, 0, 7, 9, 8, 5));
    }
    assert XorWords(0xfd90d91e, 0x7ec86) == 0xfd973598 by {
      XorIs(0xfd90d91e, 0x7ec86, 0xfd973598, Hex(15, 13, 9, 0, 13, 9, 1, 14), Hex(0, 0, 0, 7, 14, 12, 8, 6));
    }
    assert XorWords(0xba6b6878, 0xba6b) == 0xba6bd213 by {
      XorIs(0xba6b6878, 0xba6b, 0xba6bd213, Hex(11, 10, 6, 11, 6, 8, 7, 8), Hex(0, 0, 0, 0, 11, 10, 6, 11));
    }
    FmixIs(0x7985975f, 0x7985eeda, 0xfd90d91e, 0xfd973598, 0xba6b6878, 0xba6bd213);
  }

  lemma StepsOfTest()
    ensures Round(0, 0x74736574) == 0x7985975b
    ensures Fmix(XorWords(0x7985975b, 4)) == 0xba6bd213
  {
    hide MixBlock, Round, Fmix, XorWords;
    MixIs(0x74736574, 0x2ef07db4, 0x3eda1778, 0x465f51e8);
    XorNothing(0x465f51e8);
    RoundIs(0, 0x74736574, 0x465f51e8, 0x465f51e8, 0xea3d08cb, 0x7985975b);
    assert XorWords(0x7985975b, 4) == 0x7985975f by {
      XorIs(0x7985975b, 4, 0x7985975f, Hex(7, 9, 8, 5, 9, 7, 5, 11), Hex(0, 0, 0, 0, 0, 0, 0, 4));
    }
    FmixOfTest();
  }

  /** "test" */
  lemma HashOfTest()
    ensures Hash([116, 101, 115, 116]) == 0xba6bd213
  {
    hide Hash, State, MixBlock, Round, Fmix, XorWords;
    StepsOfTest();
    StateStarts([116, 101, 115, 116]);
    StateNext([116, 101, 115, 116], 0, 0, 0x74736574, 0x7985975b);
    NoTail([116, 101, 115, 116], 0x7985975b);
  }

  lemma FmixOfHello()
    ensures Fmix(0xd075367) == 0xc0363e43
  {
    hide Fmix, XorWords;
    assert XorWords(0xd075367, 0xd07) == 0xd075e60 by {
      XorIs(0xd075367, 0xd07, 0xd075e60, Hex(0, 13, 0, 7, 5, 3, 6, 7), Hex(0, 0, 0, 0, 0, 13, 0, 7));
    }
    assert XorWords(0xc4ac3220, 0x62561) == 0xc4aa1741 by {
      XorIs(0xc4ac3220, 0x62561, 0xc4aa1741, Hex(12, 4, 10, 12, 3, 2, 2, 0), Hex(0, 0, 0, 6, 2, 5, 6, 1));
    }
    assert XorWords(0xc036fe75, 0xc036) == 0xc0363e43 by {
      XorIs(0xc036fe75, 0xc036, 0xc0363e43, Hex(12, 0, 3, 6, 15, 14, 7, 5), Hex(0, 0, 0, 0, 12, 0, 3, 6));
    }
    FmixIs(0xd075367, 0xd075e60, 0xc4ac3220, 0xc4aa1741, 0xc036fe75, 0xc0363e43);
  }

  lemma RoundsOfHello()
    ensures Round(0, 0x6c6c6548) == 0xcb5bec36
    ensures Round(0xcb5bec36, 0x77202c6f) == 0x22b5bd6f
    ensures Round(0x22b5bd6f, 0x646c726f) == 0xa1590249
  {
    hide MixBlock, Round, Fmix, XorWords;
    MixIs(0x6c6c6548, 0x3e89b3c8, 0xd9e41f44, 0x153080c);
    XorNothing(0x153080c);
    RoundIs(0, 0x6c6c6548, 0x153080c, 0x153080c, 0x6101802a, 0xcb5bec36);
    MixIs(0x77202c6f, 0x397f921f, 0xc90f9cbf, 0x7d238cad);
    assert XorWords(0xcb5bec36, 0x7d238cad) == 0xb678609b by {
      XorIs(0xcb5bec36, 0x7d238cad, 0xb678609b, Hex(12, 11, 5, 11, 14, 12, 3, 6), Hex(7, 13, 2, 3, 8, 12, 10, 13));
    }
    RoundIs(0xcb5bec36, 0x77202c6f, 0x7d238cad, 0xb678609b, 0xc1376cf, 0x22b5bd6f);
    MixIs(0x646c726f, 0xeaefb81f, 0xdc0ff577, 0xa9bc9655);
    assert XorWords(0x22b5bd6f, 0xa9bc9655) == 0x8b092b3a by {
      XorIs(0x22b5bd6f, 0xa9bc9655, 0x8b092b3a, Hex(2, 2, 11, 5, 11, 13, 6, 15), Hex(10, 9, 11, 12, 9, 6, 5, 5));
    }
    RoundIs(0x22b5bd6f, 0x646c726f, 0xa9bc9655, 0x8b092b3a, 0x25675161, 0xa1590249);
  }

  lemma StepsOfHello()
    ensures MixBlock(0x21) == 0xac5e5123 && XorWords(0xa1590249, 0xac5e5123) == 0xd07536a
    ensures Fmix(XorWords(0xd07536a, 13)) == 0xc0363e43
  {
    hide MixBlock, Fmix, XorWords;
    MixIs(0x21, 0x6063d771, 0xebb8b031, 0xac5e5123);
    assert XorWords(0xa1590249, 0xac5e5123) == 0xd07536a by {
      XorIs(0xa1590249, 0xac5e5123, 0xd07536a, Hex(10, 1, 5, 9, 0, 2, 4, 9), Hex(10, 12, 5, 14, 5, 1, 2, 3));
    }
    assert XorWords(0xd07536a, 0xd) == 0xd075367 by {
      XorIs(0xd07536a, 0xd, 0xd075367, Hex(0, 13, 0, 7, 5, 3, 6, 10), Hex(0, 0, 0, 0, 0, 0, 0, 13));
    }
    FmixOfHello();
  }

  /** "Hello, world!" */
  lemma HashOfHello()
    ensures Hash([72, 101, 108, 108, 111, 44, 32, 119, 111, 114, 108, 100, 33]) == 0xc0363e43
  {
    hide Hash, State, MixBlock, Round, Fmix, XorWords;
    RoundsOfHello();
    StepsOfHello();
    StateStarts([72, 101, 108, 108, 111, 44, 32, 119, 111, 114, 108, 100, 33]);
    StateNext([72, 101, 108, 108, 111, 44, 32, 119, 111, 114, 108, 100, 33], 0, 0, 0x6c6c6548, 0xcb5bec36);
    StateNext([72, 101, 108, 108, 111, 44, 32, 119, 111, 114, 108, 100, 33], 1, 0xcb5bec36, 0x77202c6f, 0x22b5bd6f);
    StateNext([72, 101, 108, 108, 111, 44, 32, 119, 111, 114, 108, 100, 33], 2, 0x22b5bd6f, 0x646c726f, 0xa1590249);
    TailIs([72, 101, 108, 108, 111, 44, 32, 119, 111, 114, 108, 100, 33],
           [33], 0xa1590249, 0x21, 0xac5e5123, 0xd07536a);
  }
}
