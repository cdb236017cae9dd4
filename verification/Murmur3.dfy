/** The hash of byte strings (src/Murmur3.c:3-52): each of its rounds can be undone, both for the state
    and for the block it takes in. */
module Murmur3 {
  import opened Bits

  type Byte = b: nat | b < 256
  type Word = w: nat | w < 0x1_0000_0000

  // ---- The steps of a round, on words of 32 bits ----

  function TimesC1(x: Word): Word { x * 0xcc9e2d51 % 0x1_0000_0000 }

  function TimesC2(x: Word): Word { x * 0x1b873593 % 0x1_0000_0000 }

  function TimesFivePlus(x: Word): Word { (x * 5 + 0xe6546b64) % 0x1_0000_0000 }

  function TimesM1(x: Word): Word { x * 0x85ebca6b % 0x1_0000_0000 }

  function TimesM2(x: Word): Word { x * 0xc2b2ae35 % 0x1_0000_0000 }

  function Rotl(x: Word, r: nat): Word
    requires 0 < r < 32
  {
    RotlWord(x, r);
    Or(Low(Shl(x, r), 32), Shr(x, 32 - r))
  }

  function XorWords(x: Word, y: Word): Word {
    Pow2Values();
    XorBound(x, y, 32);
    Xor(x, y)
  }

  function XorShr(x: Word, r: nat): Word {
    ShrSmaller(x, r);
    XorWords(x, Shr(x, r))
  }

  /** What a block becomes before it enters the state. */
  function MixBlock(k: Word): Word {
    TimesC2(Rotl(TimesC1(k), 15))
  }

  function Round(h: Word, k: Word): Word {
    TimesFivePlus(Rotl(XorWords(h, MixBlock(k)), 13))
  }

  function Fmix(h: Word): Word {
    XorShr(TimesM2(XorShr(TimesM1(XorShr(h, 16)), 13)), 16)
  }

  // ---- The hash ----

  /** A block of four bytes as a little-endian machine reads it. */
  function BlockOf(b: seq<Byte>): Word
    requires |b| == 4
  {
    (b[0] as nat) + 0x100 * (b[1] as nat) + 0x1_0000 * (b[2] as nat) + 0x100_0000 * (b[3] as nat)
  }

  function BlockAt(data: seq<Byte>, i: nat): Word
    requires 4 * i + 4 <= |data|
  {
    BlockOf(data[4 * i..4 * i + 4])
  }

  /** The state behind the first `n` blocks. */
  function State(data: seq<Byte>, n: nat): Word
    requires 4 * n <= |data|
  {
    if n == 0 then 0 else Round(State(data, n - 1), BlockAt(data, n - 1))
  }

  function Tail(data: seq<Byte>): (t: seq<Byte>)
    ensures |t| == |data| % 4
  {
    data[|data| / 4 * 4..]
  }

  /** The bytes of the tail in one word: `b2 << 16 ^ b1 << 8 ^ b0`. */
  function TailWord(b0: Byte, b1: Byte, b2: Byte): Word {
    ByteShifts(b2);
    ByteShifts(b1);
    XorWords(XorWords(Shl(b2, 16), Shl(b1, 8)), b0)
  }

  function TailOf(t: seq<Byte>): Word
    requires 0 < |t| < 4
  {
    TailWord(t[0], if |t| > 1 then t[1] else 0, if |t| > 2 then t[2] else 0)
  }

  function Finish(h: Word, tail: seq<Byte>, len: nat): Word
    requires |tail| < 4
  {
    Fmix(XorWords(if tail == [] then h else XorWords(h, MixBlock(TailOf(tail))), len % 0x1_0000_0000))
  }

  function Hash(data: seq<Byte>): Word {
    Finish(State(data, |data| / 4), Tail(data), |data|)
  }

  /** `hash32` */
  method Hash32(data: seq<Byte>) returns (h1: Word)
    ensures h1 == Hash(data)
  {
    hide TimesC1, TimesC2, TimesFivePlus, Rotl, XorWords, BlockOf, TailOf, Fmix;
    h1 := 0;
    var nblocks := |data| / 4;
    var i := 0;
    while i < nblocks
      invariant i <= nblocks && h1 == State(data, i)
    {
      var k1 := BlockAt(data, i);
      k1 := TimesC1(k1);
      k1 := Rotl(k1, 15);
      k1 := TimesC2(k1);
      h1 := XorWords(h1, k1);
      h1 := Rotl(h1, 13);
      h1 := TimesFivePlus(h1);
      i := i + 1;
    }
    var tail := data[4 * nblocks..];
    if |tail| > 0 {
      var k1 := ReadTail(tail);
      k1 := TimesC1(k1);
      k1 := Rotl(k1, 15);
      k1 := TimesC2(k1);
      h1 := XorWords(h1, k1);
    }
    h1 := XorWords(h1, |data| % 0x1_0000_0000);
    h1 := Fmix(h1);
  }

  /** The `switch` that falls through from the last byte to the first. */
  method ReadTail(tail: seq<Byte>) returns (k1: Word)
    requires 0 < |tail| < 4
    ensures k1 == TailOf(tail)
  {
    k1 := 0;
    if |tail| == 3 {
      ByteShifts(tail[2]);
      XorZero(Shl(tail[2], 16));
      k1 := XorWords(k1, Shl(tail[2], 16));
    }
    if |tail| >= 2 {
      ByteShifts(tail[1]);
      k1 := XorWords(k1, Shl(tail[1], 8));
    }
    k1 := XorWords(k1, tail[0]);
    ByteShifts(0);
    XorZero(0);
  }

  // ---- Bits ----

  lemma {:induction false} ShrSmaller(x: nat, r: nat)
    ensures Shr(x, r) <= x && (r > 0 && x > 0 ==> Shr(x, r) < x)
  {
    if r > 0 { ShrSmaller(x / 2, r - 1); }
  }

  lemma {:induction false} ShlBound(x: nat, n: nat, r: nat)
    requires x < Pow2(n)
    ensures Shl(x, r) < Pow2(n + r)
  {
    if r > 0 { ShlBound(x, n, r - 1); }
  }

  lemma ByteShifts(b: Byte)
    ensures Shl(b, 16) < 0x1_0000_0000 && Shl(b, 8) < 0x1_0000_0000 && (b == 0 ==> Shl(b, 16) == 0 && Shl(b, 8) == 0)
  {
    Pow2Values();
    assert Pow2(8) == 256;
    ShlBound(b, 8, 16);
    ShlBound(b, 8, 8);
    Pow2Monotone(24, 32);
    Pow2Monotone(16, 32);
    if b == 0 {
      ShlZero(16);
      ShlZero(8);
    }
  }

  lemma RotlWord(x: Word, r: nat)
    requires 0 < r < 32
    ensures Or(Low(Shl(x, r), 32), Shr(x, 32 - r)) < 0x1_0000_0000
  {
    Pow2Values();
    ShrSmaller(x, 32 - r);
    OrBound(Low(Shl(x, r), 32), Shr(x, 32 - r), 32);
  }

  lemma {:induction false} LowOfShl(x: nat, r: nat, m: nat)
    ensures Low(Shl(x, r), r + m) == Shl(Low(x, m), r)
  {
    if r > 0 { LowOfShl(x, r - 1, m); }
  }

  /** Putting `b` below `a` keeps both. */
  lemma {:induction false} OrSplits(a: nat, b: nat, r: nat)
    requires b < Pow2(r)
    ensures Low(Or(Shl(a, r), b), r) == b && Shr(Or(Shl(a, r), b), r) == a
  {
    if r == 0 {
      OrZero(a);
    } else {
      OrSplits(a, b / 2, r - 1);
    }
  }

  lemma {:induction false} XorSplits(a: nat, b: nat, r: nat)
    requires b < Pow2(r)
    ensures Low(Xor(Shl(a, r), b), r) == b && Shr(Xor(Shl(a, r), b), r) == a
  {
    if r == 0 {
      XorZero(a);
    } else {
      XorSplits(a, b / 2, r - 1);
    }
  }

  lemma {:induction false} XorOfShl(a: nat, b: nat, r: nat)
    ensures Xor(Shl(a, r), Shl(b, r)) == Shl(Xor(a, b), r)
  {
    if r > 0 { XorOfShl(a, b, r - 1); }
  }

  lemma {:induction false} ShlTwice(a: nat, r: nat, s: nat)
    ensures Shl(Shl(a, r), s) == Shl(a, r + s)
  {
    if s > 0 { ShlTwice(a, r, s - 1); }
  }

  /** A number is its low bits and the rest. */
  lemma {:induction false} TwoParts(x: nat, y: nat, m: nat)
    requires Low(x, m) == Low(y, m) && Shr(x, m) == Shr(y, m)
    ensures x == y
  {
    if m > 0 { TwoParts(x / 2, y / 2, m - 1); }
  }

  lemma {:induction false} ShrOfXor(x: nat, y: nat, r: nat)
    ensures Shr(Xor(x, y), r) == Xor(Shr(x, r), Shr(y, r))
  {
    if r > 0 { ShrOfXor(x / 2, y / 2, r - 1); }
  }

  lemma {:induction false} XorCancels(x: nat, y: nat, m: nat)
    requires Xor(x, m) == Xor(y, m) || Xor(m, x) == Xor(m, y)
    ensures x == y
    decreases x + y
  {
    if x > 0 || y > 0 {
      XorStep(x, m);
      XorStep(y, m);
      XorCancels(x / 2, y / 2, m / 2);
    }
  }

  lemma XorStep(x: nat, m: nat)
    ensures Xor(x, m) / 2 == Xor(x / 2, m / 2) && Xor(m, x) / 2 == Xor(m / 2, x / 2)
    ensures Xor(x, m) % 2 == (if x % 2 == m % 2 then 0 else 1) && Xor(m, x) % 2 == (if x % 2 == m % 2 then 0 else 1)
  {
  }

  // ---- Undoing the steps ----

  lemma ModSum(x: Word, t: int)
    ensures (x + 0x1_0000_0000 * t) % 0x1_0000_0000 == x
  {
  }

  // The multipliers are odd, so they have inverses.

  lemma C1Undone(x: Word)
    ensures TimesC1(x) * 0xdee13bb1 % 0x1_0000_0000 == x
  {
    var q := x * 0xcc9e2d51 / 0x1_0000_0000;
    ModSum(x, 0xb2253208 * x - 0xdee13bb1 * q);
  }

  lemma C2Undone(x: Word)
    ensures TimesC2(x) * 0x56ed309b % 0x1_0000_0000 == x
  {
    var q := x * 0x1b873593 / 0x1_0000_0000;
    ModSum(x, 0x958ed66 * x - 0x56ed309b * q);
  }

  lemma M1Undone(x: Word)
    ensures TimesM1(x) * 0xa5cb9243 % 0x1_0000_0000 == x
  {
    var q := x * 0x85ebca6b / 0x1_0000_0000;
    ModSum(x, 0x56bb77f4 * x - 0xa5cb9243 * q);
  }

  lemma M2Undone(x: Word)
    ensures TimesM2(x) * 0x7ed1b41d % 0x1_0000_0000 == x
  {
    var q := x * 0xc2b2ae35 / 0x1_0000_0000;
    ModSum(x, 0x60736e9a * x - 0x7ed1b41d * q);
  }

  lemma FivePlusUndone(x: Word)
    ensures (TimesFivePlus(x) + 0x19ab949c) * 0xcccccccd % 0x1_0000_0000 == x
  {
    var q := (x * 5 + 0xe6546b64) / 0x1_0000_0000;
    ModSum(x, 0x4 * x + 0xcccccccd - 0xcccccccd * q);
  }

  lemma MultipliersInjective(x: Word, y: Word)
    ensures TimesC1(x) == TimesC1(y) ==> x == y
    ensures TimesC2(x) == TimesC2(y) ==> x == y
    ensures TimesFivePlus(x) == TimesFivePlus(y) ==> x == y
    ensures TimesM1(x) == TimesM1(y) ==> x == y
    ensures TimesM2(x) == TimesM2(y) ==> x == y
  {
    hide TimesC1, TimesC2, TimesFivePlus, TimesM1, TimesM2;
    C1Undone(x);
    C1Undone(y);
    C2Undone(x);
    C2Undone(y);
    FivePlusUndone(x);
    FivePlusUndone(y);
    M1Undone(x);
    M1Undone(y);
    M2Undone(x);
    M2Undone(y);
  }

  /** A rotation keeps the two parts of the word. */
  lemma RotlParts(x: Word, r: nat)
    requires 0 < r < 32
    ensures Low(Rotl(x, r), r) == Shr(x, 32 - r) && Shr(Rotl(x, r), r) == Low(x, 32 - r)
  {
    Pow2Values();
    LowOfShl(x, r, 32 - r);
    ShrBound(x, 32 - r, r);
    OrSplits(Low(x, 32 - r), Shr(x, 32 - r), r);
  }

  lemma RotlInjective(x: Word, y: Word, r: nat)
    requires 0 < r < 32
    ensures Rotl(x, r) == Rotl(y, r) ==> x == y
  {
    hide Rotl, Low, Shr;
    RotlParts(x, r);
    RotlParts(y, r);
    if Rotl(x, r) == Rotl(y, r) { TwoParts(x, y, 32 - r); }
  }

  lemma XorInjective(x: Word, y: Word, m: Word)
    ensures XorWords(x, m) == XorWords(y, m) ==> x == y
    ensures XorWords(m, x) == XorWords(m, y) ==> x == y
  {
    hide Xor;
    if XorWords(x, m) == XorWords(y, m) || XorWords(m, x) == XorWords(m, y) { XorCancels(x, y, m); }
  }

  /** The high bits of the result are those of the word, and from them the others follow. */
  lemma {:induction false} XorShrInjective(x: Word, y: Word, r: nat)
    requires r > 0 && XorShr(x, r) == XorShr(y, r)
    ensures x == y
    decreases x + y
  {
    if x > 0 || y > 0 {
      hide Xor;
      ShrSmaller(x, r);
      ShrSmaller(y, r);
      ShrOfXor(x, Shr(x, r), r);
      ShrOfXor(y, Shr(y, r), r);
      XorShrInjective(Shr(x, r), Shr(y, r), r);
      XorCancels(x, y, Shr(x, r));
    }
  }

  lemma BlockInjective(b: seq<Byte>, b': seq<Byte>)
    requires |b| == |b'| == 4
    ensures BlockOf(b) == BlockOf(b') ==> b == b'
  {
  }

  lemma TailWordParts(b0: Byte, b1: Byte, b2: Byte)
    ensures var w := TailWord(b0, b1, b2); Low(w, 8) == b0 && Low(Shr(w, 8), 8) == b1 && Shr(Shr(w, 8), 8) == b2
  {
    assert Pow2(8) == 256;
    ByteShifts(b1);
    ByteShifts(b2);
    ShlTwice(b2, 8, 8);
    XorOfShl(Shl(b2, 8), b1, 8);
    XorSplits(Xor(Shl(b2, 8), b1), b0, 8);
    XorSplits(b2, b1, 8);
  }

  lemma TailInjective(t: seq<Byte>, t': seq<Byte>)
    requires 0 < |t| == |t'| < 4
    ensures TailOf(t) == TailOf(t') ==> t == t'
  {
    hide TailWord, Low, Shr;
    TailWordParts(t[0], if |t| > 1 then t[1] else 0, if |t| > 2 then t[2] else 0);
    TailWordParts(t'[0], if |t'| > 1 then t'[1] else 0, if |t'| > 2 then t'[2] else 0);
  }

  lemma MixBlockInjective(k: Word, k': Word)
    ensures MixBlock(k) == MixBlock(k') ==> k == k'
  {
    hide TimesC1, TimesC2, Rotl;
    MultipliersInjective(Rotl(TimesC1(k), 15), Rotl(TimesC1(k'), 15));
    RotlInjective(TimesC1(k), TimesC1(k'), 15);
    MultipliersInjective(k, k');
  }

  /** A round loses nothing: different states stay different, and so do equal ones that take in
      different blocks. */
  lemma RoundInjective(h: Word, h': Word, k: Word, k': Word)
    ensures Round(h, k) == Round(h', k) ==> h == h'
    ensures Round(h, k) == Round(h, k') ==> k == k'
  {
    hide TimesFivePlus, Rotl, XorWords, MixBlock;
    var m, m' := MixBlock(k), MixBlock(k');
    MultipliersInjective(Rotl(XorWords(h, m), 13), Rotl(XorWords(h', m), 13));
    RotlInjective(XorWords(h, m), XorWords(h', m), 13);
    XorInjective(h, h', m);
    MultipliersInjective(Rotl(XorWords(h, m), 13), Rotl(XorWords(h, m'), 13));
    RotlInjective(XorWords(h, m), XorWords(h, m'), 13);
    XorInjective(m, m', h);
    MixBlockInjective(k, k');
  }

  lemma FmixInjective(h: Word, h': Word)
    requires Fmix(h) == Fmix(h')
    ensures h == h'
  {
    hide XorShr, TimesM1, TimesM2;
    var a, a' := XorShr(h, 16), XorShr(h', 16);
    var b, b' := XorShr(TimesM1(a), 13), XorShr(TimesM1(a'), 13);
    XorShrInjective(TimesM2(b), TimesM2(b'), 16);
    MultipliersInjective(b, b');
    XorShrInjective(TimesM1(a), TimesM1(a'), 13);
    MultipliersInjective(a, a');
    XorShrInjective(h, h', 16);
  }

  // ---- Inputs that never collide ----

  /** Bytes outside block `i` are the same. */
  predicate SameButBlock(x: seq<Byte>, y: seq<Byte>, i: nat) {
    |x| == |y| && 4 * i + 4 <= |x| && x[..4 * i] == y[..4 * i] && x[4 * i + 4..] == y[4 * i + 4..]
  }

  lemma {:induction false} SameStates(x: seq<Byte>, y: seq<Byte>, n: nat)
    requires 4 * n <= |x| && 4 * n <= |y| && x[..4 * n] == y[..4 * n]
    ensures State(x, n) == State(y, n)
  {
    hide Round, BlockOf;
    if n > 0 {
      var m := n - 1;
      assert x[..4 * n][..4 * m] == x[..4 * m] && y[..4 * n][..4 * m] == y[..4 * m];
      assert x[..4 * n][4 * m..] == x[4 * m..4 * m + 4] && y[..4 * n][4 * m..] == y[4 * m..4 * m + 4];
      SameStates(x, y, m);
    }
  }

  /** Once the states differ, equal blocks keep them different. */
  lemma {:induction false} StatesStayApart(x: seq<Byte>, y: seq<Byte>, i: nat, n: nat)
    requires SameButBlock(x, y, i) && i < n && 4 * n <= |x| && State(x, i + 1) != State(y, i + 1)
    ensures State(x, n) != State(y, n)
    decreases n
  {
    hide Round, BlockOf;
    if n > i + 1 {
      var m := n - 1;
      StatesStayApart(x, y, i, m);
      var skip := 4 * m - (4 * i + 4);
      assert x[4 * i + 4..][skip..skip + 4] == x[4 * m..4 * m + 4];
      assert y[4 * i + 4..][skip..skip + 4] == y[4 * m..4 * m + 4];
      RoundInjective(State(x, m), State(y, m), BlockAt(x, m), BlockAt(y, m));
    }
  }

  lemma FinishKeepsStates(h: Word, h': Word, tail: seq<Byte>, len: nat)
    requires |tail| < 4 && Finish(h, tail, len) == Finish(h', tail, len)
    ensures h == h'
  {
    hide Fmix, XorWords, MixBlock, TailOf;
    var w := len % 0x1_0000_0000;
    if tail == [] {
      FmixInjective(XorWords(h, w), XorWords(h', w));
      XorInjective(h, h', w);
    } else {
      var m := MixBlock(TailOf(tail));
      FmixInjective(XorWords(XorWords(h, m), w), XorWords(XorWords(h', m), w));
      XorInjective(XorWords(h, m), XorWords(h', m), w);
      XorInjective(h, h', m);
    }
  }

  lemma FinishKeepsTails(h: Word, tail: seq<Byte>, tail': seq<Byte>, len: nat)
    requires |tail| == |tail'| < 4 && Finish(h, tail, len) == Finish(h, tail', len)
    ensures tail == tail'
  {
    hide Fmix, XorWords, MixBlock, TailOf;
    var w := len % 0x1_0000_0000;
    if tail != [] {
      var m, m' := MixBlock(TailOf(tail)), MixBlock(TailOf(tail'));
      FmixInjective(XorWords(XorWords(h, m), w), XorWords(XorWords(h, m'), w));
      XorInjective(XorWords(h, m), XorWords(h, m'), w);
      XorInjective(m, m', h);
      MixBlockInjective(TailOf(tail), TailOf(tail'));
      TailInjective(tail, tail');
    }
  }

  /** Two inputs of one length that differ only inside one aligned block of four bytes never hash alike. */
  lemma BlocksNeverCollide(x: seq<Byte>, y: seq<Byte>, i: nat)
    requires SameButBlock(x, y, i) && x != y
    ensures Hash(x) != Hash(y)
  {
    hide Round, Finish, BlockOf;
    var n := |x| / 4;
    SameStates(x, y, i);
    assert x == x[..4 * i] + x[4 * i..4 * i + 4] + x[4 * i + 4..];
    assert y == y[..4 * i] + y[4 * i..4 * i + 4] + y[4 * i + 4..];
    BlockInjective(x[4 * i..4 * i + 4], y[4 * i..4 * i + 4]);
    RoundInjective(State(x, i), State(y, i), BlockAt(x, i), BlockAt(y, i));
    StatesStayApart(x, y, i, n);
    var skip := 4 * n - (4 * i + 4);
    assert x[4 * i + 4..][skip..] == Tail(x) && y[4 * i + 4..][skip..] == Tail(y);
    if Hash(x) == Hash(y) { FinishKeepsStates(State(x, n), State(y, n), Tail(x), |x|); }
  }

  /** Nor do two that differ only in the tail behind the last whole block. */
  lemma TailsNeverCollide(x: seq<Byte>, y: seq<Byte>)
    requires |x| == |y| && x[..|x| / 4 * 4] == y[..|x| / 4 * 4] && x != y
    ensures Hash(x) != Hash(y)
  {
    hide Round, Finish, BlockOf;
    var n := |x| / 4;
    SameStates(x, y, n);
    assert x == x[..4 * n] + Tail(x) && y == y[..4 * n] + Tail(y);
    if Hash(x) == Hash(y) { FinishKeepsTails(State(x, n), Tail(x), Tail(y), |x|); }
  }
}
