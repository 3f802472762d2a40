/** The word mixers of Hash.h. Words are naturals below 2^64 or 2^32; every step can be undone, so the raw
    mixers are bijections. */
module Mixer {
  import opened Shifts

  function Pow2(n: nat): (p: nat)
    ensures 0 < p
  {
    if n == 0 then 1 else 2 * Pow2(n - 1)
  }

  const WORD32: nat := 0x1_0000_0000
  const WORD64: nat := 0x1_0000_0000_0000_0000

  lemma WordSizes()
    ensures Pow2(32) == WORD32 && Pow2(64) == WORD64
  {
    assert Pow2(8) == 256;
    PowAdd(8, 8);
    PowAdd(16, 16);
    PowAdd(32, 32);
  }

  lemma {:induction false} PowAdd(m: nat, n: nat)
    ensures Pow2(m + n) == Pow2(m) * Pow2(n)
  {
    if m != 0 {
      PowAdd(m - 1, n);
      assert 2 * Pow2(m - 1) * Pow2(n) == 2 * (Pow2(m - 1) * Pow2(n));
    }
  }

  // ---------------------------------------------------------------- exclusive or and shift

  function Xor(a: nat, b: nat): nat {
    if a == 0 && b == 0 then 0 else (if a % 2 == b % 2 then 0 else 1) + 2 * Xor(a / 2, b / 2)
  }

  lemma XorStep(a: nat, b: nat)
    ensures Xor(a, b) % 2 == (if a % 2 == b % 2 then 0 else 1) && Xor(a, b) / 2 == Xor(a / 2, b / 2)
  {
  }

  lemma {:induction false} XorCancels(a: nat, b: nat)
    ensures Xor(Xor(a, b), b) == a
    decreases a + b
  {
    XorStep(a, b);
    XorStep(Xor(a, b), b);
    if a != 0 || b != 0 { XorCancels(a / 2, b / 2); }
  }

  lemma {:induction false} XorZero(a: nat)
    ensures Xor(a, 0) == a
  {
    if a != 0 { XorZero(a / 2); }
  }

  lemma {:induction false} XorFits(a: nat, b: nat, n: nat)
    requires a < Pow2(n) && b < Pow2(n)
    ensures Xor(a, b) < Pow2(n)
  {
    if n != 0 { XorFits(a / 2, b / 2, n - 1); }
  }

  lemma {:induction false} ShrXor(a: nat, b: nat, n: nat)
    ensures Shr(Xor(a, b), n) == Xor(Shr(a, n), Shr(b, n))
  {
    if n != 0 {
      XorStep(a, b);
      ShrXor(a / 2, b / 2, n - 1);
    }
  }

  lemma {:induction false} ShrShr(a: nat, m: nat, n: nat)
    ensures Shr(Shr(a, m), n) == Shr(a, m + n)
  {
    if m != 0 { ShrShr(a / 2, m - 1, n); }
  }

  /** Shifting out every bit. */
  lemma {:induction false} ShrVanishes(a: nat, n: nat)
    requires a < Pow2(n)
    ensures Shr(a, n) == 0
  {
    if n != 0 { ShrVanishes(a / 2, n - 1); }
  }

  lemma {:induction false} PowGrows(m: nat, n: nat)
    requires m <= n
    ensures Pow2(m) <= Pow2(n)
  {
    if m < n { PowGrows(m, n - 1); }
  }

  lemma {:induction false} ShrShrinks(a: nat, n: nat)
    ensures Shr(a, n) <= a
  {
    if n != 0 { ShrShrinks(a / 2, n - 1); }
  }

  /** `h ^= h >> n` */
  function Fold(h: nat, n: nat): nat {
    Xor(h, Shr(h, n))
  }

  lemma FoldFits(h: nat, n: nat, bits: nat)
    requires h < Pow2(bits)
    ensures Fold(h, n) < Pow2(bits)
  {
    ShrShrinks(h, n);
    XorFits(h, Shr(h, n), bits);
  }

  /** Folding by at least half the word, twice, restores the word. */
  lemma FoldTwice(h: nat, n: nat, bits: nat)
    requires h < Pow2(bits) && bits <= n + n
    ensures Fold(Fold(h, n), n) == h
  {
    var k := Shr(h, n);
    ShrXor(h, k, n);
    ShrShr(h, n, n);
    PowGrows(bits, n + n);
    ShrVanishes(h, n + n);
    XorZero(k);
    XorCancels(h, k);
  }

  // ---------------------------------------------------------------- multiplication

  function Times(h: nat, factor: nat, word: nat): (r: nat)
    requires 0 < word
    ensures r < word
  {
    h * factor % word
  }

  /** Multiplying by a factor and by its inverse modulo the word size. */
  lemma TimesInverse(h: nat, c: nat, d: nat, word: nat)
    requires h < word && 1 < word && c * d % word == 1
    ensures Times(Times(h, c, word), d, word) == h
  {
    var q, r := h * c / word, h * c % word;
    assert h * c == q * word + r;
    var p := c * d / word;
    assert c * d == p * word + 1;
    assert r * d == (h * p - q * d) * word + h by {
      assert (q * word + r) * d == q * word * d + r * d;
      assert h * c * d == h * (c * d) == h * (p * word + 1) == h * p * word + h;
      assert q * word * d == q * d * word;
      assert (h * p - q * d) * word == h * p * word - q * d * word;
    }
    RemainderIs(r * d, word, h * p - q * d, h);
  }

  lemma RemainderIs(x: nat, m: nat, q: int, r: nat)
    requires 0 < m && r < m && x == q * m + r
    ensures x % m == r
  {
    var k := if q < 0 then -q else 1;
    MulMonotone(1, k, m);
    assert q < 0 ==> q * m == -(k * m);
    if 0 <= q { DivModUnique(x, m, q, r); }
  }

  // ---------------------------------------------------------------- 64 bits

  function Avalanche64(h: nat): (r: nat)
    requires h < WORD64
    ensures r < WORD64
  {
    FitsWord64(h, 0xff51afd7ed558ccd, 0xc4ceb9fe1a85ec53);
    Fold(Times(Fold(Times(Fold(h, 33), 0xff51afd7ed558ccd, WORD64), 33), 0xc4ceb9fe1a85ec53, WORD64), 33)
  }

  function Deavalanche64(h: nat): (r: nat)
    requires h < WORD64
    ensures r < WORD64
  {
    FitsWord64(h, 0x9cb4b2f8129337db, 0x4f74430c22a54005);
    Fold(Times(Fold(Times(Fold(h, 33), 0x9cb4b2f8129337db, WORD64), 33), 0x4f74430c22a54005, WORD64), 33)
  }

  lemma FitsWord64(h: nat, c: nat, d: nat)
    requires h < WORD64
    ensures Fold(h, 33) < WORD64
    ensures Fold(Times(Fold(Times(Fold(h, 33), c, WORD64), 33), d, WORD64), 33) < WORD64
  {
    WordSizes();
    FoldFits(h, 33, 64);
    FoldFits(Times(Fold(Times(Fold(h, 33), c, WORD64), 33), d, WORD64), 33, 64);
  }

  /** Three folds and two factors, undone in the opposite order. */
  lemma Undone64(h: nat, c: nat, d: nat, c': nat, d': nat)
    requires h < WORD64 && c * c' % WORD64 == 1 && d * d' % WORD64 == 1
    ensures var r := Fold(Times(Fold(Times(Fold(h, 33), c, WORD64), 33), d, WORD64), 33);
            Fold(Times(Fold(Times(Fold(r, 33), d', WORD64), 33), c', WORD64), 33) == h
  {
    hide Fold, Times;
    WordSizes();
    var a := Fold(h, 33);
    var b := Times(a, c, WORD64);
    var e := Fold(b, 33);
    var f := Times(e, d, WORD64);
    FoldFits(h, 33, 64);
    FoldFits(b, 33, 64);
    FoldTwice(f, 33, 64);
    TimesInverse(e, d, d', WORD64);
    FoldTwice(b, 33, 64);
    TimesInverse(a, c, c', WORD64);
    FoldTwice(h, 33, 64);
  }

  lemma Inverse64(h: nat)
    requires h < WORD64
    ensures Deavalanche64(Avalanche64(h)) == h
    ensures Avalanche64(Deavalanche64(h)) == h
  {
    hide Fold, Times;
    Undone64(h, 0xff51afd7ed558ccd, 0xc4ceb9fe1a85ec53, 0x4f74430c22a54005, 0x9cb4b2f8129337db);
    Undone64(h, 0x9cb4b2f8129337db, 0x4f74430c22a54005, 0xc4ceb9fe1a85ec53, 0xff51afd7ed558ccd);
  }

  // ---------------------------------------------------------------- 32 bits

  /** A shift of 13 takes two rounds to undo: `h ^= (h ^ (h >> 13)) >> 13`. */
  function Unfold13(h: nat): nat {
    Xor(h, Shr(Xor(h, Shr(h, 13)), 13))
  }

  lemma Shifts13(h: nat)
    requires h < WORD32
    ensures Shr(Shr(h, 13), 13) == Shr(h, 26) && Shr(Shr(h, 26), 13) == 0
  {
    WordSizes();
    ShrShr(h, 13, 13);
    ShrShr(h, 26, 13);
    PowGrows(32, 39);
    ShrVanishes(h, 39);
  }

  lemma UnfoldFold13(h: nat)
    requires h < WORD32
    ensures Unfold13(Fold(h, 13)) == h
  {
    var b, c := Shr(h, 13), Shr(h, 26);
    Shifts13(h);
    var y := Fold(h, 13);
    ShrXor(h, b, 13);
    assert Shr(y, 13) == Xor(b, c);
    ShrXor(b, c, 13);
    XorZero(c);
    ShrXor(y, Xor(b, c), 13);
    XorCancels(b, c);
    assert Shr(Xor(y, Shr(y, 13)), 13) == b;
    XorCancels(h, b);
  }

  lemma FoldUnfold13(h: nat)
    requires h < WORD32
    ensures Fold(Unfold13(h), 13) == h
  {
    var b, c := Shr(h, 13), Shr(h, 26);
    Shifts13(h);
    ShrXor(h, b, 13);
    var u := Unfold13(h);
    assert u == Xor(h, Xor(b, c));
    ShrXor(h, Xor(b, c), 13);
    ShrXor(b, c, 13);
    XorZero(c);
    assert Shr(u, 13) == Xor(b, c);
    XorCancels(h, Xor(b, c));
  }

  lemma Unfold13Fits(h: nat)
    requires h < WORD32
    ensures Unfold13(h) < WORD32
  {
    WordSizes();
    FoldFits(h, 13, 32);
    ShrShrinks(Fold(h, 13), 13);
    XorFits(h, Shr(Fold(h, 13), 13), 32);
  }

  function Avalanche32(h: nat): (r: nat)
    requires h < WORD32
    ensures r < WORD32
  {
    WordSizes();
    var x := Times(Fold(Times(Fold(h, 16), 0x85ebca6b, WORD32), 13), 0xc2b2ae35, WORD32);
    FoldFits(x, 16, 32);
    Fold(x, 16)
  }

  function Deavalanche32(h: nat): (r: nat)
    requires h < WORD32
    ensures r < WORD32
  {
    WordSizes();
    var x := Times(Unfold13(Times(Fold(h, 16), 0x7ed1b41d, WORD32)), 0xa5cb9243, WORD32);
    FoldFits(x, 16, 32);
    Fold(x, 16)
  }

  lemma Inverse32(h: nat)
    requires h < WORD32
    ensures Deavalanche32(Avalanche32(h)) == h
    ensures Avalanche32(Deavalanche32(h)) == h
  {
    There32(h);
    Back32(h);
  }

  lemma There32(h: nat)
    requires h < WORD32
    ensures Deavalanche32(Avalanche32(h)) == h
  {
    hide Fold, Times, Unfold13;
    WordSizes();
    var a := Fold(h, 16);
    var b := Times(a, 0x85ebca6b, WORD32);
    var e := Fold(b, 13);
    FoldFits(h, 16, 32);
    FoldFits(b, 13, 32);
    FoldTwice(Times(e, 0xc2b2ae35, WORD32), 16, 32);
    TimesInverse(e, 0xc2b2ae35, 0x7ed1b41d, WORD32);
    UnfoldFold13(b);
    TimesInverse(a, 0x85ebca6b, 0xa5cb9243, WORD32);
    FoldTwice(h, 16, 32);
  }

  lemma Back32(h: nat)
    requires h < WORD32
    ensures Avalanche32(Deavalanche32(h)) == h
  {
    hide Fold, Times, Unfold13;
    WordSizes();
    var a := Fold(h, 16);
    var b := Times(a, 0x7ed1b41d, WORD32);
    var e := Unfold13(b);
    FoldFits(h, 16, 32);
    Unfold13Fits(b);
    FoldTwice(Times(e, 0xa5cb9243, WORD32), 16, 32);
    TimesInverse(e, 0xa5cb9243, 0x85ebca6b, WORD32);
    FoldUnfold13(b);
    TimesInverse(a, 0x7ed1b41d, 0xc2b2ae35, WORD32);
    FoldTwice(h, 16, 32);
  }

  // ---------------------------------------------------------------- the hash of a word

  const TOP: nat := 0x8000_0000_0000_0000

  /** `avalanche`: the top bit is set so that a hash is never zero. */
  function Avalanche(h: nat): (r: nat)
    requires h < WORD64
    ensures TOP <= r < WORD64
  {
    var m := Avalanche64(h);
    if m < TOP then m + TOP else m
  }

  /** Giving that bit away makes each hash stand for exactly two words: those whose mixed forms differ in it. */
  lemma CollidesIff(x: nat, y: nat)
    requires x < WORD64 && y < WORD64
    ensures var m := Avalanche64(y);
            Avalanche(x) == Avalanche(y) <==> x == y || x == Deavalanche64(if m < TOP then m + TOP else m - TOP)
  {
    hide Avalanche64, Deavalanche64;
    var m := Avalanche64(y);
    Inverse64(x);
    Inverse64(y);
    Inverse64(if m < TOP then m + TOP else m - TOP);
  }

  // ---------------------------------------------------------------- known values

  lemma XorHalf(a: nat, i: nat, c: nat, j: nat)
    requires i < 2 && j < 2
    ensures Xor(2 * a + i, 2 * c + j) == 2 * Xor(a, c) + if i == j then 0 else 1
  {
  }

  lemma XorTwo(a: nat, b: nat, c: nat, d: nat)
    requires b < 4 && d < 4
    ensures Xor(a * 4 + b, c * 4 + d) == Xor(a, c) * 4 + Xor(b, d)
  {
    hide Xor;
    XorHalf(2 * a + b / 2, b % 2, 2 * c + d / 2, d % 2);
    XorHalf(a, b / 2, c, d / 2);
    XorHalf(b / 2, b % 2, d / 2, d % 2);
    XorHalf(0, b / 2, 0, d / 2);
    XorZero(0);
  }

  lemma XorNibble(a: nat, b: nat, c: nat, d: nat)
    requires b < 16 && d < 16
    ensures Xor(a * 16 + b, c * 16 + d) == Xor(a, c) * 16 + Xor(b, d)
  {
    hide Xor;
    XorTwo(a * 4 + b / 4, b % 4, c * 4 + d / 4, d % 4);
    XorTwo(a, b / 4, c, d / 4);
    XorTwo(b / 4, b % 4, d / 4, d % 4);
  }

  /** A shift takes the quotient by a power of two. */
  lemma {:induction false} ShrOf(h: nat, n: nat, q: nat, r: nat)
    requires h == q * Pow2(n) + r && r < Pow2(n)
    ensures Shr(h, n) == q
  {
    if n != 0 {
      assert q * Pow2(n) == 2 * (q * Pow2(n - 1));
      ShrOf(h / 2, n - 1, q, r / 2);
    }
  }

  lemma Powers()
    ensures Pow2(13) == 0x2000 && Pow2(16) == 0x1_0000 && Pow2(33) == 0x2_0000_0000
  {
    assert Pow2(5) == 32 && Pow2(8) == 256;
    PowAdd(5, 8);
    PowAdd(8, 8);
    PowAdd(16, 16);
    PowAdd(32, 1);
  }

  lemma FoldOne()
    ensures Fold(1, 33) == 1 && Fold(1, 16) == 1
  {
    Powers();
    hide Shr, Pow2;
    ShrOf(1, 33, 0, 1);
    ShrOf(1, 16, 0, 1);
    XorZero(1);
  }

  // The folds below are worked out digit by digit.

  lemma SmallDigits()
    ensures Xor(0, 0) == 0 && Xor(0, 1) == 1 && Xor(0, 2) == 2 && Xor(0, 3) == 3
    ensures Xor(1, 0) == 1 && Xor(1, 1) == 0 && Xor(1, 2) == 3 && Xor(1, 3) == 2
    ensures Xor(2, 0) == 2 && Xor(2, 1) == 3 && Xor(2, 2) == 0 && Xor(2, 3) == 1
    ensures Xor(3, 0) == 3 && Xor(3, 1) == 2 && Xor(3, 2) == 1 && Xor(3, 3) == 0
  {
  }

  lemma Digits()
    ensures Xor(0x0, 0x4) == 0x4 && Xor(0x0, 0x9) == 0x9 && Xor(0x0, 0xa) == 0xa && Xor(0x0, 0xc) == 0xc
    ensures Xor(0x2, 0xe) == 0xc && Xor(0x4, 0x5) == 0x1 && Xor(0x5, 0x7) == 0x2 && Xor(0x5, 0x8) == 0xd
    ensures Xor(0x5, 0xa) == 0xf && Xor(0x5, 0xe) == 0xb && Xor(0x6, 0x5) == 0x3 && Xor(0x6, 0x9) == 0xf
    ensures Xor(0x7, 0x3) == 0x4 && Xor(0x7, 0x5) == 0x2 && Xor(0x8, 0xa) == 0x2 && Xor(0x8, 0xd) == 0x5
    ensures Xor(0x9, 0x1) == 0x8 && Xor(0x9, 0x2) == 0xb && Xor(0x9, 0x5) == 0xc && Xor(0x9, 0xb) == 0x2
    ensures Xor(0x9, 0xe) == 0x7 && Xor(0xa, 0xf) == 0x5 && Xor(0xb, 0x4) == 0xf && Xor(0xb, 0xe) == 0x5
    ensures Xor(0xc, 0x2) == 0xe && Xor(0xc, 0x7) == 0xb && Xor(0xc, 0xe) == 0x2 && Xor(0xd, 0x5) == 0x8
    ensures Xor(0xd, 0xb) == 0x6 && Xor(0xd, 0xf) == 0x2 && Xor(0xe, 0x2) == 0xc && Xor(0xe, 0x7) == 0x9
    ensures Xor(0xe, 0xa) == 0x4 && Xor(0xe, 0xb) == 0x5 && Xor(0xf, 0x4) == 0xb && Xor(0xf, 0x7) == 0x8
    ensures Xor(0xf, 0xf) == 0x0
  {
    SmallDigits();
    hide Xor;
    XorTwo(0, 0, 1, 0);
    XorTwo(0, 0, 2, 1);
    XorTwo(0, 0, 2, 2);
    XorTwo(0, 0, 3, 0);
    XorTwo(0, 2, 3, 2);
    XorTwo(1, 0, 1, 1);
    XorTwo(1, 1, 1, 3);
    XorTwo(1, 1, 2, 0);
    XorTwo(1, 1, 2, 2);
    XorTwo(1, 1, 3, 2);
    XorTwo(1, 2, 1, 1);
    XorTwo(1, 2, 2, 1);
    XorTwo(1, 3, 0, 3);
    XorTwo(1, 3, 1, 1);
    XorTwo(2, 0, 2, 2);
    XorTwo(2, 0, 3, 1);
    XorTwo(2, 1, 0, 1);
    XorTwo(2, 1, 0, 2);
    XorTwo(2, 1, 1, 1);
    XorTwo(2, 1, 2, 3);
    XorTwo(2, 1, 3, 2);
    XorTwo(2, 2, 3, 3);
    XorTwo(2, 3, 1, 0);
    XorTwo(2, 3, 3, 2);
    XorTwo(3, 0, 0, 2);
    XorTwo(3, 0, 1, 3);
    XorTwo(3, 0, 3, 2);
    XorTwo(3, 1, 1, 1);
    XorTwo(3, 1, 2, 3);
    XorTwo(3, 1, 3, 3);
    XorTwo(3, 2, 0, 2);
    XorTwo(3, 2, 1, 3);
    XorTwo(3, 2, 2, 2);
    XorTwo(3, 2, 2, 3);
    XorTwo(3, 3, 1, 0);
    XorTwo(3, 3, 1, 3);
    XorTwo(3, 3, 3, 3);
  }

  lemma First64()
    ensures Fold(0xff51afd7ed558ccd, 33) == 0xff51afd792fd5b26
  {
    Powers();
    Digits();
    hide Xor, Shr, Pow2;
    ShrOf(0xff51afd7ed558ccd, 33, 0x7fa8d7eb, 0x1ed558ccd);
    XorZero(0xff51afd7);
    XorNibble(0xff51afd7, 0xe, 0x0, 0x7);
    XorNibble(0xff51afd7e, 0xd, 0x7, 0xf);
    XorNibble(0xff51afd7ed, 0x5, 0x7f, 0xa);
    XorNibble(0xff51afd7ed5, 0x5, 0x7fa, 0x8);
    XorNibble(0xff51afd7ed55, 0x8, 0x7fa8, 0xd);
    XorNibble(0xff51afd7ed558, 0xc, 0x7fa8d, 0x7);
    XorNibble(0xff51afd7ed558c, 0xc, 0x7fa8d7, 0xe);
    XorNibble(0xff51afd7ed558cc, 0xd, 0x7fa8d7e, 0xb);
  }

  lemma Second64()
    ensures Fold(0xb456bcfc6ee99552, 33) == 0xb456bcfc34c2cb2c
  {
    Powers();
    Digits();
    hide Xor, Shr, Pow2;
    ShrOf(0xb456bcfc6ee99552, 33, 0x5a2b5e7e, 0x6ee99552);
    XorZero(0xb456bcfc);
    XorNibble(0xb456bcfc, 0x6, 0x0, 0x5);
    XorNibble(0xb456bcfc6, 0xe, 0x5, 0xa);
    XorNibble(0xb456bcfc6e, 0xe, 0x5a, 0x2);
    XorNibble(0xb456bcfc6ee, 0x9, 0x5a2, 0xb);
    XorNibble(0xb456bcfc6ee9, 0x9, 0x5a2b, 0x5);
    XorNibble(0xb456bcfc6ee99, 0x5, 0x5a2b5, 0xe);
    XorNibble(0xb456bcfc6ee995, 0x5, 0x5a2b5e, 0x7);
    XorNibble(0xb456bcfc6ee9955, 0x2, 0x5a2b5e7, 0xe);
  }

  lemma First32()
    ensures Fold(0x85ebca6b, 13) == 0x85efe535
  {
    Powers();
    Digits();
    hide Xor, Shr, Pow2;
    ShrOf(0x85ebca6b, 13, 0x42f5e, 0xa6b);
    XorZero(0x85e);
    XorNibble(0x85e, 0xb, 0x0, 0x4);
    XorNibble(0x85eb, 0xc, 0x4, 0x2);
    XorNibble(0x85ebc, 0xa, 0x42, 0xf);
    XorNibble(0x85ebca, 0x6, 0x42f, 0x5);
    XorNibble(0x85ebca6, 0xb, 0x42f5, 0xe);
  }

  lemma Second32()
    ensures Fold(0x514e79f9, 16) == 0x514e28b7
  {
    Powers();
    Digits();
    hide Xor, Shr, Pow2;
    ShrOf(0x514e79f9, 16, 0x514e, 0x79f9);
    XorZero(0x514e);
    XorNibble(0x514e, 0x7, 0x0, 0x5);
    XorNibble(0x514e7, 0x9, 0x5, 0x1);
    XorNibble(0x514e79, 0xf, 0x51, 0x4);
    XorNibble(0x514e79f, 0x9, 0x514, 0xe);
  }

  lemma FirstTop()
    ensures Fold(0xffffffffffffffff, 33) == 0xffffffff80000000
  {
    Powers();
    Digits();
    hide Xor, Shr, Pow2;
    ShrOf(0xffffffffffffffff, 33, 0x7fffffff, 0x1ffffffff);
    XorZero(0xffffffff);
    XorNibble(0xffffffff, 0xf, 0x0, 0x7);
    XorNibble(0xfffffffff, 0xf, 0x7, 0xf);
    XorNibble(0xffffffffff, 0xf, 0x7f, 0xf);
    XorNibble(0xfffffffffff, 0xf, 0x7ff, 0xf);
    XorNibble(0xffffffffffff, 0xf, 0x7fff, 0xf);
    XorNibble(0xfffffffffffff, 0xf, 0x7ffff, 0xf);
    XorNibble(0xffffffffffffff, 0xf, 0x7fffff, 0xf);
    XorNibble(0xfffffffffffffff, 0xf, 0x7ffffff, 0xf);
  }

  lemma SecondTop()
    ensures Fold(0x955399980000000, 33) == 0x955399984aa9ccc
  {
    Powers();
    Digits();
    hide Xor, Shr, Pow2;
    ShrOf(0x955399980000000, 33, 0x4aa9ccc, 0x180000000);
    XorZero(0x95539998);
    XorNibble(0x95539998, 0x0, 0x0, 0x4);
    XorNibble(0x955399980, 0x0, 0x4, 0xa);
    XorNibble(0x9553999800, 0x0, 0x4a, 0xa);
    XorNibble(0x95539998000, 0x0, 0x4aa, 0x9);
    XorNibble(0x955399980000, 0x0, 0x4aa9, 0xc);
    XorNibble(0x9553999800000, 0x0, 0x4aa9c, 0xc);
    XorNibble(0x95539998000000, 0x0, 0x4aa9cc, 0xc);
  }

  lemma ThirdTop()
    ensures Fold(0x64b5720b79d8e624, 33) == 0x64b5720b4b825f21
  {
    Powers();
    Digits();
    hide Xor, Shr, Pow2;
    ShrOf(0x64b5720b79d8e624, 33, 0x325ab905, 0x179d8e624);
    XorZero(0x64b5720b);
    XorNibble(0x64b5720b, 0x7, 0x0, 0x3);
    XorNibble(0x64b5720b7, 0x9, 0x3, 0x2);
    XorNibble(0x64b5720b79, 0xd, 0x32, 0x5);
    XorNibble(0x64b5720b79d, 0x8, 0x325, 0xa);
    XorNibble(0x64b5720b79d8, 0xe, 0x325a, 0xb);
    XorNibble(0x64b5720b79d8e, 0x6, 0x325ab, 0x9);
    XorZero(0x2);
    XorNibble(0x64b5720b79d8e6, 0x2, 0x325ab9, 0x0);
    XorNibble(0x64b5720b79d8e62, 0x4, 0x325ab90, 0x5);
  }

  lemma Product(h: nat, factor: nat, word: nat, q: nat, r: nat)
    requires r < word && h * factor == q * word + r
    ensures Times(h, factor, word) == r
  {
    DivModUnique(h * factor, word, q, r);
  }

  /** The mixers are the finalizers of MurmurHash3, and take one to the values known for these. */
  lemma KnownValues()
    ensures Avalanche64(1) == 0xb456bcfc34c2cb2c && Avalanche32(1) == 0x514e28b7
  {
    Known64();
    Known32();
  }

  lemma Known64()
    ensures Avalanche64(1) == 0xb456bcfc34c2cb2c
  {
    hide Fold, Times;
    FoldOne();
    First64();
    Second64();
    Product(0x1, 0xff51afd7ed558ccd, WORD64, 0x0, 0xff51afd7ed558ccd);
    Product(0xff51afd792fd5b26, 0xc4ceb9fe1a85ec53, WORD64, 0xc448b7dc01955fc3, 0xb456bcfc6ee99552);
  }

  lemma Known32()
    ensures Avalanche32(1) == 0x514e28b7
  {
    hide Fold, Times;
    FoldOne();
    First32();
    Second32();
    Product(0x1, 0x85ebca6b, WORD32, 0x0, 0x85ebca6b);
    Product(0x85efe535, 0xc2b2ae35, WORD32, 0x65dd47a4, 0x514e79f9);
  }

  /** A word with its top bit clear after mixing gets it set. */
  lemma KnownTop()
    ensures Avalanche(WORD64 - 1) == 0xe4b5720b4b825f21
  {
    hide Fold, Times;
    FirstTop();
    SecondTop();
    ThirdTop();
    Product(0xffffffff80000000, 0xff51afd7ed558ccd, WORD64, 0xff51afd76dacb4e1, 0x955399980000000);
    Product(0x955399984aa9ccc, 0xc4ceb9fe1a85ec53, WORD64, 0x72cc975bd420245, 0x64b5720b79d8e624);
  }
}
