/** 64-bit division out of 32-bit words: __udivmoddi4 and the signed wrappers on top of it. */
module Division {
  import opened Words

  const TOP := 0x8000_0000_0000_0000

  /** An arithmetic shift right by 63: all ones for a negative word, zero otherwise. */
  function SignMask(x: DWord): DWord {
    if x >= TOP then W64 - 1 else 0
  }

  // ----- one turn of the loop on words -----

  lemma OrBit(x: Word, b: nat)
    requires b <= 1
    ensures Or(Shl(x, 1), b) == (2 * x) % W32 + b < W32
  {
    hide Or;
    assert Shl(x, 1) == (2 * x) % W32 by { assert Pow2(1) == 2; }
    assert ((2 * x) % W32) % 2 == 0;
    OrLastBit(Shl(x, 1), b);
  }

  lemma TopBit(x: Word)
    ensures Shr(x, 31) == if x >= 0x8000_0000 then 1 else 0
  {
    Pow2Values();
  }

  /** Two words shifted left by one together, with a bit shifted in. */
  lemma ShiftPair(h: Word, l: Word, b: nat)
    requires b <= 1
    ensures 0 <= Or(Shl(h, 1), Shr(l, 31)) < W32 && 0 <= Or(Shl(l, 1), b) < W32
    ensures Join(Or(Shl(h, 1), Shr(l, 31)), Or(Shl(l, 1), b)) == (2 * Join(h, l) + b) % W64
  {
    TopBit(l);
    OrBit(h, Shr(l, 31));
    OrBit(l, b);
    hide Or, Shl, Shr;
    JoinDoubled(h, l, b);
  }

  lemma JoinDoubled(h: Word, l: Word, b: nat)
    requires b <= 1
    ensures ((2 * h) % W32 + (if l >= 0x8000_0000 then 1 else 0)) * W32 + ((2 * l) % W32 + b) == (2 * Join(h, l) + b) % W64
  {
    assert (2 * l) % W32 == if l >= 0x8000_0000 then 2 * l - W32 else 2 * l;
    assert (2 * h) % W32 == if h >= 0x8000_0000 then 2 * h - W32 else 2 * h;
  }

  // ----- one turn of the loop on numbers -----

  /** With s bits of n still to come, the r:q pair holds the remainder so far, those bits, and the
      quotient q so far but for its last bit, the carry. */
  ghost predicate Dividing(n: DWord, d: DWord, s: nat, r: DWord, qAll: DWord, q: nat, carry: nat) {
    && s <= 63 && 0 < d && r < d && carry <= 1
    && n / Pow2(s) == (2 * q + carry) * d + r
    && qAll == (n % Pow2(s)) * Pow2(64 - s) + q
  }

  /** The next bit of n. */
  lemma NextBit(n: DWord, s: nat)
    requires 1 <= s <= 63
    ensures Pow2(s) == 2 * Pow2(s - 1) && Pow2(s - 1) * Pow2(65 - s) == W64 && Pow2(65 - s) == 2 * Pow2(64 - s)
    ensures var p := Pow2(s - 1);
      var b := n / p % 2;
      && b <= 1 && n % Pow2(s) == b * p + n % p && n / p == 2 * (n / Pow2(s)) + b
  {
    var p := Pow2(s - 1);
    Pow2Sum(s - 1, 65 - s);
    Pow2Values();
    DivDiv(n, p, 2);
    DivMod(n / p, 2);
    assert p * 2 == Pow2(s);
  }

  lemma QuotientIsSmall(n: DWord, d: DWord, s: nat, r: DWord, qAll: DWord, q: nat, carry: nat)
    requires Dividing(n, d, s, r, qAll, q, carry)
    ensures 2 * q + carry < Pow2(64 - s) && n / Pow2(s) < Pow2(64 - s)
  {
    Pow2Sum(64 - s, s);
    Pow2Values();
    hide Pow2;
    var k := 2 * q + carry;
    assert n < Pow2(64 - s) * Pow2(s);
    DivIsLess(n, Pow2(64 - s), Pow2(s));
    MulMonotone(1, d, k);
    assert d * k == k * d;
  }

  /** The bit that leaves q is the next bit of n, and what stays is in step again. */
  lemma ShiftedQuotient(n: DWord, d: DWord, s: nat, r: DWord, qAll: DWord, q: nat, carry: nat)
    requires Dividing(n, d, s, r, qAll, q, carry) && 1 <= s
    ensures var p := Pow2(s - 1);
      var b := n / p % 2;
      && (qAll >= TOP <==> b == 1)
      && (2 * qAll + carry) % W64 == (n % p) * Pow2(65 - s) + (2 * q + carry)
      && 2 * r + b <= n / p && b <= 1 && carry <= 1
  {
    var p, t := Pow2(s - 1), Pow2(64 - s);
    var b := n / p % 2;
    NextBit(n, s);
    QuotientIsSmall(n, d, s, r, qAll, q, carry);
    hide Pow2;
    ShiftArithmetic64(n % p, p, t, b, q, carry, qAll);
    assert (2 * q + carry) * d >= 0;
  }

  lemma ShiftArithmetic64(rest: nat, p: nat, t: nat, b: nat, q: nat, carry: nat, qAll: DWord)
    requires p * (2 * t) == W64 && rest < p && b <= 1 && carry <= 1 && 2 * q + carry < t
    requires qAll == (b * p + rest) * t + q
    ensures qAll >= TOP <==> b == 1
    ensures (2 * qAll + carry) % W64 == rest * (2 * t) + (2 * q + carry)
  {
    var low := rest * t;
    TwoParts(b, p, rest, t);
    RestIsSmall(rest, p, t);
    assert p * (2 * t) == 2 * (p * t) && rest * (2 * t) == 2 * low by { DoubleOut(p, t); DoubleOut(rest, t); }
    OneBit(b, p * t);
    DivModUnique(2 * qAll + carry, W64, b, 2 * low + (2 * q + carry));
  }

  lemma TwoParts(b: nat, p: nat, rest: nat, t: nat)
    ensures (b * p + rest) * t == b * (p * t) + rest * t
  {
    assert b * p * t == b * (p * t);
  }

  lemma RestIsSmall(rest: nat, p: nat, t: nat)
    requires rest < p
    ensures 0 <= rest * t <= p * t - t
  {
    MulMonotone(rest, p - 1, t);
    MulMonotone(0, rest, t);
  }

  lemma DoubleOut(p: nat, t: nat)
    ensures p * (2 * t) == 2 * (p * t)
  {
  }

  lemma OneBit(b: nat, x: nat)
    requires b <= 1
    ensures b * x == if b == 1 then x else 0
  {
  }

  /** The mask from (d - r - 1) >> 63 is set exactly when d still fits into r. */
  lemma MaskIsTest(d: DWord, r: DWord)
    requires 0 < d && r < 2 * d && (d >= TOP ==> r >= TOP)
    ensures SignMask((d - r - 1) % W64) == if r >= d then W64 - 1 else 0
  {
    if r >= d {
      assert (d - r - 1) % W64 == d - r - 1 + W64;
    } else {
      assert (d - r - 1) % W64 == d - r - 1;
    }
  }

  lemma AndWithMask(d: DWord, on: bool)
    ensures And(if on then W64 - 1 else 0, 1) == if on then 1 else 0
    ensures And(d, if on then W64 - 1 else 0) == if on then d else 0
  {
    Pow2Values();
    if on {
      AndMask(d, 64);
      AndCommutes(W64 - 1, 1);
      AndMask(1, 64);
    }
  }

  lemma {:induction false} AndCommutes(x: nat, y: nat)
    ensures And(x, y) == And(y, x)
    decreases x
  {
    if x != 0 && y != 0 {
      AndCommutes(x / 2, y / 2);
    }
  }

  /** Compare and subtract: the invariant for one bit less. */
  lemma DividingStep(n: DWord, d: DWord, s: nat, r: DWord, qAll: DWord, q: nat, carry: nat)
    requires Dividing(n, d, s, r, qAll, q, carry) && 1 <= s
    ensures var r', qAll' := 2 * r + n / Pow2(s - 1) % 2, (2 * qAll + carry) % W64;
      && 0 <= r' < W64 && r' < 2 * d
      && (r' >= d ==> Dividing(n, d, s - 1, r' - d, qAll', 2 * q + carry, 1))
      && (r' < d ==> Dividing(n, d, s - 1, r', qAll', 2 * q + carry, 0))
  {
    NextBit(n, s);
    ShiftedQuotient(n, d, s, r, qAll, q, carry);
    var p := Pow2(s - 1);
    DivLessEq(n, p);
    hide Pow2;
    var k, b := 2 * q + carry, n / p % 2;
    StepArithmetic(k, d, r, b);
    assert Pow2(64 - (s - 1)) == Pow2(65 - s);
  }

  lemma StepArithmetic(k: int, d: int, r: int, b: int)
    ensures 2 * (k * d + r) + b == (2 * k) * d + (2 * r + b)
    ensures 2 * (k * d + r) + b == (2 * k + 1) * d + (2 * r + b - d)
  {
  }

  /** The branch-free compare and subtract: carry = r >= d, and r gives up d if so. */
  method CompareAndSubtract(d: DWord, r: DWord) returns (r': DWord, carry: Word)
    requires 0 < d && r < 2 * d && (d >= TOP ==> r >= TOP)
    ensures carry == (if r >= d then 1 else 0) && r' == if r >= d then r - d else r
  {
    hide And;
    MaskIsTest(d, r);
    AndWithMask(d, r >= d);
    var mask := SignMask((d - r - 1) % W64);
    carry := And(mask, 1);
    r' := (r - And(d, mask)) % W64;
  }

  /** r:q = ((r:q) << 1) | carry. */
  method ShiftAll(qh: Word, ql: Word, rh: Word, rl: Word, carry: Word)
    returns (qh': Word, ql': Word, rh': Word, rl': Word)
    requires carry <= 1
    ensures Join(rh', rl') == (2 * Join(rh, rl) + (if Join(qh, ql) >= TOP then 1 else 0)) % W64
    ensures Join(qh', ql') == (2 * Join(qh, ql) + carry) % W64
  {
    TopBit(qh);
    ShiftPair(rh, rl, Shr(qh, 31));
    ShiftPair(qh, ql, carry);
    hide Or, Shl, Shr;
    rh' := Or(Shl(rh, 1), Shr(rl, 31));
    rl' := Or(Shl(rl, 1), Shr(qh, 31));
    qh' := Or(Shl(qh, 1), Shr(ql, 31));
    ql' := Or(Shl(ql, 1), carry);
  }

  lemma DividingTurn(n: DWord, d: DWord, s: nat, r: DWord, qAll: DWord, q: nat, carry: nat)
    requires Dividing(n, d, s, r, qAll, q, carry) && 1 <= s
    requires d >= TOP ==> s == 1 && n >= TOP
    ensures var r' := (2 * r + (if qAll >= TOP then 1 else 0)) % W64;
      && r' < 2 * d && (d >= TOP ==> r' >= TOP)
      && Dividing(n, d, s - 1, if r' >= d then r' - d else r', (2 * qAll + carry) % W64, 2 * q + carry,
                  if r' >= d then 1 else 0)
  {
    hide Pow2, Dividing;
    DividingStep(n, d, s, r, qAll, q, carry);
    ShiftedQuotient(n, d, s, r, qAll, q, carry);
    if d >= TOP {
      BigDivisor(n, d, r, qAll, q, carry);
    }
    var b := n / Pow2(s - 1) % 2;
    SmallSum(2 * r + b);
  }

  lemma SmallSum(x: DWord)
    ensures x % W64 == x
  {
  }

  /** One turn of the loop. */
  method Turn(qh: Word, ql: Word, rh: Word, rl: Word, carry: Word, d: DWord, ghost n: DWord, ghost s: nat, ghost q: nat)
    returns (qh': Word, ql': Word, rh': Word, rl': Word, carry': Word)
    requires 1 <= s && Dividing(n, d, s, Join(rh, rl), Join(qh, ql), q, carry)
    requires d >= TOP ==> s == 1 && n >= TOP
    ensures Dividing(n, d, s - 1, Join(rh', rl'), Join(qh', ql'), 2 * q + carry, carry')
  {
    DividingTurn(n, d, s, Join(rh, rl), Join(qh, ql), q, carry);
    assert carry <= 1 && 0 < d;
    hide Dividing, Join;
    qh', ql', rh', rl' := ShiftAll(qh, ql, rh, rl, carry);
    var rAll := Join(rh', rl');
    rAll, carry' := CompareAndSubtract(d, rAll);
    rh', rl' := High(rAll), Low(rAll);
    JoinHighLow(rAll);
  }

  /** The loop of __udivmoddi4, from the point where q and r are set up. */
  method LongDivide(qh: Word, ql: Word, rh: Word, rl: Word, d: DWord, sr0: nat, ghost n: DWord)
    returns (quot: DWord, rem: DWord)
    requires 1 <= sr0 && Dividing(n, d, sr0, Join(rh, rl), Join(qh, ql), 0, 0)
    requires d >= TOP ==> sr0 == 1 && n >= TOP
    ensures quot == n / d && rem == n % d
  {
    hide Dividing, Or;
    var qHigh: Word, qLow: Word, rHigh: Word, rLow: Word := qh, ql, rh, rl;
    var sr, carry: Word := sr0, 0;
    ghost var q: nat := 0;
    while sr > 0
      invariant Dividing(n, d, sr, Join(rHigh, rLow), Join(qHigh, qLow), q, carry)
      invariant d >= TOP ==> sr <= 1 && n >= TOP
    {
      ghost var q' := 2 * q + carry;
      qHigh, qLow, rHigh, rLow, carry := Turn(qHigh, qLow, rHigh, rLow, carry, d, n, sr, q);
      q := q';
      sr := sr - 1;
    }
    rem := Join(rHigh, rLow);
    Finished(n, d, rem, Join(qHigh, qLow), q, carry);
    OrBit64(Join(qHigh, qLow), carry);
    quot := Or(Join(qHigh, qLow) * 2 % W64, carry);
  }

  /** A divisor with its top bit set meets a remainder with its top bit set: its only step takes
      the last bit of n, and no quotient bit has been found before. */
  lemma BigDivisor(n: DWord, d: DWord, r: DWord, qAll: DWord, q: nat, carry: nat)
    requires Dividing(n, d, 1, r, qAll, q, carry) && d >= TOP && n >= TOP
    ensures 2 * r + n / Pow2(0) % 2 >= TOP
  {
    assert Pow2(0) == 1 && Pow2(1) == 2;
    var k := 2 * q + carry;
    assert n / 2 == k * d + r;
    SmallMultiple(k, d);
  }

  lemma Finished(n: DWord, d: DWord, r: DWord, qAll: DWord, q: nat, carry: nat)
    requires Dividing(n, d, 0, r, qAll, q, carry)
    ensures qAll == q && 2 * q + carry == n / d && 2 * q + carry < W64 && carry <= 1 && r == n % d
  {
    assert Pow2(0) == 1;
    DivModUnique(n, d, 2 * q + carry, r);
    DivLessEq(n, d);
  }

  lemma OrBit64(x: DWord, b: nat)
    requires b <= 1 && 2 * x + b < W64
    ensures Or(x * 2 % W64, b) == 2 * x + b
  {
    hide Or;
    assert x * 2 % W64 == 2 * x;
    OrLastBit(2 * x, b);
  }

  lemma OrLastBit(x: nat, b: nat)
    requires x % 2 == 0 && b <= 1
    ensures Or(x, b) == x + b
  {
    hide Or;
    assert Pow2(1) == 2;
    OrIsSum(x, b, 1);
  }

  // ----- the normalising shift -----

  lemma RemainderOfLow(h: Word, l: Word, p: nat, c: nat)
    requires p > 0 && p * c == W32
    ensures Join(h, l) % p == l % p
  {
    DivMod(l, p);
    assert Join(h, l) == (h * c + l / p) * p + l % p by {
      assert (h * c + l / p) * p == h * (p * c) + l / p * p;
    }
    DivModUnique(Join(h, l), p, h * c + l / p, l % p);
  }

  lemma RegroupLow(x: nat, c: nat)
    ensures x * c * W32 == x * (c * W32)
  {
  }

  /** 1 to 31 bits: r is n >> k and q holds the bits that fell out, at its top. */
  lemma ShortShift(h: Word, l: Word, k: nat)
    requires 1 <= k <= 31
    ensures Join(Shl(l, 32 - k), 0) == (Join(h, l) % Pow2(k)) * Pow2(64 - k)
    ensures 0 <= Or(Shl(h, 32 - k), Shr(l, k)) < W32
    ensures Join(Shr(h, k), Or(Shl(h, 32 - k), Shr(l, k))) == Join(h, l) / Pow2(k)
  {
    Pow2Values();
    Pow2Sum(k, 32 - k);
    Pow2Sum(32 - k, 32);
    hide Pow2, Or, Shl, Shr;
    ShlKeepsRest(l, k);
    ShiftRight(h, l, k);
    RemainderOfLow(h, l, Pow2(k), Pow2(32 - k));
    RegroupLow(l % Pow2(k), Pow2(32 - k));
  }

  /** A whole word. */
  lemma WordShift(h: Word, l: Word)
    ensures Join(l, 0) == (Join(h, l) % Pow2(32)) * Pow2(64 - 32)
    ensures Join(0, h) == Join(h, l) / Pow2(32)
  {
    Pow2Values();
  }

  /** 33 to 63 bits. */
  lemma LongShift(h: Word, l: Word, k: nat)
    requires 33 <= k <= 63
    ensures 0 <= Or(Shl(h, 64 - k), Shr(l, k - 32)) < W32
    ensures Join(Or(Shl(h, 64 - k), Shr(l, k - 32)), Shl(l, 64 - k)) == (Join(h, l) % Pow2(k)) * Pow2(64 - k)
    ensures Join(0, Shr(h, k - 32)) == Join(h, l) / Pow2(k)
  {
    var m := k - 32;
    Pow2Values();
    Pow2Sum(32, m);
    Pow2Sum(m, 32 - m);
    assert Shr(h, m) == h / Pow2(m) && Shr(l, m) == l / Pow2(m);
    hide Pow2, Or, Shl, Shr;
    LowerWord(h, l, m);
    ShlKeepsRest(l, m);
    DivDiv(Join(h, l), W32, Pow2(m));
    assert Join(h, l) / W32 == h && Join(h, l) % W32 == l;
    LongShiftArithmetic(h % Pow2(m), l, Pow2(m), Pow2(32 - m));
  }

  lemma LongShiftArithmetic(rest: nat, l: Word, p: nat, c: nat)
    requires p > 0 && p * c == W32
    ensures (rest * c + l / p) * W32 + (l % p) * c == (rest * W32 + l) * c
  {
    DivMod(l, p);
    assert l * c == (l / p) * (p * c) + (l % p) * c;
  }

  lemma ShiftedIsSmall(n: nat, m: nat, k: nat)
    requires k <= m && n < Pow2(m)
    ensures n / Pow2(k) < Pow2(m - k)
  {
    Pow2Sum(m - k, k);
    DivIsLess(n, Pow2(m - k), Pow2(k));
  }

  /** Below 2^(64 - leading zeros of the high word). */
  lemma JoinBelow(h: Word, l: Word)
    requires h > 0
    ensures Join(h, l) < Pow2(64 - Clz(h))
  {
    hide Pow2, Clz;
    Pow2Sum(32 - Clz(h), 32);
    Pow2Values();
    MulMonotone(h + 1, Pow2(32 - Clz(h)), W32);
  }

  /** Both high words non-zero: either d is plainly larger, or the shift leaves less than d. */
  lemma ShiftForHigh(nh: Word, nl: Word, dh: Word, dl: Word)
    requires nh > 0 && dh > 0
    ensures Clz(dh) < Clz(nh) ==> Join(nh, nl) < Join(dh, dl)
    ensures Clz(dh) >= Clz(nh) ==> Join(nh, nl) / Pow2(Clz(dh) - Clz(nh) + 1) < Join(dh, dl)
    ensures Clz(dh) >= Clz(nh) && Join(dh, dl) >= TOP ==> Clz(dh) - Clz(nh) + 1 == 1 && Join(nh, nl) >= TOP
  {
    hide Pow2, Clz, Join;
    if Clz(dh) < Clz(nh) {
      FewerBits(nh, nl, dh, dl);
    } else {
      JoinBelow(nh, nl);
      ShiftedIsSmall(Join(nh, nl), 64 - Clz(nh), Clz(dh) - Clz(nh) + 1);
      JoinAbove(dh, dl);
      assert 64 - Clz(nh) - (Clz(dh) - Clz(nh) + 1) == 63 - Clz(dh);
      if Join(dh, dl) >= TOP {
        TopBitInHigh(dh, dl);
        HighBitHasNoZeros(dh);
        NoZeros(nh, nl);
      }
    }
  }

  lemma FewerBits(nh: Word, nl: Word, dh: Word, dl: Word)
    requires nh > 0 && dh > 0 && Clz(dh) < Clz(nh)
    ensures Join(nh, nl) < Join(dh, dl)
  {
    Pow2Monotone(32 - Clz(nh), 31 - Clz(dh));
    hide Pow2;
    assert nh < dh;
  }

  lemma JoinAbove(h: Word, l: Word)
    requires h > 0
    ensures Pow2(63 - Clz(h)) <= Join(h, l)
  {
    hide Pow2, Clz;
    Pow2Sum(31 - Clz(h), 32);
    Pow2Values();
    MulMonotone(Pow2(31 - Clz(h)), h, W32);
  }

  lemma TopBitInHigh(h: Word, l: Word)
    requires Join(h, l) >= TOP
    ensures h >= 0x8000_0000
  {
  }

  lemma NoZeros(h: Word, l: Word)
    requires h > 0 && Clz(h) == 0
    ensures Join(h, l) >= TOP
  {
    Pow2Values();
  }

  lemma HighBitHasNoZeros(x: Word)
    requires x >= 0x8000_0000
    ensures Clz(x) == 0
  {
    Pow2Values();
    if Clz(x) >= 1 {
      Pow2Monotone(32 - Clz(x), 31);
    }
  }

  /** A divisor of one word under a dividend of two. */
  lemma ShiftForLow(nh: Word, nl: Word, dl: Word)
    requires nh > 0 && dl > 1
    ensures 2 <= 33 + Clz(dl) - Clz(nh) <= 63
    ensures Join(nh, nl) / Pow2(33 + Clz(dl) - Clz(nh)) < dl
  {
    assert Pow2(1) == 2 && Pow2(0) == 1;
    JoinBelow(nh, nl);
    ShiftedIsSmall(Join(nh, nl), 64 - Clz(nh), 33 + Clz(dl) - Clz(nh));
  }

  /** Where the loop starts. */
  lemma SetUp(n: DWord, d: DWord, k: nat, r: DWord, q: DWord)
    requires 1 <= k <= 63 && 0 < d
    requires r == n / Pow2(k) < d && q == (n % Pow2(k)) * Pow2(64 - k)
    ensures Dividing(n, d, k, r, q, 0, 0)
  {
  }

  // ----- the special cases -----

  lemma LowWordsZero(nh: Word, dh: Word)
    requires dh > 0
    ensures Join(nh, 0) / Join(dh, 0) == nh / dh && Join(nh, 0) % Join(dh, 0) == Join(nh % dh, 0)
  {
    DivMod(nh, dh);
    assert nh * W32 == nh / dh * (dh * W32) + nh % dh * W32;
    DivModUnique(Join(nh, 0), Join(dh, 0), nh / dh, Join(nh % dh, 0));
  }

  lemma HighPowerOfTwo(nh: Word, nl: Word, dh: Word)
    requires dh > 0 && And(dh, dh - 1) == 0
    ensures And(nh, dh - 1) < W32 && Join(nh, nl) % Join(dh, 0) == Join(And(nh, dh - 1), nl)
    ensures Join(nh, nl) / Join(dh, 0) == Shr(nh, Ctz(dh))
  {
    hide And, Ctz, Pow2;
    SingleBit(dh);
    AndMask(nh, Ctz(dh));
    assert Shr(nh, Ctz(dh)) == nh / dh;
    HighOnly(nh, nl, dh);
  }

  /** A divisor with a zero low word divides the high word, and leaves the low one. */
  lemma HighOnly(nh: Word, nl: Word, dh: Word)
    requires dh > 0
    ensures 0 <= nh % dh < W32
    ensures Join(nh, nl) / Join(dh, 0) == nh / dh && Join(nh, nl) % Join(dh, 0) == Join(nh % dh, nl)
  {
    hide Join;
    DivMod(nh, dh);
    HighParts(nh, nl, dh, nh / dh, nh % dh);
    DivModUnique(Join(nh, nl), Join(dh, 0), nh / dh, Join(nh % dh, nl));
  }

  lemma HighParts(nh: Word, nl: Word, dh: Word, q: nat, r: nat)
    requires nh == q * dh + r && r < dh
    ensures 0 <= r < W32 && Join(nh, nl) == q * Join(dh, 0) + Join(r, nl) && Join(r, nl) < Join(dh, 0)
  {
    HighProduct(q, dh);
  }

  lemma HighProduct(q: nat, d: nat)
    ensures q * (d * W32 + 0) == q * d * W32
  {
  }

  lemma LowPowerOfTwo(nh: Word, nl: Word, dl: Word)
    requires dl > 0 && And(dl, dl - 1) == 0
    ensures Join(nh, nl) % dl == And(nl, dl - 1)
    ensures dl != 1 ==> 1 <= Ctz(dl) <= 31 && 0 <= Or(Shl(nh, 32 - Ctz(dl)), Shr(nl, Ctz(dl))) < W32
    ensures dl != 1 ==> Join(nh, nl) / dl == Join(Shr(nh, Ctz(dl)), Or(Shl(nh, 32 - Ctz(dl)), Shr(nl, Ctz(dl))))
  {
    SingleBit(dl);
    var t := Ctz(dl);
    AndMask(nl, t);
    Pow2Sum(t, 32 - t);
    Pow2Values();
    RemainderOfLow(nh, nl, dl, Pow2(32 - t));
    if dl != 1 {
      assert t != 0;
      hide And, Or, Shl, Shr, Pow2;
      ShiftRight(nh, nl, t);
    }
  }

  lemma PlainlyLess(n: DWord, d: DWord)
    requires n < d
    ensures n / d == 0 && n % d == n
  {
  }

  /** Subtraction of unsigned words. */
  function Minus(x: Word, y: Word): Word {
    if x >= y then x - y else x - y + W32
  }

  // ----- __udivmoddi4 -----

  /** The high word of n is not zero, the low word of d is: lines 57-118. */
  method DivideByHigh(nh: Word, nl: Word, dh: Word) returns (quot: DWord, rem: DWord)
    requires nh > 0 && dh > 0
    ensures quot == Join(nh, nl) / Join(dh, 0) && rem == Join(nh, nl) % Join(dh, 0)
  {
    hide And, Or, Shl, Shr, Ctz, Clz, Pow2, Dividing;
    ghost var n, d := Join(nh, nl), Join(dh, 0);
    if nl == 0 {
      LowWordsZero(nh, dh);
      return nh / dh, Join(nh % dh, 0);
    }
    if And(dh, dh - 1) == 0 {
      HighPowerOfTwo(nh, nl, dh);
      return Shr(nh, Ctz(dh)), Join(And(nh, dh - 1), nl);
    }
    NotOne(dh);
    ShiftForHigh(nh, nl, dh, 0);
    var sr: nat := Minus(Clz(dh), Clz(nh));
    if sr > 30 {
      PlainlyLess(n, d);
      return 0, Join(nh, nl);
    }
    sr := sr + 1;
    ShortShift(nh, nl, sr);
    SetUp(n, d, sr, Join(Shr(nh, sr), Or(Shl(nh, 32 - sr), Shr(nl, sr))), Join(Shl(nl, 32 - sr), 0));
    quot, rem := LongDivide(Shl(nl, 32 - sr), 0, Shr(nh, sr), Or(Shl(nh, 32 - sr), Shr(nl, sr)),
                            Join(dh, 0), sr, n);
  }

  lemma NotOne(x: Word)
    requires x > 0 && And(x, x - 1) != 0
    ensures x > 1 && Clz(x) <= 30
  {
    assert Pow2(0) == 1 && Pow2(1) == 2;
  }

  /** The high word of n is not zero, the high word of d is: lines 121-169. */
  method DivideByLow(nh: Word, nl: Word, dl: Word) returns (quot: DWord, rem: DWord)
    requires nh > 0 && dl > 0
    ensures quot == Join(nh, nl) / dl && rem == Join(nh, nl) % dl
  {
    hide And, Or, Shl, Shr, Ctz, Clz, Pow2, Dividing;
    ghost var n := Join(nh, nl);
    if And(dl, dl - 1) == 0 {
      LowPowerOfTwo(nh, nl, dl);
      rem := And(nl, dl - 1);
      if dl == 1 {
        return Join(nh, nl), rem;
      }
      var t := Ctz(dl);
      return Join(Shr(nh, t), Or(Shl(nh, 32 - t), Shr(nl, t))), rem;
    }
    NotOne(dl);
    ShiftForLow(nh, nl, dl);
    var sr: nat := 33 + Clz(dl) - Clz(nh);
    var qh: Word, ql: Word, rh: Word, rl: Word;
    if sr == 32 {
      WordShift(nh, nl);
      qh, ql, rh, rl := nl, 0, 0, nh;
    } else if sr < 32 {
      ShortShift(nh, nl, sr);
      qh, ql := Shl(nl, 32 - sr), 0;
      rh, rl := Shr(nh, sr), Or(Shl(nh, 32 - sr), Shr(nl, sr));
    } else {
      LongShift(nh, nl, sr);
      qh, ql := Or(Shl(nh, 64 - sr), Shr(nl, sr - 32)), Shl(nl, 64 - sr);
      rh, rl := 0, Shr(nh, sr - 32);
    }
    SetUp(n, dl, sr, Join(rh, rl), Join(qh, ql));
    quot, rem := LongDivide(qh, ql, rh, rl, dl, sr, n);
  }

  /** Lines 185-200: q and r for a shift of up to a whole word, then the loop. */
  method ShiftAndDivide(nh: Word, nl: Word, d: DWord, sr: nat) returns (quot: DWord, rem: DWord)
    requires 1 <= sr <= 32 && 0 < d && Join(nh, nl) / Pow2(sr) < d
    requires d >= TOP ==> sr == 1 && Join(nh, nl) >= TOP
    ensures quot == Join(nh, nl) / d && rem == Join(nh, nl) % d
  {
    var zero: Word := 0;
    hide *;
    var qh: Word, rh: Word, rl: Word;
    if sr == 32 {
      StartWithWord(nh, nl, d);
      qh, rh, rl := nl, zero, nh;
    } else {
      StartWithShift(nh, nl, d, sr);
      qh, rh, rl := Shl(nl, 32 - sr), Shr(nh, sr), Or(Shl(nh, 32 - sr), Shr(nl, sr));
    }
    quot, rem := LongDivide(qh, zero, rh, rl, d, sr, Join(nh, nl));
  }

  lemma StartWithWord(nh: Word, nl: Word, d: DWord)
    requires 0 < d && Join(nh, nl) / Pow2(32) < d
    ensures Dividing(Join(nh, nl), d, 32, Join(0, nh), Join(nl, 0), 0, 0)
  {
    hide Pow2, Dividing, Join;
    WordShift(nh, nl);
    SetUp(Join(nh, nl), d, 32, Join(0, nh), Join(nl, 0));
  }

  lemma StartWithShift(nh: Word, nl: Word, d: DWord, sr: nat)
    requires 1 <= sr <= 31 && 0 < d && Join(nh, nl) / Pow2(sr) < d
    ensures 0 <= Or(Shl(nh, 32 - sr), Shr(nl, sr)) < W32
    ensures Dividing(Join(nh, nl), d, sr, Join(Shr(nh, sr), Or(Shl(nh, 32 - sr), Shr(nl, sr))), Join(Shl(nl, 32 - sr), 0), 0, 0)
  {
    hide Or, Shl, Shr, Pow2, Dividing, Join;
    ShortShift(nh, nl, sr);
    SetUp(Join(nh, nl), d, sr, Join(Shr(nh, sr), Or(Shl(nh, 32 - sr), Shr(nl, sr))), Join(Shl(nl, 32 - sr), 0));
  }

  /** Both words of d and the high word of n are not zero: lines 171-200. */
  method DivideByBoth(nh: Word, nl: Word, dh: Word, dl: Word) returns (quot: DWord, rem: DWord)
    requires nh > 0 && dh > 0 && dl > 0
    ensures quot == Join(nh, nl) / Join(dh, dl) && rem == Join(nh, nl) % Join(dh, dl)
  {
    assert Join(dh, dl) > 0;
    hide Clz, Pow2, Join;
    ShiftForHigh(nh, nl, dh, dl);
    var sr: nat := Minus(Clz(dh), Clz(nh));
    if sr > 31 {
      PlainlyLess(Join(nh, nl), Join(dh, dl));
      return 0, Join(nh, nl);
    }
    quot, rem := ShiftAndDivide(nh, nl, Join(dh, dl), sr + 1);
  }

  /** The whole case split. */
  method Divide(a: DWord, b: DWord) returns (quot: DWord, rem: DWord)
    requires b != 0
    ensures quot == a / b && rem == a % b
  {
    JoinHighLow(a);
    JoinHighLow(b);
    var nh, nl, dh, dl := High(a), Low(a), High(b), Low(b);
    if nh == 0 {
      if dh == 0 {
        return nl / dl, nl % dl;
      }
      PlainlyLess(a, b);
      return 0, nl;
    }
    if dl == 0 {
      quot, rem := DivideByHigh(nh, nl, dh);
    } else if dh == 0 {
      quot, rem := DivideByLow(nh, nl, dl);
    } else {
      quot, rem := DivideByBoth(nh, nl, dh, dl);
    }
  }

  /** Where the caller wants the remainder. */
  class Slot {
    var value: DWord
  }

  /** __udivmoddi4: the remainder goes through the pointer, unless that is NULL. */
  method UDivModDi4(a: DWord, b: DWord, rem: Slot?) returns (quot: DWord)
    requires b != 0
    modifies rem
    ensures quot == a / b
    ensures rem != null ==> rem.value == a % b
  {
    var r;
    quot, r := Divide(a, b);
    if rem != null {
      rem.value := r;
    }
  }

  // ----- the signed wrappers -----

  type Signed = x: int | -TOP <= x < TOP

  function ToSigned(x: DWord): Signed {
    if x >= TOP then x - W64 else x
  }

  function FromSigned(x: Signed): DWord {
    if x < 0 then x + W64 else x
  }

  function Abs(x: int): nat {
    if x < 0 then -x else x
  }

  /** Exclusive or, bit by bit. */
  function Xor(x: nat, y: nat): nat {
    if x == 0 && y == 0 then 0
    else (if x % 2 != y % 2 then 1 else 0) + 2 * Xor(x / 2, y / 2)
  }

  lemma {:induction false} XorZero(x: nat)
    ensures Xor(x, 0) == x
  {
    if x > 0 {
      XorZero(x / 2);
    }
  }

  lemma {:induction false} XorOnes(x: nat, k: nat)
    requires x < Pow2(k)
    ensures Xor(x, Pow2(k) - 1) == Pow2(k) - 1 - x
    decreases k
  {
    if k > 0 {
      var p := Pow2(k - 1);
      XorOnes(x / 2, k - 1);
      assert (2 * p - 1) / 2 == p - 1 && (2 * p - 1) % 2 == 1;
    }
  }

  /** (x ^ s) - s with the sign mask s: x for s = 0, the negation of x for s = -1. */
  lemma ConditionalNegation(x: DWord, negative: bool)
    ensures var s := if negative then W64 - 1 else 0;
      Xor(x, s) < W64 && (Xor(x, s) - s) % W64 == (if negative then W64 - x else x) % W64
  {
    Pow2Values();
    if negative {
      XorOnes(x, 64);
    } else {
      XorZero(x);
    }
  }

  /** Two sign masks. */
  lemma XorOfMasks(p: bool, q: bool)
    ensures Xor(if p then W64 - 1 else 0, if q then W64 - 1 else 0) == if p != q then W64 - 1 else 0
  {
    Pow2Values();
    XorZero(0);
    XorZero(W64 - 1);
    XorOnes(0, 64);
    XorOnes(W64 - 1, 64);
  }

  /** (x ^ s) - s on 64 bits. */
  method NegateIf(x: DWord, s: DWord) returns (r: DWord)
    requires s == 0 || s == W64 - 1
    ensures r == if s == 0 || x == 0 then x else W64 - x
  {
    ConditionalNegation(x, s != 0);
    r := (Xor(x, s) - s) % W64;
  }

  /** The quotient truncated toward zero and the remainder with the dividend's sign. */
  function Quotient(a: int, b: int): int
    requires b != 0
  {
    if (a < 0) == (b < 0) then Abs(a) / Abs(b) else -(Abs(a) / Abs(b))
  }

  function Remainder(a: int, b: int): int
    requires b != 0
  {
    if a < 0 then -(Abs(a) % Abs(b)) else Abs(a) % Abs(b)
  }

  /** ISO/IEC 9899:2011, section 6.5.5: these are the quotient and remainder of C, and only they are. */
  lemma TruncatedDivision(a: int, b: int, q: int, r: int)
    requires b != 0
    ensures q == Quotient(a, b) && r == Remainder(a, b) <==>
      a == q * b + r && Abs(r) < Abs(b) && (r != 0 ==> (r < 0) == (a < 0))
  {
    DivMod(Abs(a), Abs(b));
    SignedProduct(Quotient(a, b), b, a);
    var q0, r0 := Quotient(a, b), Remainder(a, b);
    assert a == q0 * b + r0 && Abs(r0) < Abs(b) && (r0 != 0 ==> (r0 < 0) == (a < 0));
    hide Quotient, Remainder;
    if a == q * b + r && Abs(r) < Abs(b) && (r != 0 ==> (r < 0) == (a < 0)) {
      SameSignUnique(b, q0, r0, q, r);
    }
  }

  lemma SameSignUnique(b: int, q: int, r: int, q': int, r': int)
    requires b != 0 && q * b + r == q' * b + r' && Abs(r - r') < Abs(b)
    ensures q == q' && r == r'
  {
    if b > 0 {
      assert (q - q') * b == r' - r;
      SmallMultiple(q - q', b);
    } else {
      assert (q - q') * -b == r - r';
      SmallMultiple(q - q', -b);
    }
  }

  lemma SignedProduct(q: int, b: int, a: int)
    requires b != 0 && q == Quotient(a, b)
    ensures q * b == if a < 0 then -(Abs(a) / Abs(b) * Abs(b)) else Abs(a) / Abs(b) * Abs(b)
  {
  }

  /** The quotient fits into 64 bits but for one pair. */
  lemma QuotientFits(a: Signed, b: Signed)
    requires b != 0
    ensures -TOP <= Quotient(a, b) < TOP <==> !(a == -TOP && b == -1)
    ensures -TOP <= Remainder(a, b) < TOP
  {
    var m, d := Abs(a), Abs(b);
    DivLessEq(m, d);
    DivMod(m, d);
    if m == TOP && d > 1 {
      DivIsLess(m, TOP, d);
    }
  }

  /** __divdi3: every quotient that fits comes out right; INT64_MIN / -1 wraps to INT64_MIN. */
  method DivDi3(a: Signed, b: Signed) returns (r: Signed)
    requires b != 0
    ensures r == Quotient(a, b) <==> !(a == -TOP && b == -1)
    ensures a == -TOP && b == -1 ==> r == -TOP
  {
    hide Xor;
    var sa, sb := SignMask(FromSigned(a)), SignMask(FromSigned(b));
    var ua := NegateIf(FromSigned(a), sa);
    var ub := NegateIf(FromSigned(b), sb);
    XorOfMasks(a < 0, b < 0);
    sa := Xor(sa, sb);
    var q := UDivModDi4(ua, ub, null);
    QuotientFits(a, b);
    DivLessEq(ua, ub);
    q := NegateIf(q, sa);
    r := ToSigned(q);
  }

  /** __moddi3: the remainder, for every pair. */
  method ModDi3(a: Signed, b: Signed) returns (r: Signed)
    requires b != 0
    ensures r == Remainder(a, b)
  {
    hide Xor;
    var s := SignMask(FromSigned(b));
    var ub := NegateIf(FromSigned(b), s);
    s := SignMask(FromSigned(a));
    var ua := NegateIf(FromSigned(a), s);
    var slot := new Slot;
    var q := UDivModDi4(ua, ub, slot);
    DivMod(ua, ub);
    var rem := NegateIf(slot.value, s);
    r := ToSigned(rem);
  }
}
