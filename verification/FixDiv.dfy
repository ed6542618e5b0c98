/** fix16_div: 32-bit divisions, repeated until the quotient has all its bits. */
module FixDiv {
  import opened Words
  import opened Fix16

  const T17 := 0x2_0000
  const T20 := 0x10_0000

  // ----- what it computes -----

  /** What the kick-start leaves too much in the remainder, times 2^17. */
  function Excess(n: nat, d: nat): nat {
    if d >= T20 then (n / (d / T17 + 1)) * d % T17 else 0
  }

  /** The quotient with 17 fraction bits. */
  function LongQuotient(n: nat, d: nat): nat
    requires d > 0
  {
    QuotientNonNegative(n * T17 + Excess(n, d), d);
    (n * T17 + Excess(n, d)) / d
  }

  lemma QuotientNonNegative(n: nat, d: nat)
    requires d > 0
    ensures n / d >= 0
  {
    DivLessEq(n, d);
  }

  /** a / b with 16 fraction bits, halves away from zero. */
  function ExactDiv(a: Fix, b: Fix): int
    requires b != 0
  {
    var m := Round(Abs(a) * 0x1_0000, Abs(b));
    if (a < 0) == (b < 0) then m else -m
  }

  // ----- the mask of the overflow test -----

  lemma AndDouble(x: nat, y: nat)
    ensures And(x, 2 * y) == 2 * And(x / 2, y)
  {
    assert (2 * y) % 2 == 0 && (2 * y) / 2 == y;
  }

  lemma {:induction false} AndUpper(x: nat, k: nat, n: nat)
    requires k <= n && x < Pow2(n)
    ensures Pow2(n) - Pow2(k) >= 0 && And(x, Pow2(n) - Pow2(k)) == x - x % Pow2(k)
    decreases n
  {
    hide And, Pow2;
    Pow2Monotone(k, n);
    PowerOf(k);
    PowerOf(n);
    if k == 0 {
      AndMask(x, n);
      DivModUnique(x, Pow2(n), 0, x);
    } else {
      var p, q := Pow2(n - 1), Pow2(k - 1);
      AndUpper(x / 2, k - 1, n - 1);
      AndUpperStep(x, p, q, Pow2(n) - Pow2(k), Pow2(k));
    }
  }

  lemma AndUpperStep(x: nat, p: nat, q: nat, u: nat, w: nat)
    requires p >= q > 0 && u == 2 * (p - q) && w == 2 * q
    requires And(x / 2, p - q) == x / 2 - x / 2 % q
    ensures And(x, u) == x - x % w
  {
    AndDouble(x, p - q);
    assert x % w == (x / 2 % q) * 2 + x % 2 by {
      DivDiv(x, 2, q);
    }
    hide And;
    Recombine(x, x / 2, x / 2 % q, x % 2);
  }

  lemma Recombine(x: nat, h: nat, g: nat, b: nat)
    requires x == h * 2 + b
    ensures 2 * (h - g) == x - (g * 2 + b)
  {
  }

  /** div & ~(0xFFFFFFFF >> bit_pos) is zero exactly for what can be shifted left by bit_pos. */
  lemma OverflowMask(x: Word, k: nat)
    requires k <= 32
    ensures Shr(W32 - 1, k) == Pow2(32 - k) - 1
    ensures And(x, W32 - 1 - Shr(W32 - 1, k)) == 0 <==> x < Pow2(32 - k)
    ensures Pow2(k) * Pow2(32 - k) == W32
  {
    hide And, Pow2;
    Pow2Values();
    Pow2Sum(k, 32 - k);
    AndUpper(x, 32 - k, 32);
    var p, c := Pow2(32 - k), Pow2(k);
    assert Shr(W32 - 1, k) == (W32 - 1) / c;
    OnesShifted(p, c);
    RoundDown(x, p);
  }

  lemma OnesShifted(p: nat, c: nat)
    requires c > 0 && p * c == W32
    ensures (W32 - 1) / c == p - 1
  {
    assert (p - 1) * c == p * c - c;
    DivModUnique(W32 - 1, c, p - 1, c - 1);
  }

  lemma RoundDown(x: nat, p: nat)
    requires p > 0
    ensures x - x % p == 0 <==> x < p
  {
    DivMod(x, p);
    if x < p {
      DivModUnique(x, p, 0, x);
    }
  }

  // ----- the loop -----

  /** With bit_pos bits to come, quotient and remainder make up m; at the end, bit_pos is -1. */
  predicate Left(m: nat, d: nat, quotient: nat, remainder: nat, bitPos: int) {
    && d > 0 && bitPos >= -1
    && if bitPos >= 0 then m == quotient * d + remainder * Pow2(bitPos)
       else remainder % 2 == 0 && remainder / 2 < d && m == quotient * d + remainder / 2
  }

  function ShiftUp(x: nat, k: nat): (r: nat)
    ensures x > 0 ==> r > 0
  {
    MulMonotone(1, Pow2(k), x);
    x * Pow2(k)
  }

  /** A turn: shift the remainder, divide, and add the digits found. */
  lemma TurnKeepsLeft(m: nat, d: nat, quotient: nat, remainder: nat, bitPos: nat, shift: nat)
    requires Left(m, d, quotient, remainder, bitPos) && shift <= bitPos
    ensures var shifted, k := ShiftUp(remainder, shift), bitPos - shift;
      && shifted / d >= 0
      && Left(m, d, quotient + ShiftUp(shifted / d, k), shifted % d * 2, k - 1)
      && quotient + ShiftUp(shifted / d, k) <= m / d < quotient + ShiftUp(shifted / d, k) + Pow2(k)
  {
    hide Left, ShiftUp, Pow2;
    var k := bitPos - shift;
    var shifted, p := ShiftUp(remainder, shift), Pow2(k);
    LeftParts(m, d, quotient, remainder, bitPos, shift);
    DivLessEq(shifted, d);
    DivMod(shifted, d);
    TurnWith(m, d, quotient, shifted, k, shifted / d, shifted % d);
  }

  lemma TurnWith(m: nat, d: nat, quotient: nat, shifted: nat, k: nat, q: nat, r: nat)
    requires d > 0 && m == quotient * d + shifted * Pow2(k) && shifted == q * d + r && r < d
    ensures Left(m, d, quotient + ShiftUp(q, k), r * 2, k - 1)
    ensures quotient + ShiftUp(q, k) <= m / d < quotient + ShiftUp(q, k) + Pow2(k)
  {
    hide Left, ShiftUp, Pow2;
    var p := Pow2(k);
    TurnArithmetic(m, d, quotient, shifted, q, r, p);
    SumTimes(q, 1, p);
    ShiftUpIs(q, k);
    LeftAgain(m, d, quotient + q * p, r, k);
  }

  lemma ShiftUpIs(x: nat, k: nat)
    ensures ShiftUp(x, k) == x * Pow2(k)
  {
    hide Pow2;
  }

  lemma LeftParts(m: nat, d: nat, quotient: nat, remainder: nat, bitPos: nat, shift: nat)
    requires Left(m, d, quotient, remainder, bitPos) && shift <= bitPos
    ensures d > 0 && m == quotient * d + ShiftUp(remainder, shift) * Pow2(bitPos - shift)
  {
    hide Pow2;
    Pow2Sum(shift, bitPos - shift);
    Regroup(remainder, Pow2(shift), Pow2(bitPos - shift));
  }

  lemma LeftAgain(m: nat, d: nat, x: nat, r: nat, k: nat)
    requires d > 0 && m == x * d + r * Pow2(k) && r < d
    ensures Left(m, d, x, r * 2, k - 1)
  {
    hide Pow2;
    PowerOf(k);
    if k > 0 {
      HalfPower(r, Pow2(k), Pow2(k - 1));
    }
  }

  lemma PowerOf(k: nat)
    ensures k == 0 ==> Pow2(k) == 1
    ensures k > 0 ==> Pow2(k) == 2 * Pow2(k - 1)
  {
  }

  lemma Regroup(x: nat, s: nat, p: nat)
    ensures x * (s * p) == x * s * p
  {
  }

  lemma HalfPower(r: nat, p: nat, h: nat)
    ensures p == 2 * h ==> r * p == (r * 2) * h
  {
  }

  lemma TurnArithmetic(m: nat, d: nat, quotient: nat, shifted: nat, q: nat, r: nat, p: nat)
    requires d > 0 && p > 0 && m == quotient * d + shifted * p && shifted == q * d + r && r < d
    ensures m == (quotient + q * p) * d + r * p
    ensures quotient + q * p <= m / d < quotient + (q + 1) * p
  {
    ProductOfSum(q, d, r, p);
    var x := quotient + q * p;
    assert x * d == quotient * d + (q * p) * d by { SumTimes(quotient, q * p, d); }
    assert (q + 1) * p == q * p + p by { SumTimes(q, 1, p); }
    RemainderTimes(r, d, p);
    QuotientBetween(m, d, x, p);
  }

  lemma ProductOfSum(q: nat, d: nat, r: nat, p: nat)
    ensures (q * d + r) * p == (q * p) * d + r * p
  {
    assert q * d * p == q * p * d;
  }

  lemma SumTimes(a: nat, b: nat, d: nat)
    ensures (a + b) * d == a * d + b * d
  {
  }

  lemma RemainderTimes(r: nat, d: nat, p: nat)
    requires r < d && p > 0
    ensures 0 <= r * p < p * d
  {
    MulMonotone(r, d - 1, p);
    assert (d - 1) * p == d * p - p;
    MulMonotone(0, r, p);
  }

  lemma QuotientBetween(m: nat, d: nat, x: nat, p: nat)
    requires d > 0 && x * d <= m < x * d + p * d
    ensures x <= m / d < x + p
  {
    DivMod(m, d);
    if m / d < x {
      MulMonotone(m / d + 1, x, d);
    }
    assert (x + p) * d == x * d + p * d;
    DivIsLess(m, x + p, d);
  }

  lemma Done(m: nat, d: nat, quotient: nat, remainder: nat, bitPos: int)
    requires Left(m, d, quotient, remainder, bitPos) && (remainder == 0 || bitPos < 0)
    ensures quotient == m / d
  {
    DivModUnique(m, d, quotient, m - quotient * d);
  }

  /** Shifting up to the leading zeros does not overflow. */
  lemma ShiftFits(x: Word, shift: nat)
    requires x > 0 && shift <= Clz(x)
    ensures 0 <= ShiftUp(x, shift) < W32
  {
    Pow2Monotone(shift, Clz(x));
    Pow2Sum(32 - Clz(x), Clz(x));
    Pow2Values();
    hide Pow2, Clz;
    ShiftArithmetic(x, Pow2(32 - Clz(x)), Pow2(Clz(x)), Pow2(shift));
  }

  lemma ShiftArithmetic(x: nat, p: nat, c: nat, s: nat)
    requires x < p && p * c == W32 && s <= c
    ensures 0 <= x * s < W32
  {
    MulMonotone(s, c, x);
    MulMonotone(x, p - 1, c);
    assert (p - 1) * c == p * c - c && s * x == x * s && c * x == x * c && c > 0;
  }

  /** A turn on 32 bits: nothing is cut off unless the quotient itself is too long, and that shows. */
  lemma TurnOnWords(remainder: Word, divider: Word, quotient: Word, bitPos: nat, shift: nat, m: nat)
    requires remainder > 0 && 0 < divider <= T31 && shift <= bitPos <= 17 && shift <= Clz(remainder)
    requires Left(m, divider, quotient, remainder, bitPos) && (m / divider < W32 || quotient == 0)
    ensures 0 <= ShiftUp(remainder, shift) < W32
    ensures var shifted, k := ShiftUp(remainder, shift), bitPos - shift;
      var div := shifted / divider;
      && 0 <= div < W32 && 0 <= shifted % divider * 2 < W32
      && (And(div, W32 - 1 - Shr(W32 - 1, k)) != 0 <==> m / divider >= W32)
      && (m / divider < W32 ==> (quotient + ShiftUp(div, k) % W32) % W32 == quotient + ShiftUp(div, k))
      && Left(m, divider, quotient + ShiftUp(div, k), shifted % divider * 2, k - 1)
  {
    ShiftFits(remainder, shift);
    TurnKeepsLeft(m, divider, quotient, remainder, bitPos, shift);
    var shifted, k := ShiftUp(remainder, shift), bitPos - shift;
    hide Pow2, And, Shr, Clz, Left, ShiftUp;
    WordDivision(shifted, divider);
    var div := shifted / divider;
    OverflowMask(div, k);
    FitsOrOverflows(m / divider, quotient, div, k);
  }

  /** Lines 322-338. */
  method Turn(remainder: Word, divider: Word, quotient: Word, bitPos: nat, ghost m: nat)
    returns (overflow: bool, remainder': Word, quotient': Word, bitPos': int)
    requires remainder > 0 && 0 < divider <= T31 && bitPos <= 17
    requires Left(m, divider, quotient, remainder, bitPos) && (m / divider < W32 || quotient == 0)
    ensures overflow <==> m / divider >= W32
    ensures !overflow ==> -1 <= bitPos' < bitPos && Left(m, divider, quotient', remainder', bitPos')
  {
    hide Pow2, And, Shr, Left, ShiftUp;
    var shift := Clz(remainder);
    if shift > bitPos {
      shift := bitPos;
    }
    TurnOnWords(remainder, divider, quotient, bitPos, shift, m);
    hide Clz;
    var k := bitPos - shift;
    var shifted: Word := ShiftUp(remainder, shift);
    var div: Word := shifted / divider;
    remainder' := shifted % divider * 2;
    quotient' := (quotient + ShiftUp(div, k) % W32) % W32;
    overflow := And(div, W32 - 1 - Shr(W32 - 1, k)) != 0;
    bitPos' := k - 1;
  }

  lemma WordDivision(x: Word, d: Word)
    requires 0 < d <= T31
    ensures 0 <= x / d < W32 && 0 <= x % d * 2 < W32
  {
    DivLessEq(x, d);
    DivMod(x, d);
  }

  /** Either the digits just found are too high for 32 bits, or nothing is cut off. */
  lemma FitsOrOverflows(f: nat, quotient: nat, div: nat, k: nat)
    requires k <= 32 && quotient + ShiftUp(div, k) <= f < quotient + ShiftUp(div, k) + Pow2(k)
    requires f < W32 || quotient == 0
    ensures f >= W32 <==> div >= Pow2(32 - k)
    ensures f < W32 ==> (quotient + ShiftUp(div, k) % W32) % W32 == quotient + ShiftUp(div, k)
  {
    Pow2Sum(k, 32 - k);
    Pow2Values();
    FitsArithmetic(f, quotient, div, ShiftUp(div, k), Pow2(k), Pow2(32 - k));
  }

  lemma FitsArithmetic(f: nat, quotient: nat, div: nat, s: nat, p: nat, c: nat)
    requires p > 0 && p * c == W32 && s == div * p && quotient + s <= f < quotient + s + p
    requires f < W32 || quotient == 0
    ensures f >= W32 <==> div >= c
    ensures f < W32 ==> (quotient + s % W32) % W32 == quotient + s
  {
    assert c * p == W32 && (div + 1) * p == s + p;
    if div >= c {
      MulMonotone(c, div, p);
    } else {
      MulMonotone(div + 1, c, p);
    }
  }

  // ----- the whole division -----

  /** Lines 303-311. */
  method KickStart(remainder: Word, divider: Word) returns (quotient: Word, remainder': Word)
    requires remainder < T31 && 0 < divider < T31
    ensures quotient * divider + remainder' * T17 == remainder * T17 + Excess(remainder, divider)
    ensures divider < T20 ==> quotient == 0
  {
    quotient, remainder' := 0, remainder;
    if divider >= T20 {
      var shifted := divider / T17 + 1;
      Estimate(remainder, divider, shifted);
      quotient := remainder / shifted;
      remainder' := remainder - quotient * divider / T17;
    }
  }

  /** The estimate is too low, so that it can be taken off. */
  lemma Estimate(n: Word, d: Word, shifted: nat)
    requires shifted == d / T17 + 1
    ensures 0 <= n / shifted <= n && 0 <= (n / shifted) * d / T17 <= n
    ensures (n / shifted) * d / T17 * T17 == (n / shifted) * d - (n / shifted) * d % T17
  {
    var q := n / shifted;
    DivLessEq(n, shifted);
    DivMod(n, shifted);
    MulMonotone(d, shifted * T17, q);
    assert d * q == q * d && q * shifted * T17 == shifted * T17 * q;
    MulMonotone(0, d, q);
  }

  /** Lines 313-318: common factors of 16. */
  method Strip(quotient: Word, remainder: Word, divider0: Word) returns (divider: Word, bitPos: nat, ghost m: nat)
    requires 0 < divider0 < T31
    ensures 0 < divider < T31 && 1 <= bitPos <= 17 && Left(m, divider, quotient, remainder, bitPos)
    ensures m / divider == (quotient * divider0 + remainder * T17) / divider0
  {
    divider, bitPos := divider0, 17;
    m := StartStrip(quotient, remainder, divider0);
    ghost var f := m / divider0;
    hide Left;
    while divider % 16 == 0 && bitPos >= 4
      invariant 0 < divider < T31 && 1 <= bitPos <= 17 && bitPos % 4 == 1
      invariant Left(m, divider, quotient, remainder, bitPos) && m / divider == f
      decreases bitPos
    {
      m := StripStep(m, divider, quotient, remainder, bitPos);
      SixteenthFits(divider);
      divider := divider / 16;
      bitPos := bitPos - 4;
    }
  }

  lemma StartStrip(quotient: nat, remainder: nat, divider: nat) returns (m: nat)
    requires divider > 0
    ensures m == quotient * divider + remainder * T17 && Left(m, divider, quotient, remainder, 17)
  {
    Pow2Values();
    m := quotient * divider + remainder * T17;
  }

  lemma SixteenthFits(d: Word)
    requires 0 < d < T31 && d % 16 == 0
    ensures 0 < d / 16 < T31
  {
  }

  lemma StripStep(m: nat, d: nat, quotient: nat, remainder: nat, bitPos: nat) returns (m': nat)
    requires bitPos >= 4 && d % 16 == 0 && Left(m, d, quotient, remainder, bitPos)
    ensures d / 16 > 0 && Left(m', d / 16, quotient, remainder, bitPos - 4) && m' / (d / 16) == m / d
  {
    var p := Pow2(bitPos - 4);
    assert Pow2(bitPos) == 16 * p by {
      assert Pow2(bitPos) == 2 * Pow2(bitPos - 1) == 4 * Pow2(bitPos - 2) == 8 * Pow2(bitPos - 3);
    }
    m' := quotient * (d / 16) + remainder * p;
    assert m == 16 * m' by { Sixteenfold(quotient, d / 16, remainder, p); }
    DivDiv(m, 16, d / 16);
  }

  lemma Sixteenfold(q: nat, d: nat, r: nat, p: nat)
    ensures q * (16 * d) + r * (16 * p) == 16 * (q * d + r * p)
  {
  }

  /** Lines 320-339. */
  method Loop(remainder0: Word, divider: Word, quotient0: Word, bitPos0: nat, ghost m: nat) returns (overflow: bool, quotient: Word)
    requires 0 < divider < T31 && 1 <= bitPos0 <= 17
    requires Left(m, divider, quotient0, remainder0, bitPos0) && (m / divider < W32 || quotient0 == 0)
    ensures overflow <==> m / divider >= W32
    ensures !overflow ==> quotient == m / divider
  {
    hide Left;
    var remainder := remainder0;
    var bitPos: int := bitPos0;
    quotient := quotient0;
    while remainder != 0 && bitPos >= 0
      invariant -1 <= bitPos <= 17 && Left(m, divider, quotient, remainder, bitPos)
      invariant m / divider < W32 || quotient == 0
      decreases bitPos
    {
      overflow, remainder, quotient, bitPos := Turn(remainder, divider, quotient, bitPos, m);
      if overflow {
        return;
      }
    }
    Done(m, divider, quotient, remainder, bitPos);
    overflow := false;
  }

  /** The long quotient, rounded: exact for divisors below 2^20, and too long exactly when the result
      does not fit. */
  lemma SmallDivisor(n: Word, d: Word)
    requires n < T31 && 0 < d < T20
    ensures LongQuotient(n, d) >= W32 <==> n >= 0x8000 * d
    ensures n < 0x8000 * d ==> LongQuotient(n, d) <= W32 - 2
    ensures (LongQuotient(n, d) + 1) / 2 == Round(n * 0x1_0000, d)
  {
    var f := LongQuotient(n, d);
    assert f == n * T17 / d;
    QuotientBounds(n * T17, d, f);
    HalfQuotient(n, d, f);
    hide LongQuotient, Round;
    if n < 0x8000 * d {
      LongerThanFits(n, d);
    } else {
      if f < W32 {
        MulMonotone(f + 1, W32, d);
      }
    }
  }

  lemma LongerThanFits(n: Word, d: Word)
    requires n < T31 && 0 < d && n < 0x8000 * d
    ensures n * T17 / d <= W32 - 2
  {
    if d <= 0x1_0000 {
      DivIsLess(n * T17, W32 - 1, d);
    } else {
      MulMonotone(0x1_0001, d, W32 - 2);
      assert d * (W32 - 2) == (W32 - 2) * d;
      DivIsLess(n * T17, W32 - 2, d);
    }
  }

  /** Rounding the quotient with one bit more. */
  lemma HalfQuotient(n: nat, d: nat, f: int)
    requires d > 0 && f * d <= n * T17 < f * d + d
    ensures (f + 1) / 2 == Round(n * 0x1_0000, d)
  {
    var r := (f + 1) / 2;
    RoundIsNearest(n * 0x1_0000, d, r);
    assert 2 * r * d == (2 * r) * d;
    if f % 2 == 1 {
      assert 2 * r == f + 1;
      assert (f + 1) * d == f * d + d;
    } else {
      assert 2 * r == f;
    }
  }

  /** From 2^20 on the kick-start can push the result up by one, and it does unless the remainder
      takes up the excess or the exact long quotient is odd. */
  lemma LargeDivisor(n: Word, d: Word)
    requires n < T31 && T20 <= d < T31
    ensures LongQuotient(n, d) <= W32 - 2
    ensures (LongQuotient(n, d) + 1) / 2 == Round(n * 0x1_0000, d) + if KickStartShows(n, d) then 1 else 0
  {
    var f, e, t := LongQuotient(n, d), Excess(n, d), n * T17 / d;
    assert f == (n * T17 + e) / d && e < T17;
    QuotientBounds(n * T17, d, t);
    HalfQuotient(n, d, t);
    Carry(n * T17, e, d);
    LargeIsShort(n, d, e);
    hide LongQuotient, Round, Excess;
    HalfOneMore(t);
  }

  lemma LargeIsShort(n: Word, d: Word, e: nat)
    requires n < T31 && T20 <= d < T31 && e < T17
    ensures (n * T17 + e) / d <= W32 - 2
  {
    MulMonotone(T20, d, W32 - 2);
    assert d * (W32 - 2) == (W32 - 2) * d;
    DivIsLess(n * T17 + e, W32 - 2, d);
  }

  lemma HalfOneMore(t: int)
    ensures (t + 1 + 1) / 2 == (t + 1) / 2 + if t % 2 == 0 then 1 else 0
  {
  }

  predicate KickStartShows(n: Word, d: Word)
    requires d > 0
  {
    n * T17 % d + Excess(n, d) >= d && n * T17 / d % 2 == 0
  }

  lemma Carry(x: nat, e: nat, d: nat)
    requires 0 <= e < d
    ensures (x + e) / d == x / d + if x % d + e >= d then 1 else 0
  {
    DivMod(x, d);
    var c := if x % d + e >= d then 1 else 0;
    assert (x / d + c) * d == x / d * d + c * d;
    DivModUnique(x + e, d, x / d + c, x % d + e - c * d);
  }

  /** The quotient with 17 fraction bits, unless it is too long for 32. */
  method Divide(n: Word, d: Word) returns (overflow: bool, quotient: Word)
    requires n < T31 && 0 < d < T31
    ensures overflow <==> LongQuotient(n, d) >= W32
    ensures !overflow ==> quotient == LongQuotient(n, d)
  {
    var remainder;
    quotient, remainder := KickStart(n, d);
    var divider, bitPos;
    ghost var m;
    divider, bitPos, m := Strip(quotient, remainder, d);
    assert m / divider == LongQuotient(n, d);
    if d >= T20 {
      LargeDivisor(n, d);
    }
    hide LongQuotient;
    overflow, quotient := Loop(remainder, divider, quotient, bitPos, m);
  }

  /** The magnitude of the result, if it fits. */
  function Magnitude(n: Word, d: Word): int
    requires d > 0
  {
    Round(n * 0x1_0000, d) + if d >= T20 && KickStartShows(n, d) then 1 else 0
  }

  lemma MagnitudeIsHalf(n: Word, d: Word)
    requires n < T31 && 0 < d < T31
    ensures LongQuotient(n, d) >= W32 <==> d < T20 && n >= 0x8000 * d
    ensures LongQuotient(n, d) < W32 ==> LongQuotient(n, d) <= W32 - 2
    ensures (LongQuotient(n, d) + 1) / 2 == Magnitude(n, d)
  {
    if d < T20 {
      SmallDivisor(n, d);
    } else {
      LargeDivisor(n, d);
    }
  }

  /** fix16_div. By zero it gives the minimum. Below 2^20 (16.0) the divisor makes it exact: the
      overflow value exactly when |a| >= 32768 |b|, and the quotient rounded half away from zero
      otherwise. For larger divisors it never overflows, and its magnitude is that of the rounded
      quotient, or one more exactly when the kick-start shows. */
  method Div(a: Fix, b: Fix) returns (r: Fix)
    requires a != -T31 && b != -T31
    ensures b == 0 ==> r == -T31
    ensures 0 < Abs(b) < T20 ==> r == if Abs(a) >= 0x8000 * Abs(b) then OVERFLOW else ExactDiv(a, b)
    ensures Abs(b) >= T20 ==>
      var m := Round(Abs(a) * 0x1_0000, Abs(b)) + if KickStartShows(Abs(a), Abs(b)) then 1 else 0;
      r == if (a < 0) == (b < 0) then m else -m
  {
    if b == 0 {
      return -T31;
    }
    var remainder: Word := if a >= 0 then a else -a;
    var divider: Word := if b >= 0 then b else -b;
    assert remainder == Abs(a) && divider == Abs(b);
    MagnitudeIsHalf(remainder, divider);
    var overflow, quotient := Divide(remainder, divider);
    hide LongQuotient, Round, KickStartShows;
    if overflow {
      return OVERFLOW;
    }
    quotient := Increment(quotient);
    r := ToFix(quotient / 2);
    HalfFits(quotient);
    hide ToFix;
    if (a < 0) != (b < 0) {
      if r == OVERFLOW {
        return;
      }
      r := -r;
    }
  }

  lemma HalfFits(q: Word)
    ensures ToFix(q / 2) == q / 2 >= 0
  {
  }

  /** quotient++ on 32 bits. */
  function Increment(x: Word): Word {
    if x == W32 - 1 then 0 else x + 1
  }

  /** A division that comes out one too large. */
  lemma KickStartCanShow()
    ensures KickStartShows(828843, 2771027)
    ensures Round(828843 * 0x1_0000, 2771027) == 19602
  {
    assert 2771027 / T17 + 1 == 22 && 828843 / 22 == 37674;
    DivModUnique(828843 * T17, 2771027, 39204, 2767188);
    DivModUnique(37674 * 2771027, T17, 796475, 99998);
    DivModUnique(2 * (828843 * 0x1_0000) + 2771027, 2 * 2771027, 19602, 5538215);
  }
}
