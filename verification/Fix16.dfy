/** Q16.16 fixed point: fix16_mul on 32-bit words and fix16_div, against exact arithmetic. */
module Fix16 {
  import opened Words

  const T31 := 0x8000_0000
  const T47 := 0x8000_0000_0000
  const T48 := 0x1_0000_0000_0000
  const OVERFLOW := -T31

  type Fix = x: int | -T31 <= x < T31

  /** What 32 bits make of a number. */
  function ToFix(x: int): Fix {
    var m := x % W32;
    if m >= T31 then m - W32 else m
  }

  function Abs(x: int): nat {
    if x < 0 then -x else x
  }

  /** x / d to the nearest integer, halves away from zero. */
  function Round(x: int, d: nat): int
    requires d > 0
  {
    if x >= 0 then (2 * x + d) / (2 * d) else -((-2 * x + d) / (2 * d))
  }

  /** Round is the nearest integer. */
  lemma RoundIsNearest(x: int, d: nat, r: int)
    requires d > 0
    ensures r == Round(x, d) <==>
      if x >= 0 then 2 * r * d <= 2 * x + d < 2 * r * d + 2 * d
      else 2 * r * d - 2 * d < 2 * x - d <= 2 * r * d
  {
    if x >= 0 {
      QuotientBounds(2 * x + d, 2 * d, r);
      assert r * (2 * d) == 2 * r * d;
    } else {
      QuotientBounds(-2 * x + d, 2 * d, -r);
      assert -r * (2 * d) == -(2 * r * d);
    }
  }

  lemma QuotientBounds(n: int, d: int, q: int)
    requires d > 0
    ensures q == n / d <==> q * d <= n < q * d + d
  {
    DivMod(n, d);
    if q * d <= n < q * d + d {
      DivModUnique(n, d, q, n - q * d);
    }
  }

  // ----- fix16_mul -----

  /** A*D + C*B, before 32 bits cut it. */
  function Cross(a: Fix, b: Fix): int {
    (a / 0x1_0000) * (b % 0x1_0000) + (b / 0x1_0000) * (a % 0x1_0000)
  }

  lemma HighFits(A: int, C: int)
    requires -0x8000 <= A < 0x8000 && -0x8000 <= C < 0x8000
    ensures -0x4000_0000 <= A * C <= 0x4000_0000
  {
    if A >= 0 {
      MulMonotone(-0x8000, C, A);
      MulMonotone(C, 0x8000, A);
    } else {
      MulMonotone(-0x8000, C, -A);
      MulMonotone(C, 0x8000, -A);
      assert A * C == -(C * -A);
    }
  }

  /** The two words after the carry, as one number: lines 124-137. */
  function SplitProduct(a: Fix, b: Fix): (Fix, Word) {
    HighFits(a / 0x1_0000, b / 0x1_0000);
    var A, C := a / 0x1_0000, b / 0x1_0000;
    var B, D := a % 0x1_0000, b % 0x1_0000;
    var cross := ToFix(A * D + C * B);
    var BD := B * D % W32;
    var low := (BD + cross * 0x1_0000) % W32;
    (A * C + cross / 0x1_0000 + if low < BD then 1 else 0, low)
  }

  /** Lines 140-164: the overflow test, and rounding by way of subtracting just over a half. */
  function RoundWords(high: int, low: Word): Fix {
    if high / T31 != high / 0x8000 then OVERFLOW
    else
      var low1 := (low - 0x8000) % W32;
      var low2 := (low1 - if high < 0 then 1 else 0) % W32;
      var high1 := if low2 > low then high - 1 else high;
      ToFix(high1 * 0x1_0000 + low2 / 0x1_0000 + 1)
  }

  function Mul(a: Fix, b: Fix): Fix {
    var (high, low) := SplitProduct(a, b);
    RoundWords(high, low)
  }

  /** The product rounded, if it fits, and the overflow value otherwise. */
  function ExactMul(a: Fix, b: Fix): Fix {
    var r := Round(a * b, 0x1_0000);
    if -T31 <= r < T31 then r else OVERFLOW
  }

  lemma ProductParts(a: Fix, b: Fix)
    ensures a * b == (a / 0x1_0000) * (b / 0x1_0000) * W32 + Cross(a, b) * 0x1_0000 + (a % 0x1_0000) * (b % 0x1_0000)
  {
    var A, B, C, D := a / 0x1_0000, a % 0x1_0000, b / 0x1_0000, b % 0x1_0000;
    assert a == A * 0x1_0000 + B && b == C * 0x1_0000 + D;
    Expand(A, B, C, D);
  }

  lemma Expand(A: int, B: int, C: int, D: int)
    ensures (A * 0x1_0000 + B) * (C * 0x1_0000 + D) == A * C * W32 + (A * D + C * B) * 0x1_0000 + B * D
  {
    calc {
      (A * 0x1_0000 + B) * (C * 0x1_0000 + D);
      A * 0x1_0000 * (C * 0x1_0000 + D) + B * (C * 0x1_0000 + D);
      A * 0x1_0000 * (C * 0x1_0000) + A * 0x1_0000 * D + B * (C * 0x1_0000) + B * D;
      A * C * W32 + A * D * 0x1_0000 + C * B * 0x1_0000 + B * D;
    }
  }

  /** Both low halves together are below 2^32. */
  lemma LowProduct(B: nat, D: nat)
    requires B < 0x1_0000 && D < 0x1_0000
    ensures 0 <= B * D <= 0xFFFE_0001
  {
    MulMonotone(B, 0xFFFF, D);
    MulMonotone(0, B, D);
  }

  /** The carry puts the two words together to the product, but for what 32 bits cut off the cross sum. */
  lemma WordsAreProduct(a: Fix, b: Fix)
    ensures var (high, low) := SplitProduct(a, b);
      high * W32 + low == a * b + (ToFix(Cross(a, b)) - Cross(a, b)) * 0x1_0000
  {
    hide SplitProduct, Cross, ToFix;
    var A, B, C, D := a / 0x1_0000, a % 0x1_0000, b / 0x1_0000, b % 0x1_0000;
    var ac, bd, cross := A * C, B * D, ToFix(Cross(a, b));
    ProductParts(a, b);
    LowProduct(B, D);
    SplitIs(a, b, ac, bd, cross);
    var (high, low) := SplitProduct(a, b);
    CarryIsRight(ac, cross, bd);
    Combine(a * b, ac, bd, Cross(a, b), cross, high * W32 + low);
  }

  lemma SplitIs(a: Fix, b: Fix, ac: int, bd: Word, cross: Fix)
    requires ac == (a / 0x1_0000) * (b / 0x1_0000) && bd == (a % 0x1_0000) * (b % 0x1_0000) && cross == ToFix(Cross(a, b))
    ensures var low := (bd + cross * 0x1_0000) % W32;
      SplitProduct(a, b) == (ac + cross / 0x1_0000 + if low < bd then 1 else 0, low)
  {
    hide ToFix;
    SmallRemainder(bd);
  }

  lemma SmallRemainder(x: Word)
    ensures x % W32 == x
  {
  }

  lemma Combine(ab: int, ac: int, bd: int, cross: int, cross': int, hl: int)
    requires ab == ac * W32 + cross * 0x1_0000 + bd && hl == ac * W32 + cross' * 0x1_0000 + bd
    ensures hl == ab + (cross' - cross) * 0x1_0000
  {
  }

  lemma CarryIsRight(ac: int, cross: Fix, bd: Word)
    ensures var low := (bd + cross * 0x1_0000) % W32;
      (ac + cross / 0x1_0000 + if low < bd then 1 else 0) * W32 + low == ac * W32 + cross * 0x1_0000 + bd
  {
    var h, t := cross / 0x1_0000, cross % 0x1_0000 * 0x1_0000;
    assert bd + cross * 0x1_0000 == h * W32 + (bd + t) && 0 <= t < W32;
    if bd + t < W32 {
      DivModUnique(bd + cross * 0x1_0000, W32, h, bd + t);
    } else {
      DivModUnique(bd + cross * 0x1_0000, W32, h + 1, bd + t - W32);
    }
  }

  /** The two words rounded: right whenever the number lies in [-2^47, 2^47). */
  lemma RoundWordsIsRight(high: int, low: Word, p: int)
    requires high * W32 + low == p
    ensures RoundWords(high, low) == if -T47 <= p < T47 then ToFix(Round(p, 0x1_0000)) else OVERFLOW
  {
    var amount := 0x8000 + if high < 0 then 1 else 0;
    var low1 := (low - 0x8000) % W32;
    var low2 := (low1 - if high < 0 then 1 else 0) % W32;
    SubtractTwice(low, high < 0);
    var high1 := if low2 > low then high - 1 else high;
    OverflowTest(high);
    assert RoundWords(high, low) == if -0x8000 <= high < 0x8000 then ToFix(high1 * 0x1_0000 + low2 / 0x1_0000 + 1) else OVERFLOW;
    hide *;
    assert W32 == 0x1_0000_0000 && T47 == 0x8000_0000_0000 by { Constants(); }
    assert high1 * W32 + low2 == p - amount;
    UpperWords(high1, low2, p - amount);
    RoundBySubtracting(p, amount);
  }

  lemma Constants()
    ensures W32 == 0x1_0000_0000 && T47 == 0x8000_0000_0000
  {
  }

  lemma SubtractTwice(low: Word, negative: bool)
    ensures var amount := 0x8000 + if negative then 1 else 0;
      ((low - 0x8000) % W32 - if negative then 1 else 0) % W32 == if low >= amount then low - amount else low - amount + W32
  {
    var low1 := (low - 0x8000) % W32;
    assert low1 == if low >= 0x8000 then low - 0x8000 else low - 0x8000 + W32;
  }

  lemma UpperWords(high: int, low: int, p: int)
    requires high * 0x1_0000_0000 + low == p && 0 <= low < 0x1_0000_0000
    ensures high * 0x1_0000 + low / 0x1_0000 == p / 0x1_0000
  {
  }

  lemma OverflowTest(high: int)
    ensures high / T31 == high / 0x8000 <==> -0x8000 <= high < 0x8000
  {
  }

  lemma RoundBySubtracting(p: int, amount: int)
    requires amount == 0x8000 + if p < 0 then 1 else 0
    ensures (p - amount) / 0x1_0000 + 1 == Round(p, 0x1_0000)
  {
  }

  /** fix16_mul in terms of the product, or of what the cut cross sum makes of it. */
  lemma MulRounds(a: Fix, b: Fix)
    ensures var p := a * b + (ToFix(Cross(a, b)) - Cross(a, b)) * 0x1_0000;
      Mul(a, b) == if -T47 <= p < T47 then ToFix(Round(p, 0x1_0000)) else OVERFLOW
  {
    var (high, low) := SplitProduct(a, b);
    WordsAreProduct(a, b);
    RoundWordsIsRight(high, low, a * b + (ToFix(Cross(a, b)) - Cross(a, b)) * 0x1_0000);
  }

  /** Where the wide product lies for a cross sum that 32 bits cannot hold. */
  lemma WideCross(a: Fix, b: Fix)
    ensures Cross(a, b) >= T31 ==> a * b >= T47 && ToFix(Cross(a, b)) == Cross(a, b) - W32
    ensures Cross(a, b) < -T31 ==> a * b > 0 && ToFix(Cross(a, b)) == Cross(a, b) + W32
    ensures a * b <= 0x4000_0000_0000_0000
  {
    hide ToFix, Cross;
    CrossInHalves(a, b);
    ProductBound(a, b);
    var A, B, C, D := a / 0x1_0000, a % 0x1_0000, b / 0x1_0000, b % 0x1_0000;
    if Cross(a, b) >= T31 {
      ProductParts(a, b);
      LowProduct(B, D);
      MulMonotone(1, A, C);
      WrapsOnce(Cross(a, b), W32);
    } else if Cross(a, b) < -T31 {
      var x: int, y: int := a, b;
      MulMonotone(1, -x, -y);
      SignsCancel(x, y);
      WrapsOnce(Cross(a, b), -W32);
    }
  }

  /** A cross sum out of range takes two factors of the same sign. */
  lemma CrossInHalves(a: Fix, b: Fix)
    ensures -W32 <= Cross(a, b) < W32
    ensures Cross(a, b) >= T31 ==> a / 0x1_0000 > 0 && b / 0x1_0000 > 0
    ensures Cross(a, b) < -T31 ==> a < 0 && b < 0
  {
    var A, B, C, D := a / 0x1_0000, a % 0x1_0000, b / 0x1_0000, b % 0x1_0000;
    HalfCross(A, D);
    HalfCross(C, B);
  }

  lemma ProductBound(x: int, y: int)
    requires -T31 <= x < T31 && -T31 <= y < T31
    ensures x * y <= 0x4000_0000_0000_0000
  {
    if x >= 0 {
      MulMonotone(y, T31, x);
    } else {
      MulMonotone(-y, T31, -x);
      SignsCancel(y, x);
    }
  }

  lemma SignsCancel(x: int, y: int)
    ensures (-x) * (-y) == x * y
  {
  }

  lemma WrapsOnce(x: int, w: int)
    requires (w == W32 && T31 <= x < W32 + T31) || (w == -W32 && -W32 - T31 <= x < -T31)
    ensures ToFix(x) == x - w
  {
  }

  lemma HalfCross(A: int, D: nat)
    requires -0x8000 <= A < 0x8000 && D < 0x1_0000
    ensures -0x7FFF_8000 <= A * D <= 0x7FFE_8001
    ensures A <= 0 ==> A * D <= 0
    ensures A >= 0 ==> A * D >= 0
  {
    MulMonotone(-0x8000, A, D);
    MulMonotone(A, 0x7FFF, D);
    if A <= 0 { MulMonotone(A, 0, D); } else { MulMonotone(0, A, D); }
  }

  /** A product in range rounds to what fits, or to the overflow value by way of 2^31. */
  lemma RoundedOrOverflow(p: int)
    ensures (if -T47 <= p < T47 then ToFix(Round(p, 0x1_0000)) else OVERFLOW) ==
      if -T31 <= Round(p, 0x1_0000) < T31 then Round(p, 0x1_0000) else OVERFLOW
    ensures (if -T47 <= p < T47 then ToFix(Round(p, 0x1_0000)) else OVERFLOW) == OVERFLOW <==>
      p <= -T47 + 0x8000 || p >= T47 - 0x8000
  {
    RoundOfBig(p);
    var r := Round(p, 0x1_0000);
    hide Round;
    assert -T31 <= r < T31 ==> ToFix(r) == r;
    assert ToFix(T31) == OVERFLOW;
  }

  lemma RoundOfBig(p: int)
    ensures -T31 <= Round(p, 0x1_0000) < T31 <==> -T47 - 0x8000 < p < T47 - 0x8000
    ensures -T47 - 0x8000 < p <= -T47 + 0x8000 <==> Round(p, 0x1_0000) == -T31
    ensures T47 - 0x8000 <= p < T47 ==> Round(p, 0x1_0000) == T31
  {
  }

  /** When the cross sum fits, fix16_mul is exact: the product rounded half away from zero, or the
      overflow value when that does not fit. */
  lemma MulIsExact(a: Fix, b: Fix)
    requires -T31 <= Cross(a, b) < T31
    ensures Mul(a, b) == ExactMul(a, b)
  {
    MulRounds(a, b);
    CrossFits(Cross(a, b));
    RoundedOrOverflow(a * b);
    hide Mul, Round, ToFix, Cross;
  }

  lemma CrossFits(x: int)
    requires -T31 <= x < T31
    ensures ToFix(x) == x
  {
  }

  /** The condition under which fix16_mul is right: the cross sum fits, or the overflow value comes
      out and is right. */
  predicate MulSafe(a: Fix, b: Fix) {
    var p := a * b;
    if Cross(a, b) >= T31 then p <= T47 + 0x8000 || p >= T48 + T47 - 0x8000
    else if Cross(a, b) < -T31 then p >= T47 - 0x8000
    else true
  }

  lemma MulIsRightIff(a: Fix, b: Fix)
    ensures Mul(a, b) == ExactMul(a, b) <==> MulSafe(a, b)
  {
    MulRounds(a, b);
    WideCross(a, b);
    var cross, p := Cross(a, b), a * b;
    var p' := p + (ToFix(cross) - cross) * 0x1_0000;
    if -T31 <= cross < T31 {
      MulIsExact(a, b);
    } else {
      RoundedOrOverflow(p);
      RoundedOrOverflow(p');
      hide Mul, Round, Cross, ToFix;
      assert p' == if cross >= T31 then p - T48 else p + T48;
    }
  }

  /** A small product that comes out as overflow, because the cross sum does not fit. */
  lemma MulOverflowsEarly()
    ensures Mul(-1, -2147418113) == OVERFLOW && ExactMul(-1, -2147418113) == 32767
  {
    var a: Fix, b: Fix := -1, -2147418113;
    assert a * b == 2147418113;
    MulRounds(a, b);
    assert Cross(a, b) == -2147516415;
    assert ToFix(-2147516415) == 2147450881;
  }
}
