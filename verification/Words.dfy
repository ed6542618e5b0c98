/** 32-bit and 64-bit machine words as integers, with the bit operations the arithmetic code uses. */
module Words {

  const W32 := 0x1_0000_0000
  const W64 := 0x1_0000_0000_0000_0000

  type Word = x: int | 0 <= x < W32
  type DWord = x: int | 0 <= x < W64

  function Pow2(k: nat): (p: nat)
    ensures p > 0
  {
    if k == 0 then 1 else 2 * Pow2(k - 1)
  }

  lemma Pow2Values()
    ensures Pow2(0) == 1 && Pow2(1) == 2 && Pow2(4) == 0x10 && Pow2(5) == 0x20 && Pow2(15) == 0x8000
    ensures Pow2(16) == 0x1_0000 && Pow2(17) == 0x2_0000 && Pow2(20) == 0x10_0000
    ensures Pow2(31) == 0x8000_0000 && Pow2(32) == W32 && Pow2(63) == 0x8000_0000_0000_0000 && Pow2(64) == W64
  {
    assert Pow2(4) == 2 * Pow2(3) == 4 * Pow2(2);
    assert Pow2(8) == 2 * Pow2(7) == 4 * Pow2(6) == 8 * Pow2(5);
    assert Pow2(12) == 2 * Pow2(11) == 4 * Pow2(10) == 8 * Pow2(9);
    assert Pow2(16) == 2 * Pow2(15) == 4 * Pow2(14) == 8 * Pow2(13);
    assert Pow2(20) == 2 * Pow2(19) == 4 * Pow2(18) == 8 * Pow2(17);
    Pow2Sum(16, 16);
    Pow2Sum(32, 32);
  }

  lemma {:induction false} Pow2Sum(a: nat, b: nat)
    ensures Pow2(a + b) == Pow2(a) * Pow2(b)
    decreases b
  {
    if b > 0 {
      Pow2Sum(a, b - 1);
      assert Pow2(b) == 2 * Pow2(b - 1) && Pow2(a + b) == 2 * Pow2(a + (b - 1));
      hide Pow2;
      DoubleProduct(Pow2(a), Pow2(b - 1));
    }
  }

  lemma DoubleProduct(x: int, y: int)
    ensures x * (2 * y) == 2 * (x * y)
  {
  }

  lemma {:induction false} Pow2Monotone(a: nat, b: nat)
    requires a <= b
    ensures Pow2(a) <= Pow2(b)
    decreases b - a
  {
    if a < b {
      Pow2Monotone(a, b - 1);
    }
  }

  // ----- division facts -----

  lemma MulMonotone(a: int, b: int, d: int)
    requires a <= b && d >= 0
    ensures a * d <= b * d
  {
    assert (b - a) * d >= 0;
  }

  lemma SmallMultiple(x: int, d: int)
    requires d > 0 && -d < x * d < d
    ensures x == 0
  {
    if x >= 1 {
      MulMonotone(1, x, d);
    } else if x <= -1 {
      MulMonotone(x, -1, d);
    }
  }

  lemma DivMod(n: int, d: int)
    requires d > 0
    ensures n == (n / d) * d + n % d && 0 <= n % d < d
  {
  }

  lemma DivModUnique(n: int, d: int, q: int, r: int)
    requires d > 0 && n == q * d + r && 0 <= r < d
    ensures q == n / d && r == n % d
  {
    DivMod(n, d);
    assert (q - n / d) * d == n % d - r;
    SmallMultiple(q - n / d, d);
  }

  lemma DivDiv(n: nat, a: nat, b: nat)
    requires a > 0 && b > 0
    ensures a * b > 0 && n / a / b == n / (a * b)
    ensures n % (a * b) == (n / a % b) * a + n % a
  {
    var m := n / a;
    var q, r, s := m / b, m % b, n % a;
    DivMod(n, a);
    DivMod(m, b);
    assert m * a == (q * b + r) * a == q * (a * b) + r * a;
    MulMonotone(r, b - 1, a);
    assert (b - 1) * a == a * b - a;
    MulMonotone(0, r, a);
    DivModUnique(n, a * b, q, r * a + s);
  }

  lemma DivIsLess(x: nat, y: nat, d: nat)
    requires d > 0 && x < y * d
    ensures x / d < y
  {
    DivMod(x, d);
    if x / d >= y {
      MulMonotone(y, x / d, d);
    }
  }

  lemma DivLessEq(x: nat, d: nat)
    requires d > 0
    ensures 0 <= x / d <= x
  {
    DivMod(x, d);
    if x / d < 0 {
      MulMonotone(x / d, -1, d);
    }
    MulMonotone(1, d, x / d);
  }

  // ----- bit operations -----

  function Or(x: nat, y: nat): nat {
    if x == 0 && y == 0 then 0
    else (if x % 2 == 1 || y % 2 == 1 then 1 else 0) + 2 * Or(x / 2, y / 2)
  }

  function And(x: nat, y: nat): nat {
    if x == 0 || y == 0 then 0
    else (if x % 2 == 1 && y % 2 == 1 then 1 else 0) + 2 * And(x / 2, y / 2)
  }

  /** x << k and x >> k on 32 bits. */
  function Shl(x: Word, k: nat): Word {
    x * Pow2(k) % W32
  }

  function Shr(x: Word, k: nat): (r: Word)
    ensures r <= x
  {
    DivLessEq(x, Pow2(k));
    x / Pow2(k)
  }

  lemma {:induction false} OrZero(x: nat)
    ensures Or(x, 0) == x
  {
    if x > 0 {
      OrZero(x / 2);
    }
  }

  /** Or of a multiple of 2^k and something below 2^k is their sum. */
  lemma {:induction false} OrIsSum(x: nat, y: nat, k: nat)
    requires x % Pow2(k) == 0 && y < Pow2(k)
    ensures Or(x, y) == x + y
    decreases k
  {
    if k == 0 {
      OrZero(x);
    } else if x != 0 || y != 0 {
      var p, q := Pow2(k - 1), x / Pow2(k);
      assert x == q * (2 * p) == 2 * (q * p);
      assert x / 2 == q * p;
      DivModUnique(x / 2, p, q, 0);
      OrIsSum(x / 2, y / 2, k - 1);
    }
  }

  lemma {:induction false} AndSelf(x: nat)
    ensures And(x, x) == x
  {
    if x > 0 {
      AndSelf(x / 2);
    }
  }

  /** And with 2^k - 1 keeps the last k bits. */
  lemma {:induction false} AndMask(x: nat, k: nat)
    ensures And(x, Pow2(k) - 1) == x % Pow2(k)
    decreases k
  {
    if k > 0 {
      var p := Pow2(k - 1);
      AndMask(x / 2, k - 1);
      AndOdd(x, p);
      assert Pow2(k) == 2 * p;
      hide And, Pow2;
      DivDiv(x, 2, p);
    }
  }

  lemma AndOdd(x: nat, p: nat)
    requires p > 0
    ensures And(x, 2 * p - 1) == x % 2 + 2 * And(x / 2, p - 1)
  {
    assert (2 * p - 1) / 2 == p - 1 && (2 * p - 1) % 2 == 1;
  }

  function BitLength(x: nat): nat {
    if x == 0 then 0 else 1 + BitLength(x / 2)
  }

  lemma {:induction false} BitLengthBounds(x: nat)
    requires x > 0
    ensures BitLength(x) > 0 && Pow2(BitLength(x) - 1) <= x < Pow2(BitLength(x))
  {
    if x > 1 {
      BitLengthBounds(x / 2);
    } else {
      assert BitLength(1) == 1 + BitLength(0);
      assert Pow2(1) == 2 * Pow2(0);
    }
  }

  lemma BitLengthOfWord(x: Word)
    ensures BitLength(x) <= 32
  {
    if x > 0 {
      BitLengthBounds(x);
      Pow2Values();
      if BitLength(x) > 32 {
        Pow2Monotone(32, BitLength(x) - 1);
      }
    }
  }

  /** Leading zeros of a non-zero word. */
  function Clz(x: Word): (c: nat)
    requires x > 0
    ensures c <= 31
    ensures Pow2(31 - c) <= x < Pow2(32 - c)
  {
    BitLengthBounds(x);
    Pow2Values();
    BitLengthOfWord(x);
    32 - BitLength(x)
  }

  /** Trailing zeros of a non-zero word. */
  function Ctz(x: Word): nat
    requires x > 0
  {
    if x % 2 == 1 then 0 else 1 + Ctz(x / 2)
  }

  /** x & (x - 1) is zero for powers of two only. */
  lemma {:induction false} SingleBit(x: Word)
    requires x > 0 && And(x, x - 1) == 0
    ensures x == Pow2(Ctz(x)) && Ctz(x) <= 31
  {
    SingleBitIsPower(x);
    Pow2Values();
    if Ctz(x) >= 32 {
      Pow2Monotone(32, Ctz(x));
    }
  }

  lemma {:induction false} SingleBitIsPower(x: Word)
    requires x > 0 && And(x, x - 1) == 0
    ensures x == Pow2(Ctz(x))
  {
    if x % 2 == 1 {
      if x > 1 {
        assert (x - 1) / 2 == x / 2;
        AndSelf(x / 2);
      }
    } else {
      assert (x - 1) / 2 == x / 2 - 1;
      SingleBitIsPower(x / 2);
    }
  }

  // ----- a double word as two words -----

  function Join(high: Word, low: Word): DWord {
    high * W32 + low
  }

  function High(x: DWord): Word {
    x / W32
  }

  function Low(x: DWord): Word {
    x % W32
  }

  lemma JoinHighLow(x: DWord)
    ensures Join(High(x), Low(x)) == x
  {
  }

  lemma ShlArithmetic(h: nat, p: nat, c: nat, hi: nat, rest: nat)
    requires p * c == W32 && h == hi * p + rest && rest < p && c > 0
    ensures h * c == hi * W32 + rest * c && 0 <= rest * c <= W32 - c
  {
    assert h * c == hi * (p * c) + rest * c;
    MulMonotone(rest, p - 1, c);
    MulMonotone(0, rest, c);
    assert (p - 1) * c == p * c - c;
  }

  /** A word shifted left by 32 - k bits keeps its lower k bits. */
  lemma ShlKeepsRest(h: Word, k: nat)
    requires 1 <= k <= 31
    ensures Shl(h, 32 - k) == (h % Pow2(k)) * Pow2(32 - k) <= W32 - Pow2(32 - k)
  {
    hide Pow2;
    Pow2Values();
    Pow2Sum(k, 32 - k);
    DivMod(h, Pow2(k));
    ShlArithmetic(h, Pow2(k), Pow2(32 - k), h / Pow2(k), h % Pow2(k));
    DivModUnique(h * Pow2(32 - k), W32, h / Pow2(k), (h % Pow2(k)) * Pow2(32 - k));
  }

  /** The lower word of a right shift: what falls out of the upper word, above what stays. */
  lemma LowerWord(h: Word, l: Word, k: nat)
    requires 1 <= k <= 31
    ensures Or(Shl(h, 32 - k), Shr(l, k)) == (h % Pow2(k)) * Pow2(32 - k) + l / Pow2(k)
    ensures 0 <= Or(Shl(h, 32 - k), Shr(l, k)) < W32
  {
    Pow2Sum(k, 32 - k);
    Pow2Values();
    ShlKeepsRest(h, k);
    hide Pow2, Or, Shl;
    ShrIsSmall(l, Pow2(k), Pow2(32 - k));
    MultipleModZero(h % Pow2(k), Pow2(32 - k));
    OrIsSum(Shl(h, 32 - k), Shr(l, k), 32 - k);
  }

  lemma MultipleModZero(q: int, d: int)
    requires d > 0
    ensures (q * d) % d == 0 && q * d / d == q
  {
    DivModUnique(q * d, d, q, 0);
  }

  lemma ShrIsSmall(l: Word, p: nat, c: nat)
    requires p > 0 && p * c == W32
    ensures 0 <= l / p < c
  {
    DivLessEq(l, p);
    assert c * p == W32;
    DivIsLess(l, c, p);
  }

  /** A right shift of two words by 1 to 31 bits, as the code spells it out. */
  lemma ShiftRight(h: Word, l: Word, k: nat)
    requires 1 <= k <= 31
    ensures 0 <= Or(Shl(h, 32 - k), Shr(l, k)) < W32
    ensures Join(h, l) / Pow2(k) == Shr(h, k) * W32 + Or(Shl(h, 32 - k), Shr(l, k))
  {
    Pow2Values();
    Pow2Sum(k, 32 - k);
    hide Pow2, Or, Shl;
    LowerWord(h, l, k);
    DivMod(h, Pow2(k));
    DivMod(l, Pow2(k));
    ShiftArithmetic(h, l, Pow2(k), Pow2(32 - k));
  }

  lemma ShiftArithmetic(h: Word, l: Word, p: nat, c: nat)
    requires p * c == W32 && p > 0
    ensures Join(h, l) / p == h / p * W32 + ((h % p) * c + l / p)
  {
    DivMod(h, p);
    DivMod(l, p);
    JoinShifted(h, l, p, c, h / p, h % p, l / p, l % p);
    DivModUnique(Join(h, l), p, h / p * W32 + (h % p) * c + l / p, l % p);
  }

  lemma JoinShifted(h: Word, l: Word, p: nat, c: nat, hi: nat, rest: nat, lo: nat, low: nat)
    requires p * c == W32 && h == hi * p + rest && l == lo * p + low
    ensures Join(h, l) == (hi * W32 + rest * c + lo) * p + low
  {
    assert (hi * W32 + rest * c + lo) * p == (hi * p) * W32 + rest * (p * c) + lo * p;
  }
}
