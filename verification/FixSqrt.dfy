/** fix16_sqrt: the square root bit by bit, in two passes of 32 bits. */
module FixSqrt {
  import opened Words
  import opened Fix16

  // ----- what it computes -----

  /** The largest integer whose square is at most m. */
  ghost predicate IsRoot(m: nat, r: nat) {
    r * r <= m < (r + 1) * (r + 1)
  }

  /** The integer nearest to the square root of m: (r - 1/2)^2 < m < (r + 1/2)^2. */
  ghost predicate IsNearest(m: nat, r: nat) {
    (r > 0 ==> r * r - r < m) && m <= r * r + r
  }

  lemma RootIsUnique(m: nat, r: nat, s: nat)
    requires IsRoot(m, r) && IsRoot(m, s)
    ensures r == s
  {
    if r < s { Squares(r + 1, s); } else if s < r { Squares(s + 1, r); }
  }

  lemma NearestIsUnique(m: nat, r: nat, s: nat)
    requires IsNearest(m, r) && IsNearest(m, s)
    ensures r == s
  {
    if r < s { Squares(r + 1, s); NextSquare(r, s); } else if s < r { Squares(s + 1, r); NextSquare(s, r); }
  }

  lemma NextSquare(r: nat, s: nat)
    requires r < s
    ensures r * r + r <= s * s - s
  {
    MulMonotone(r, s - 1, r + 1);
    MulMonotone(r + 1, s, s - 1);
    assert r * (r + 1) == r * r + r && (s - 1) * (r + 1) == (r + 1) * (s - 1) && s * (s - 1) == s * s - s;
  }

  lemma Squares(a: nat, b: nat)
    requires a <= b
    ensures a * a <= b * b
  {
    MulMonotone(a, b, a);
    MulMonotone(a, b, b);
    assert b * a == a * b;
  }

  // ----- one pass -----

  /** Digits of the root of m down to weight w are known: they make up root. */
  predicate Rooting(m: nat, root: nat, w: nat, num: nat, result: nat, bit: nat) {
    && w > 0 && num == m - root * root && num >= 0 && m < (root + w) * (root + w)
    && result == root * w && bit == (w / 2) * (w / 2)
  }

  /** The next digit: lines 38-47. */
  lemma DigitStep(m: nat, root: nat, w: nat, num: nat, result: nat, bit: nat, p: nat)
    requires Rooting(m, root, w, num, result, bit) && w == 2 * p && p > 0 && (p == 1 || p % 2 == 0)
    ensures bit / 4 == (p / 2) * (p / 2) && result / 2 == root * p
    ensures if num >= result + bit then Rooting(m, root + p, p, num - (result + bit), result / 2 + bit, bit / 4)
      else Rooting(m, root, p, num, result / 2, bit / 4)
  {
    assert w / 2 == p && bit == p * p && result == root * w;
    DigitProducts(root, p);
    QuarterSquare(p);
    assert m < (root + w) * (root + w) && num == m - root * root;
  }

  lemma DigitProducts(root: nat, p: nat)
    ensures root * (2 * p) == 2 * (root * p)
    ensures (root + p) * (root + p) == root * root + 2 * (root * p) + p * p
    ensures (root + p) * p == root * p + p * p
    ensures root + p + p == root + 2 * p
  {
  }

  lemma QuarterSquare(p: nat)
    requires p == 1 || p % 2 == 0
    ensures p * p / 4 == (p / 2) * (p / 2)
  {
    if p % 2 == 0 {
      var h := p / 2;
      assert p * p == 4 * (h * h);
    }
  }

  /** Lines 36-48, from the weight 2^k down. */
  method Pass(num0: Word, result0: Word, bit0: Word, ghost m: nat, ghost root0: nat, ghost k0: nat)
    returns (num: Word, result: Word, ghost root: nat)
    requires Rooting(m, root0, Pow2(k0), num0, result0, bit0)
    requires (root0 + Pow2(k0)) * Pow2(k0) <= W32
    ensures Rooting(m, root, 1, num, result, 0)
    ensures IsRoot(m, result) && num == m - result * result
  {
    num, result, root := num0, result0, root0;
    var bit := bit0;
    ghost var k := k0;
    while bit != 0
      invariant Rooting(m, root, Pow2(k), num, result, bit)
      invariant (root + Pow2(k)) * Pow2(k) <= W32
      decreases k
    {
      WeightHalves(k, bit);
      ghost var p := Pow2(k - 1);
      DigitStep(m, root, Pow2(k), num, result, bit, p);
      SumFits(root, p);
      assert Pow2(k) == 2 * p && bit == p * p;
      hide Pow2;
      if num >= result + bit {
        num := num - (result + bit);
        result := result / 2 + bit;
        root := root + p;
      } else {
        result := result / 2;
      }
      bit := bit / 4;
      k := k - 1;
    }
    if k > 0 {
      assert Pow2(k) / 2 == Pow2(k - 1);
      MulMonotone(1, Pow2(k - 1), Pow2(k - 1));
    }
  }

  lemma WeightHalves(k: nat, bit: nat)
    requires bit == (Pow2(k) / 2) * (Pow2(k) / 2) && bit != 0
    ensures k > 0 && Pow2(k) == 2 * Pow2(k - 1) && (Pow2(k - 1) == 1 || Pow2(k - 1) % 2 == 0)
  {
    assert Pow2(0) == 1;
  }

  /** Sums stay below 2^32. */
  lemma SumFits(root: nat, p: nat)
    requires p > 0 && (root + 2 * p) * (2 * p) <= W32
    ensures root * (2 * p) + p * p < W32
    ensures (root + p) * p < W32 && (root + p + p) * p <= W32
  {
    assert (root + 2 * p) * (2 * p) == root * (2 * p) + 4 * (p * p);
    assert (root + p) * p == root * p + p * p && (root + p + p) * p == root * p + 2 * (p * p);
    assert root * (2 * p) == 2 * (root * p);
    MulMonotone(0, root, p);
    MulMonotone(1, p, p);
  }

  // ----- the function -----

  function Root(n: nat): (r: nat)
    ensures IsRoot(n, r)
  {
    if n == 0 then 0
    else
      var r := 2 * Root(n / 4);
      RootOfQuarter(n, Root(n / 4));
      if (r + 1) * (r + 1) <= n then r + 1 else r
  }

  lemma RootOfQuarter(n: nat, h: nat)
    requires IsRoot(n / 4, h)
    ensures (2 * h) * (2 * h) <= n < (2 * h + 2) * (2 * h + 2)
  {
    assert (2 * h) * (2 * h) == 4 * (h * h);
    assert (2 * h + 2) * (2 * h + 2) == 4 * ((h + 1) * (h + 1));
  }

  /** What line 62 takes away too much: (r + 1/2)^2 calls for 0x4000. */
  function Deficit(n: nat): nat {
    if n - Root(n) * Root(n) > 0xFFFF then 0x4000 else 0
  }

  /** Lines 24-29: the first digit that can be set. */
  method FirstBit(num: Word) returns (bit: Word, ghost k: nat)
    requires num < T31
    ensures k <= 16 && num < Pow2(k) * Pow2(k) && bit == (Pow2(k) / 2) * (Pow2(k) / 2)
  {
    hide Pow2;
    Pow2Values();
    assert Pow2(10) == 0x400 by { assert Pow2(15) == 32 * Pow2(10) by { Pow2Sum(10, 5); } }
    if num >= 0x10_0000 {
      bit, k := 0x4000_0000, 16;
    } else {
      bit, k := 0x4_0000, 10;
    }
    while bit > num
      invariant k <= 16 && num < Pow2(k) * Pow2(k) && bit == (Pow2(k) / 2) * (Pow2(k) / 2)
      decreases k
    {
      WeightHalves(k, bit);
      QuarterSquare(Pow2(k - 1));
      bit := bit / 4;
      k := k - 1;
    }
  }

  /** Lines 53-71: the rest scaled up by 2^16 for the second pass. */
  method ScaleUp(num0: Word, result0: Word, ghost n: nat) returns (num: Word, result: Word, ghost root: nat)
    requires n < T31 && IsRoot(n, result0) && num0 == n - result0 * result0
    ensures n * 0x1_0000 >= Deficit(n)
    ensures Rooting(n * 0x1_0000 - Deficit(n), root, 256, num, result, 0x4000) && (root + 256) * 256 <= W32
  {
    RootIsUnique(n, Root(n), result0);
    RootBound(n, result0);
    ScaledSquare(result0);
    if num0 > 65535 {
      num := num0 - result0;
      num := num * 0x1_0000 - 0x8000;
      result := result0 * 0x1_0000 + 0x8000;
      root := result0 * 256 + 128;
    } else {
      num := num0 * 0x1_0000;
      result := result0 * 0x1_0000;
      root := result0 * 256;
    }
  }

  lemma RootBound(n: nat, r: nat)
    requires n < T31 && IsRoot(n, r)
    ensures r <= 46340 && n - r * r <= 2 * r
  {
    if r > 46340 {
      Squares(46341, r);
    }
    assert (r + 1) * (r + 1) == r * r + 2 * r + 1;
  }

  lemma ScaledSquare(r: nat)
    ensures (r * 256) * (r * 256) == r * r * 0x1_0000
    ensures (r * 256 + 128) * (r * 256 + 128) == r * r * 0x1_0000 + r * 0x1_0000 + 0x4000
    ensures (r * 256 + 256) * (r * 256 + 256) == r * r * 0x1_0000 + 2 * r * 0x1_0000 + 0x1_0000
    ensures (r * 256 + 384) * (r * 256 + 384) >= r * r * 0x1_0000 + 2 * r * 0x1_0000 + 0x1_0000
  {
    assert (r * 256 + 384) * (r * 256 + 384) == r * r * 0x1_0000 + 3 * r * 0x1_0000 + 384 * 384;
  }

  lemma StartOfPass(n: nat, k: nat, bit: nat)
    requires n < Pow2(k) * Pow2(k) && bit == (Pow2(k) / 2) * (Pow2(k) / 2) && k <= 16
    ensures Rooting(n, 0, Pow2(k), n, 0, bit) && (0 + Pow2(k)) * Pow2(k) <= W32
  {
    WeightFits(k);
  }

  lemma EndOfPass(m: nat, root: nat, num: nat, result: nat)
    requires Rooting(m, root, 1, num, result, 0)
    ensures IsRoot(m, result) && num == m - result * result && m >= result * result
  {
  }

  lemma Weight256()
    ensures Pow2(8) == 256
  {
    Pow2Values();
    assert Pow2(8) == 2 * Pow2(7) == 4 * Pow2(6) == 8 * Pow2(5);
  }

  /** Both passes: no sum or shift leaves 32 bits, and the result is the integer nearest to the root
      of 65536 num, less the deficit. */
  method RootOfMagnitude(num0: Word) returns (result: Word)
    requires num0 < T31
    ensures num0 * 0x1_0000 >= Deficit(num0) && IsNearest(num0 * 0x1_0000 - Deficit(num0), result)
    ensures result < T31
  {
    hide Pow2, Rooting, Deficit, IsRoot, IsNearest;
    var num, bit;
    ghost var k, root;
    bit, k := FirstBit(num0);
    StartOfPass(num0, k, bit);
    num, result, root := Pass(num0, 0, bit, num0, 0, k);
    EndOfPass(num0, root, num, result);
    num, result, root := ScaleUp(num, result, num0);
    ghost var m := num0 * 0x1_0000 - Deficit(num0);
    Weight256();
    num, result, root := Pass(num, result, 0x4000, m, root, 8);
    EndOfPass(m, root, num, result);
    NearestBelow(m, result);
    if num > result {
      result := result + 1;
    }
  }

  /** fix16_sqrt: odd, and in magnitude the integer nearest to the root of 65536 |x|, less the deficit,
      which is none below 2^30. */
  method Sqrt(x: Fix) returns (r: Fix)
    requires x != -T31
    ensures x >= 0 ==> r >= 0
    ensures x < 0 ==> r <= 0
    ensures Abs(x) * 0x1_0000 >= Deficit(Abs(x)) && IsNearest(Abs(x) * 0x1_0000 - Deficit(Abs(x)), Abs(r))
    ensures Abs(x) < 0x4000_0000 ==> IsNearest(Abs(x) * 0x1_0000, Abs(r))
  {
    hide Deficit, IsNearest;
    if Abs(x) < 0x4000_0000 {
      ExactBelow(Abs(x));
    }
    var num: Word := if x < 0 then -x else x;
    assert num == Abs(x);
    var result: int := RootOfMagnitude(num);
    r := if x < 0 then -result else result;
    assert Abs(r) == result;
  }

  lemma WeightFits(k: nat)
    requires k <= 16
    ensures (0 + Pow2(k)) * Pow2(k) <= W32
  {
    Pow2Values();
    Pow2Monotone(k, 16);
    Squares(Pow2(k), 0x1_0000);
  }

  /** Lines 77-80. */
  lemma NearestBelow(m: nat, r: nat)
    requires IsRoot(m, r) && m < T31 * 0x1_0000
    ensures r < T31 - 1
    ensures IsNearest(m, if m - r * r > r then r + 1 else r)
  {
    assert (r + 1) * (r + 1) == r * r + 2 * r + 1;
    assert (r + 1) * (r + 1) - (r + 1) == r * r + r;
    if r >= T31 - 1 {
      Squares(T31 - 1, r);
    }
    if r > 0 {
      assert r * r - r < r * r;
    }
  }

  /** Below 2^30 (16384.0) there is no deficit. */
  lemma ExactBelow(n: nat)
    requires n < 0x4000_0000
    ensures Deficit(n) == 0
  {
    var r := Root(n);
    if r >= 0x8000 {
      Squares(0x8000, r);
    }
    assert (r + 1) * (r + 1) == r * r + 2 * r + 1;
  }

  /** From there on it is that integer t or one less; and t itself exactly when taking the deficit
      off 65536 n stays above (t - 1/2)^2. */
  lemma WithinOne(n: nat, s: nat, t: nat)
    requires n < T31 && n * 0x1_0000 >= Deficit(n)
    requires IsNearest(n * 0x1_0000 - Deficit(n), s) && IsNearest(n * 0x1_0000, t)
    ensures s == t || s == t - 1
    ensures s == t <==> Deficit(n) == 0 || n * 0x1_0000 - 0x4000 > t * t - t
  {
    var m := n * 0x1_0000;
    if Deficit(n) == 0 {
      NearestIsUnique(m, s, t);
    } else {
      if n < 0x4000_0000 {
        ExactBelow(n);
      }
      DeficitIsSmall(m, s, t);
    }
  }

  lemma DeficitIsSmall(m: nat, s: nat, t: nat)
    requires m >= 0x4000_0000_0000 && IsNearest(m - 0x4000, s) && IsNearest(m, t)
    ensures s == t || s == t - 1
    ensures s == t <==> m - 0x4000 > t * t - t
  {
    if t < 0x7F_FFFF {
      Squares(t, 0x7F_FFFF);
    }
    if s > t {
      NextSquare(t, s);
    }
    assert (t - 1) * (t - 1) - (t - 1) == t * t - 3 * t + 2;
    if s < t - 1 {
      NextSquare(s, t - 1);
    }
    if s == t - 1 {
      assert s * s + s == t * t - t;
    }
  }

  /** A root that comes out one too small. */
  lemma DeficitCanShow()
    ensures Deficit(1802585074) == 0x4000
    ensures IsNearest(1802585074 * 0x1_0000, 10868957) && !IsNearest(1802585074 * 0x1_0000 - 0x4000, 10868957)
  {
    RootIsUnique(1802585074, Root(1802585074), 42456);
  }
}
