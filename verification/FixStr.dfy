/** Printing and parsing fixed point numbers: itoa_loop, fix16_to_str and fix16_from_str. */
module FixStr {
  import opened Words
  import opened Fix16
  import opened FixDiv

  // ----- decimal numbers as text -----

  predicate IsDigit(c: char) {
    '0' <= c <= '9'
  }

  function DigitValue(c: char): (x: nat)
    requires IsDigit(c)
    ensures x < 10
  {
    c as int - '0' as int
  }

  predicate IsSpace(c: char) {
    c == ' ' || '\t' <= c <= '\r'
  }

  predicate AllDigits(d: seq<char>) {
    forall i :: 0 <= i < |d| ==> IsDigit(d[i])
  }

  function DigitChar(x: nat): (c: char)
    requires x < 10
    ensures IsDigit(c) && DigitValue(c) == x
  {
    ('0' as int + x) as char
  }

  /** The number that digits stand for. */
  function ValueOf(d: seq<char>): nat
    requires AllDigits(d)
  {
    if d == [] then 0 else ValueOf(d[..|d| - 1]) * 10 + DigitValue(d[|d| - 1])
  }

  function Pow10(k: nat): (p: nat)
    ensures p > 0
  {
    if k == 0 then 1 else 10 * Pow10(k - 1)
  }

  /** The last n digits of value; leading zeros but the last digit are left out when skip is set. */
  function Itoa(n: nat, value: nat, skip: bool): (d: seq<char>)
    requires value < Pow10(n)
    ensures AllDigits(d)
  {
    if n == 0 then []
    else
      DigitOf(n - 1, value);
      var digit := value / Pow10(n - 1);
      var rest := value % Pow10(n - 1);
      if !skip || digit > 0 || n == 1 then [DigitChar(digit)] + Itoa(n - 1, rest, false)
      else Itoa(n - 1, rest, true)
  }

  lemma DigitOf(k: nat, value: nat)
    requires value < Pow10(k + 1)
    ensures 0 <= value / Pow10(k) < 10 && value % Pow10(k) < Pow10(k)
    ensures value == value / Pow10(k) * Pow10(k) + value % Pow10(k)
  {
    DivIsLess(value, 10, Pow10(k));
    DivLessEq(value, Pow10(k));
    DivMod(value, Pow10(k));
  }

  lemma ValueOfLast(d: seq<char>)
    requires AllDigits(d) && d != []
    ensures ValueOf(d) == ValueOf(d[..|d| - 1]) * 10 + DigitValue(d[|d| - 1])
  {
  }

  lemma ShiftDigits(a: nat, p: nat, c: nat, x: nat)
    ensures (a * p + c) * 10 + x == a * (10 * p) + (c * 10 + x)
  {
  }

  lemma {:induction false} ValueOfAppend(a: seq<char>, b: seq<char>)
    requires AllDigits(a) && AllDigits(b)
    ensures AllDigits(a + b) && ValueOf(a + b) == ValueOf(a) * Pow10(|b|) + ValueOf(b)
    decreases |b|
  {
    if b == [] {
      assert a + b == a;
    } else {
      var c := b[..|b| - 1];
      ValueOfAppend(a, c);
      assert (a + b)[..|a + b| - 1] == a + c && (a + b)[|a + b| - 1] == b[|b| - 1];
      ValueOfLast(b);
      ValueOfLast(a + b);
      assert Pow10(|b|) == 10 * Pow10(|c|);
      hide ValueOf, Pow10;
      ShiftDigits(ValueOf(a), Pow10(|c|), ValueOf(c), DigitValue(b[|b| - 1]));
    }
  }

  lemma OneDigit(x: nat)
    requires x < 10
    ensures ValueOf([DigitChar(x)]) == x
  {
    assert [DigitChar(x)][..0] == [];
  }

  /** The digits stand for the value. */
  lemma {:induction false} ItoaIsDecimal(n: nat, value: nat, skip: bool)
    requires value < Pow10(n)
    ensures ValueOf(Itoa(n, value, skip)) == value
    decreases n
  {
    hide ValueOf;
    if n > 0 {
      DigitOf(n - 1, value);
      var digit, rest := value / Pow10(n - 1), value % Pow10(n - 1);
      ItoaIsDecimal(n - 1, rest, !(!skip || digit > 0 || n == 1));
      if !skip || digit > 0 || n == 1 {
        var d := Itoa(n - 1, rest, false);
        assert Itoa(n, value, skip) == [DigitChar(digit)] + d;
        ItoaLength(n - 1, rest, false);
        hide Itoa, Pow10;
        OneDigit(digit);
        ValueOfAppend([DigitChar(digit)], d);
      }
    } else {
      NoDigits();
    }
  }

  lemma NoDigits()
    ensures ValueOf([]) == 0
  {
  }

  /** There are n of them, or with skip as many as the value needs: at least one, and no zero in
      front of others. */
  lemma {:induction false} ItoaLength(n: nat, value: nat, skip: bool)
    requires value < Pow10(n)
    ensures |Itoa(n, value, skip)| <= n && (!skip ==> |Itoa(n, value, skip)| == n)
    ensures n > 0 ==> |Itoa(n, value, skip)| > 0
    ensures skip && |Itoa(n, value, skip)| > 1 ==> Itoa(n, value, skip)[0] != '0'
    decreases n
  {
    if n > 0 {
      DigitOf(n - 1, value);
      ItoaLength(n - 1, value % Pow10(n - 1), false);
      ItoaLength(n - 1, value % Pow10(n - 1), true);
    }
  }

  // ----- itoa_loop -----

  /** 10^(n - 1), or zero when no digit is left. */
  function ScaleOf(n: nat): nat {
    if n == 0 then 0 else Pow10(n - 1)
  }

  lemma TenthOfScale(n: nat)
    requires n > 0
    ensures ScaleOf(n) / 10 == ScaleOf(n - 1) && (ScaleOf(n) == 1 <==> n == 1)
  {
  }

  /** One turn of the loop. */
  lemma ItoaStep(n: nat, value: nat, skip: bool)
    requires n > 0 && value < Pow10(n)
    ensures ScaleOf(n) > 0 && 0 <= value / ScaleOf(n) < 10 && value % ScaleOf(n) < Pow10(n - 1)
    ensures ScaleOf(n) / 10 == ScaleOf(n - 1)
    ensures var digit := value / ScaleOf(n);
      if !skip || digit != 0 || ScaleOf(n) == 1 then
        Itoa(n, value, skip) == [DigitChar(digit)] + Itoa(n - 1, value % ScaleOf(n), false)
      else value < Pow10(n - 1) && Itoa(n, value, skip) == Itoa(n - 1, value, skip)
  {
    DigitOf(n - 1, value);
    TenthOfScale(n);
  }

  lemma ScaleIsZero(n: nat)
    ensures ScaleOf(n) == 0 <==> n == 0
    ensures n == 0 ==> forall value: nat, skip :: value < Pow10(n) ==> Itoa(n, value, skip) == []
  {
  }

  /** One digit more. */
  method Put(buf: array<char>, start: nat, end: nat, c: char)
    requires start <= end < buf.Length
    modifies buf
    ensures buf[start..end + 1] == old(buf[start..end]) + [c] && buf[..start] == old(buf[..start])
  {
    buf[end] := c;
  }

  /** Lines 10-26, for a scale that is a power of ten. */
  method ItoaLoop(buf: array<char>, start: nat, scale0: nat, value0: nat, skip0: bool, ghost n0: nat) returns (end: nat)
    requires scale0 == ScaleOf(n0) && value0 < Pow10(n0)
    requires start + n0 <= buf.Length
    modifies buf
    ensures end == start + |Itoa(n0, value0, skip0)| <= buf.Length && buf[start..end] == Itoa(n0, value0, skip0)
    ensures buf[..start] == old(buf[..start])
  {
    hide *;
    ghost var whole := Itoa(n0, value0, skip0);
    var scale: nat, value: nat, skip := scale0, value0, skip0;
    end := start;
    ghost var n := n0;
    assert buf[start..start] == [];
    while scale != 0
      invariant scale == ScaleOf(n) && value < Pow10(n)
      invariant start <= end && end + n <= buf.Length
      invariant buf[..start] == old(buf[..start])
      invariant whole == buf[start..end] + Itoa(n, value, skip)
      decreases n
    {
      ScaleIsZero(n);
      ItoaStep(n, value, skip);
      var digit := value / scale;
      if !skip || digit != 0 || scale == 1 {
        skip := false;
        Put(buf, start, end, DigitChar(digit));
        end := end + 1;
        value := value % scale;
      }
      scale := scale / 10;
      n := n - 1;
    }
    ScaleIsZero(n);
  }

  // ----- fix16_to_str -----

  /** Lines 5-8. */
  const SCALES: seq<nat> := [1, 10, 100, 1000, 10000, 100000, 100000, 100000]

  /** The number of decimals that an argument asks for: its lowest three bits, and no more than five. */
  function Places(decimals: int): (p: nat)
    ensures p <= 5
  {
    Min(decimals % 8, 5)
  }

  function Min(a: nat, b: nat): nat {
    if a <= b then a else b
  }

  /** The table knows the power of ten for every argument, and asks for the decimals from 0 to 5 alike. */
  lemma PlacesAreScales(decimals: int)
    ensures SCALES[decimals % 8] == Pow10(Places(decimals))
    ensures 0 <= decimals <= 5 ==> Places(decimals) == decimals
    ensures 5 <= decimals <= 7 ==> Places(decimals) == 5
  {
    Pow10Values();
  }

  lemma Pow10Values()
    ensures Pow10(0) == 1 && Pow10(1) == 10 && Pow10(2) == 100 && Pow10(3) == 1000 && Pow10(4) == 10000 && Pow10(5) == 100000
  {
  }

  lemma ScaleRange(p: nat)
    requires p <= 5
    ensures 1 <= Pow10(p) <= 100000
  {
    Pow10Values();
  }

  /** Integer part and decimals of u / 65536, rounded to p decimals, with the carry. */
  function Parts(u: nat, p: nat): (nat, nat)
    requires p <= 5
  {
    var frac := Round(u % 0x1_0000 * Pow10(p), 0x1_0000);
    if frac >= Pow10(p) then (u / 0x1_0000 + 1, frac - Pow10(p)) else (u / 0x1_0000, frac)
  }

  /** fix16_mul scales the fraction exactly. */
  lemma FractionScales(f: nat, scale: nat)
    requires f < 0x1_0000 && 1 <= scale <= 100000
    ensures Mul(f, scale) == Round(f * scale, 0x1_0000) && 0 <= Round(f * scale, 0x1_0000) <= scale
  {
    assert Cross(f, scale) == scale / 0x1_0000 * f by {
      assert f / 0x1_0000 == 0 && f % 0x1_0000 == f;
    }
    assert scale / 0x1_0000 == 0 || scale / 0x1_0000 == 1;
    hide Cross, Mul, Round;
    MulIsExact(f, scale);
    RoundedFraction(f, scale);
  }

  lemma RoundedFraction(f: nat, scale: nat)
    requires f < 0x1_0000 && 1 <= scale <= 100000
    ensures 0 <= Round(f * scale, 0x1_0000) <= scale
  {
    MulMonotone(f, 0xFFFF, scale);
    MulMonotone(0, f, scale);
  }

  /** Both parts together are the number, rounded half away from zero to p decimals. */
  lemma PartsAreRounded(u: nat, p: nat)
    requires u < T31 && p <= 5
    ensures var (whole, frac) := Parts(u, p);
      frac < Pow10(p) && whole <= 32768 && whole * Pow10(p) + frac == Round(u * Pow10(p), 0x1_0000)
  {
    ScaleRange(p);
    var s, f, w := Pow10(p), u % 0x1_0000, u / 0x1_0000;
    RoundedFraction(f, s);
    assert Parts(u, p) == if Round(f * s, 0x1_0000) >= s then (w + 1, Round(f * s, 0x1_0000) - s) else (w, Round(f * s, 0x1_0000));
    WholeAndFraction(u, s, w, f);
    hide Round, Parts, Pow10;
    Carried(w, s, Round(f * s, 0x1_0000));
  }

  lemma Carried(w: nat, s: nat, r: nat)
    requires 0 < s && r <= s
    ensures (w + 1) * s + (r - s) == w * s + r
    ensures r >= s ==> r - s < s
  {
  }

  lemma WholeAndFraction(u: nat, s: nat, w: nat, f: nat)
    requires u == w * 0x1_0000 + f
    ensures Round(u * s, 0x1_0000) == w * s + Round(f * s, 0x1_0000)
  {
    assert u * s == (w * s) * 0x1_0000 + f * s;
    RoundPlusWhole(w * s, f * s);
  }

  lemma RoundPlusWhole(w: nat, x: nat)
    ensures Round(w * 0x1_0000 + x, 0x1_0000) == w + Round(x, 0x1_0000)
  {
  }

  function Sign(v: Fix): seq<char> {
    if v < 0 then ['-'] else []
  }

  /** The text of v with p decimals. */
  function Text(v: Fix, p: nat): seq<char>
    requires v != -T31 && p <= 5
  {
    PartsAreRounded(Abs(v), p);
    Pow10Values();
    var (whole, frac) := Parts(Abs(v), p);
    Sign(v) + Itoa(5, whole, true) + if p == 0 then [] else ['.'] + Itoa(p, frac, false)
  }

  /** Lines 35-45. */
  method SplitValue(uvalue: nat, scale: nat, ghost p: nat) returns (intpart: nat, fracpart: nat)
    requires uvalue < T31 && p <= 5 && scale == Pow10(p)
    ensures (intpart, fracpart) == Parts(uvalue, p) && intpart <= 32768 && fracpart < Pow10(p)
  {
    ScaleRange(p);
    PartsAreRounded(uvalue, p);
    intpart := uvalue / 0x1_0000;
    fracpart := uvalue % 0x1_0000;
    FractionScales(fracpart, scale);
    hide Mul, Round, Pow10;
    fracpart := Mul(fracpart, scale);
    if fracpart >= scale {
      intpart := intpart + 1;
      fracpart := fracpart - scale;
    }
  }

  /** fix16_to_str: the text and a NUL. */
  method ToStr(value: Fix, buf: array<char>, decimals: int) returns (ghost end: nat)
    requires value != -T31 && buf.Length >= 13
    modifies buf
    ensures end == |Text(value, Places(decimals))| + 1 <= buf.Length
    ensures buf[..end] == Text(value, Places(decimals)) + ['\0']
  {
    ghost var p := Places(decimals);
    PlacesAreScales(decimals);
    var uvalue: int := if value >= 0 then value else -value;
    assert uvalue == Abs(value);
    var pos := 0;
    if value < 0 {
      buf[pos] := '-';
      pos := pos + 1;
    }
    assert buf[..pos] == Sign(value);
    var scale := SCALES[decimals % 8];
    var intpart, fracpart := SplitValue(uvalue, scale, p);
    Pow10Values();
    pos := PutParts(buf, pos, intpart, scale, fracpart, p);
    assert buf[..pos] == Text(value, p) by { TextInParts(value, p); }
    hide Text, Itoa, Pow10, Parts;
    end := pos + 1;
    ghost var text := buf[..pos];
    buf[pos] := '\0';
    assert buf[..pos] == text;
  }

  lemma TextInParts(v: Fix, p: nat)
    requires v != -T31 && p <= 5
    ensures var (whole, frac) := Parts(Abs(v), p);
      && whole < Pow10(5) && frac < Pow10(p)
      && Text(v, p) == Sign(v) + (Itoa(5, whole, true) + if p == 0 then [] else ['.'] + Itoa(p, frac, false))
  {
    PartsAreRounded(Abs(v), p);
    Pow10Values();
  }

  /** Lines 50-55. */
  method PutDecimals(buf: array<char>, start: nat, scale: nat, fracpart: nat, ghost p: nat) returns (end: nat)
    requires p > 0 && scale == Pow10(p) && fracpart < scale && start + p + 1 < buf.Length
    modifies buf
    ensures end == start + 1 + |Itoa(p, fracpart, false)| < buf.Length
    ensures buf[..end] == old(buf[..start]) + (['.'] + Itoa(p, fracpart, false))
  {
    ItoaLength(p, fracpart, false);
    TenthOfScale(p + 1);
    hide *;
    ghost var before := buf[..start];
    buf[start] := '.';
    assert buf[..start + 1] == before + ['.'];
    end := ItoaLoop(buf, start + 1, scale / 10, fracpart, false, p);
    assert buf[..end] == buf[..start + 1] + buf[start + 1..end];
  }

  lemma PartScales(p: nat)
    requires p <= 5
    ensures ScaleOf(5) == 10000 && (Pow10(p) != 1 <==> p > 0)
  {
    Pow10Values();
  }

  lemma NoDecimals(fracpart: nat)
    requires fracpart < Pow10(0)
    ensures Itoa(0, fracpart, false) == []
  {
  }

  /** Lines 48-55. */
  method PutParts(buf: array<char>, start: nat, intpart: nat, scale: nat, fracpart: nat, ghost p: nat) returns (end: nat)
    requires p <= 5 && scale == Pow10(p) && intpart < Pow10(5) && fracpart < scale && start + 11 < buf.Length
    modifies buf
    ensures var t := Itoa(5, intpart, true) + if p == 0 then [] else ['.'] + Itoa(p, fracpart, false);
      end == start + |t| < buf.Length && buf[..end] == old(buf[..start]) + t
  {
    hide *;
    PartScales(p);
    ItoaLength(5, intpart, true);
    ItoaLength(p, fracpart, false);
    if p == 0 { NoDecimals(fracpart); }
    end := ItoaLoop(buf, start, 10000, intpart, true, 5);
    assert buf[..end] == buf[..start] + buf[start..end];
    if scale != 1 {
      end := PutDecimals(buf, end, scale, fracpart, p);
    }
  }

  // ----- fix16_from_str -----

  /** A C string: it has a NUL. */
  predicate Terminated(s: seq<char>) {
    '\0' in s
  }

  /** How many spaces, or digits, a text starts with. */
  function Spaces(s: seq<char>): (n: nat)
    ensures n <= |s|
    ensures Terminated(s) ==> n < |s| && Terminated(s[n..]) && !IsSpace(s[n])
  {
    if s != [] && IsSpace(s[0]) then
      assert s == [s[0]] + s[1..];
      assert s[1..][Spaces(s[1..])..] == s[1 + Spaces(s[1..])..];
      1 + Spaces(s[1..])
    else
      assert s[0..] == s;
      0
  }

  function Digits(s: seq<char>): (n: nat)
    ensures n <= |s| && AllDigits(s[..n])
    ensures Terminated(s) ==> n < |s| && Terminated(s[n..]) && !IsDigit(s[n])
  {
    if s != [] && IsDigit(s[0]) then
      assert s == [s[0]] + s[1..];
      assert s[1..][Digits(s[1..])..] == s[1 + Digits(s[1..])..];
      assert s[..1 + Digits(s[1..])] == [s[0]] + s[1..][..Digits(s[1..])];
      1 + Digits(s[1..])
    else
      assert s[0..] == s;
      0
  }

  /** Nothing but digits and spaces up to the NUL. */
  predicate Clean(s: seq<char>)
    requires Terminated(s)
  {
    s[0] == '\0' || ((IsDigit(s[0]) || IsSpace(s[0])) && (assert s == [s[0]] + s[1..]; Clean(s[1..])))
  }

  /** Negation on 32 bits: it wraps for the minimum. */
  function Negated(value: int): Fix {
    ToFix(-value)
  }

  /** The end of the text: lines 104-112. */
  function ParseRest(negative: bool, value: Fix, rest: seq<char>): Fix
    requires Terminated(rest)
  {
    if !Clean(rest) then OVERFLOW else if negative then Negated(value) else value
  }

  lemma TakeDecimals(d: seq<char>, k: nat)
    requires Terminated(d) && k <= Digits(d)
    ensures AllDigits(d[..k]) && Terminated(d[k..])
  {
    hide Digits, Terminated;
    var n := Digits(d);
    assert d[..k] == d[..n][..k];
    assert d[k..] == d[k..n] + d[n..];
    LaterEnd(d[k..n], d[n..]);
  }

  lemma LaterEnd(s: seq<char>, t: seq<char>)
    requires Terminated(t)
    ensures Terminated(s + t)
  {
    var i :| 0 <= i < |t| && t[i] == '\0';
    assert (s + t)[|s| + i] == '\0';
  }

  lemma BehindPoint(b: seq<char>, n: nat)
    requires n < |b| && Terminated(b[n..]) && b[n] != '\0'
    ensures Terminated(b[n + 1..])
  {
    assert b[n..] == [b[n]] + b[n + 1..];
  }

  /** Decimals behind the point: at most five are read. */
  function ParseDecimals(negative: bool, whole: nat, d: seq<char>): Fix
    requires Terminated(d)
  {
    var k := Min(Digits(d), 5);
    TakeDecimals(d, k);
    ParseRest(negative, ToFix(ToFix(whole * 0x1_0000) + Round(ValueOf(d[..k]) * 0x1_0000, Pow10(k))), d[k..])
  }

  /** Behind the sign. */
  function ParseNumber(negative: bool, b: seq<char>): Fix
    requires Terminated(b)
  {
    var n := Digits(b);
    var whole := WordOf(b[..n]);
    if n == 0 || n > 5 || whole > 32768 || (!negative && whole > 32767) then OVERFLOW
    else if b[n] == '.' || b[n] == ',' then
      BehindPoint(b, n);
      ParseDecimals(negative, whole, b[n + 1..])
    else ParseRest(negative, ToFix(whole * 0x1_0000), b[n..])
  }

  function Parse(s: seq<char>): Fix
    requires Terminated(s)
  {
    var a := s[Spaces(s)..];
    if a[0] == '+' || a[0] == '-' then
      assert a == [a[0]] + a[1..];
      ParseNumber(a[0] == '-', a[1..])
    else ParseNumber(false, a)
  }

  /** One character on, inside the text. */
  lemma Behind(s: seq<char>, i: nat)
    requires i < |s| && Terminated(s[i..]) && s[i] != '\0'
    ensures i + 1 < |s| && Terminated(s[i + 1..]) && s[i..][1..] == s[i + 1..] && s[i..][0] == s[i]
  {
    assert s[i..] == [s[i]] + s[i + 1..];
  }

  lemma SpacesStep(s: seq<char>, i: nat)
    requires i < |s| && Terminated(s[i..])
    ensures !IsSpace(s[i]) ==> Spaces(s[i..]) == 0
    ensures IsSpace(s[i]) ==> i + 1 < |s| && Terminated(s[i + 1..]) && Spaces(s[i..]) == 1 + Spaces(s[i + 1..])
  {
    if IsSpace(s[i]) {
      Behind(s, i);
    }
  }

  /** Lines 62-63. */
  method SkipSpaces(s: seq<char>) returns (i: nat)
    requires Terminated(s)
    ensures i == Spaces(s)
  {
    i := 0;
    assert s[0..] == s;
    SpacesStep(s, 0);
    hide Spaces;
    while IsSpace(s[i])
      invariant i < |s| && Terminated(s[i..]) && i + Spaces(s[i..]) == Spaces(s)
      decreases |s| - i
    {
      SpacesStep(s, i);
      i := i + 1;
    }
    SpacesStep(s, i);
  }

  /** x * 10 + digit on 32 bits. */
  lemma AppendDigitWraps(x: nat, digit: nat)
    ensures (x % W32 * 10 % W32 + digit) % W32 == (x * 10 + digit) % W32
  {
    var q, r := x / W32, x % W32;
    DivMod(x, W32);
    var q', r' := r * 10 / W32, r * 10 % W32;
    DivMod(r * 10, W32);
    SameWord(x * 10 + digit, r' + digit, q * 10 + q');
  }

  lemma SameWord(x: nat, y: nat, q: nat)
    requires x == q * W32 + y
    ensures x % W32 == y % W32
  {
    DivMod(y, W32);
    DivModUnique(x, W32, q + y / W32, y % W32);
  }

  /** The digits d of the text have been read, and s goes on at i. */
  ghost predicate Reading(text: seq<char>, d: seq<char>, s: seq<char>, i: nat) {
    AllDigits(d) && i < |s| && Terminated(s[i..]) && text == d + s[i..]
  }

  lemma StartReading(s: seq<char>, j: nat)
    requires j <= |s| && Terminated(s[j..])
    ensures j < |s| && AllDigits([]) && Reading(s[j..], [], s, j) && ValueOf([]) == 0 && WordOf([]) == 0
  {
  }

  /** One digit more read: it goes from the rest to the digits. */
  lemma TakeDigit(text: seq<char>, d: seq<char>, s: seq<char>, i: nat) returns (d': seq<char>)
    requires i < |s| && Reading(text, d, s, i) && IsDigit(s[i])
    ensures i + 1 < |s| && |d'| == |d| + 1 && Reading(text, d', s, i + 1)
    ensures AllDigits(d) && AllDigits(d') && ValueOf(d') == ValueOf(d) * 10 + DigitValue(s[i])
    ensures WordOf(d') == Accumulate(WordOf(d), s[i])
  {
    Behind(s, i);
    d' := d + [s[i]];
    assert d'[..|d|] == d;
    Accumulates(ValueOf(d), s[i]);
  }

  /** The digits read are all there are. */
  lemma {:induction false} DigitsAppend(d: seq<char>, rest: seq<char>)
    requires AllDigits(d)
    ensures Digits(d + rest) == |d| + Digits(rest)
    decreases |d|
  {
    if d == [] {
      assert d + rest == rest;
    } else {
      DigitsAppend(d[1..], rest);
      assert (d + rest)[1..] == d[1..] + rest;
    }
  }

  lemma AllRead(text: seq<char>, d: seq<char>, s: seq<char>, i: nat)
    requires Reading(text, d, s, i)
    ensures Terminated(s[i..]) && Digits(text) >= |d| && text[..|d|] == d && text[|d|..] == s[i..] && text[|d|] == s[i]
    ensures !IsDigit(s[i]) ==> Digits(text) == |d|
  {
    DigitsAppend(d, s[i..]);
  }

  /** intpart * 10 + digit on 32 bits: lines 73-76. */
  function Accumulate(x: Word, c: char): Word
    requires IsDigit(c)
  {
    (x * 10 % W32 + DigitValue(c)) % W32
  }

  lemma Accumulates(x: nat, c: char)
    requires IsDigit(c)
    ensures Accumulate(x % W32, c) == (x * 10 + DigitValue(c)) % W32
  {
    AppendDigitWraps(x, DigitValue(c));
  }

  /** The number of the digits, cut to 32 bits. */
  function WordOf(d: seq<char>): Word
    requires AllDigits(d)
  {
    ValueOf(d) % W32
  }

  /** Lines 71-78. */
  method ReadInteger(s: seq<char>, j: nat) returns (i: nat, intpart: Word, count: nat, ghost d: seq<char>)
    requires j <= |s| && Terminated(s[j..])
    ensures i < |s| && i == j + count && count == |d| && Reading(s[j..], d, s, i) && !IsDigit(s[i])
    ensures AllDigits(d) && intpart == WordOf(d)
  {
    hide ValueOf, Digits, AllDigits, Reading, Accumulate, Terminated, IsDigit, WordOf;
    i, intpart, count := j, 0, 0;
    ghost var b := s[j..];
    d := [];
    StartReading(s, j);
    while IsDigit(s[i])
      invariant j <= i < |s| && count == i - j == |d|
      invariant Reading(b, d, s, i) && AllDigits(d) && intpart == WordOf(d)
      decreases |s| - i
    {
      d := TakeDigit(b, d, s, i);
      intpart := Accumulate(intpart, s[i]);
      i := i + 1;
      count := count + 1;
    }
  }

  lemma NextScale(k: nat)
    requires Pow10(k) <= 100000
    ensures Pow10(k + 1) == 10 * Pow10(k)
    ensures k <= 5 && (Pow10(k) < 100000 <==> k < 5) && (k < 5 ==> Pow10(k) <= 10000)
  {
    Pow10Values();
    if k > 5 {
      Pow10Grows(5, k);
    }
  }

  lemma {:induction false} Pow10Grows(a: nat, b: nat)
    requires a < b
    ensures Pow10(a) < Pow10(b)
    decreases b
  {
    if a < b - 1 {
      Pow10Grows(a, b - 1);
    }
  }

  /** The decimals d have been read, at most five. */
  ghost predicate Decimals(text: seq<char>, d: seq<char>, s: seq<char>, i: nat, fracpart: nat, scale: nat) {
    && Reading(text, d, s, i) && scale == Pow10(|d|) <= 100000
    && AllDigits(d) && fracpart == ValueOf(d) < scale
  }

  lemma NextDecimal(text: seq<char>, d: seq<char>, s: seq<char>, i: nat, fracpart: nat, scale: nat) returns (d': seq<char>)
    requires i < |s| && Decimals(text, d, s, i, fracpart, scale) && IsDigit(s[i]) && scale < 100000
    ensures i + 1 < |s| && |d'| == |d| + 1
    ensures Decimals(text, d', s, i + 1, fracpart * 10 + DigitValue(s[i]), scale * 10)
  {
    NextScale(|d|);
    hide Reading, ValueOf, AllDigits, Pow10;
    d' := TakeDigit(text, d, s, i);
  }

  /** Lines 91-98. */
  method ReadDecimals(s: seq<char>, j: nat) returns (i: nat, fracpart: nat, scale: nat, ghost d: seq<char>)
    requires j <= |s| && Terminated(s[j..])
    ensures i < |s| && i == j + |d| && Decimals(s[j..], d, s, i, fracpart, scale) && (!IsDigit(s[i]) || scale >= 100000)
  {
    hide *;
    i, fracpart, scale := j, 0, 1;
    ghost var b := s[j..];
    d := [];
    StartReading(s, j);
    StartDecimals(b, s, j);
    while IsDigit(s[i]) && scale < 100000
      invariant j <= i < |s| && i - j == |d|
      invariant Decimals(b, d, s, i, fracpart, scale)
      decreases |s| - i
    {
      d := NextDecimal(b, d, s, i, fracpart, scale);
      scale := scale * 10;
      fracpart := fracpart * 10;
      fracpart := fracpart + DigitValue(s[i]);
      i := i + 1;
    }
  }

  lemma StartDecimals(text: seq<char>, s: seq<char>, j: nat)
    requires Reading(text, [], s, j)
    ensures Decimals(text, [], s, j, 0, 1)
  {
    assert ValueOf([]) == 0;
  }

  /** What has been read are the digits of the text, or the first five of them. */
  lemma DecimalsRead(text: seq<char>, d: seq<char>, s: seq<char>, i: nat, fracpart: nat, scale: nat)
    requires i < |s| && Decimals(text, d, s, i, fracpart, scale) && (!IsDigit(s[i]) || scale >= 100000)
    ensures Terminated(s[i..]) && |d| == Min(Digits(text), 5) <= |text|
    ensures text[..|d|] == d && text[|d|..] == s[i..] && AllDigits(d)
    ensures scale == Pow10(|d|) <= 100000 && fracpart == ValueOf(d) < scale
  {
    NextScale(|d|);
    hide ValueOf, Pow10;
    AllRead(text, d, s, i);
  }

  lemma CleanStep(s: seq<char>, i: nat)
    requires i < |s| && Terminated(s[i..])
    ensures s[i] == '\0' ==> Clean(s[i..])
    ensures s[i] != '\0' ==> i + 1 < |s| && Terminated(s[i + 1..]) && Clean(s[i..]) == ((IsDigit(s[i]) || IsSpace(s[i])) && Clean(s[i + 1..]))
  {
    if s[i] != '\0' {
      Behind(s, i);
    }
  }

  /** Lines 104-110. */
  method CheckRest(s: seq<char>, j: nat) returns (clean: bool)
    requires j <= |s| && Terminated(s[j..])
    ensures clean == Clean(s[j..])
  {
    var i := j;
    hide Clean;
    while s[i] != '\0'
      invariant i < |s| && Terminated(s[i..]) && Clean(s[i..]) == Clean(s[j..])
      decreases |s| - i
    {
      CleanStep(s, i);
      if !IsDigit(s[i]) && !IsSpace(s[i]) {
        return false;
      }
      i := i + 1;
    }
    CleanStep(s, i);
    return true;
  }

  /** Lines 103-112. */
  method Finish(s: seq<char>, i: nat, negative: bool, value: Fix) returns (r: Fix)
    requires i <= |s| && Terminated(s[i..])
    ensures r == ParseRest(negative, value, s[i..])
  {
    var clean := CheckRest(s, i);
    if !clean {
      return OVERFLOW;
    }
    return if negative then Negated(value) else value;
  }

  /** The fraction is divided exactly. */
  lemma QuotientOfDecimals(frac: nat, scale: nat)
    requires frac < scale <= 100000
    ensures 0 < Abs(scale) < T20 && Abs(frac) < 0x8000 * Abs(scale) && ExactDiv(frac, scale) == Round(frac * 0x1_0000, scale)
  {
  }

  /** Line 100. */
  method DivideDecimals(fracpart: nat, scale: nat) returns (quotient: Fix)
    requires fracpart < scale <= 100000
    ensures quotient == Round(fracpart * 0x1_0000, scale)
  {
    QuotientOfDecimals(fracpart, scale);
    quotient := Div(fracpart, scale);
  }

  /** Lines 91-100. */
  method AddDecimals(s: seq<char>, j: nat, negative: bool, whole: Fix) returns (i: nat, value: Fix, ghost d: seq<char>)
    requires j <= |s| && Terminated(s[j..])
    ensures i < |s| && |d| == Min(Digits(s[j..]), 5) <= |s[j..]|
    ensures s[j..][..|d|] == d && AllDigits(d) && s[j..][|d|..] == s[i..] && Terminated(s[i..])
    ensures value == ToFix(whole + Round(ValueOf(d) * 0x1_0000, Pow10(|d|)))
  {
    hide *;
    var fracpart, scale;
    i, fracpart, scale, d := ReadDecimals(s, j);
    DecimalsRead(s[j..], d, s, i, fracpart, scale);
    var quotient := DivideDecimals(fracpart, scale);
    value := ToFix(whole + quotient);
  }

  /** Lines 89-112, from the first decimal on. */
  method FinishDecimals(s: seq<char>, j: nat, negative: bool, intpart: Word) returns (r: Fix)
    requires j <= |s| && Terminated(s[j..])
    ensures r == ParseDecimals(negative, intpart, s[j..])
  {
    hide *;
    var i, value;
    ghost var d;
    i, value, d := AddDecimals(s, j, negative, ToFix(intpart * 0x1_0000));
    ParsedDecimals(negative, intpart, s[j..], d, s[i..]);
    r := Finish(s, i, negative, value);
  }

  lemma ParsedDecimals(negative: bool, whole: nat, text: seq<char>, d: seq<char>, rest: seq<char>)
    requires Terminated(text) && |d| == Min(Digits(text), 5) <= |text| && text[..|d|] == d && text[|d|..] == rest
    requires AllDigits(d) && Terminated(rest)
    ensures ParseDecimals(negative, whole, text) ==
      ParseRest(negative, ToFix(ToFix(whole * 0x1_0000) + Round(ValueOf(d) * 0x1_0000, Pow10(|d|))), rest)
  {
    hide ToFix, Round, ValueOf, Pow10, ParseRest, Digits, AllDigits, Terminated, Min;
  }

  /** Lines 70-112, behind the sign. */
  method FromNumber(s: seq<char>, j: nat, negative: bool) returns (r: Fix)
    requires j <= |s| && Terminated(s[j..])
    ensures r == ParseNumber(negative, s[j..])
  {
    hide *;
    ghost var d;
    var i, intpart, count;
    i, intpart, count, d := ReadInteger(s, j);
    AllRead(s[j..], d, s, i);
    IsCut(s[j..], d, s[i..]);
    RestStarts(s, i);
    ParsedNumber(negative, s[j..], d, s[i..]);
    NumberCases(negative, d, s[i..]);
    if count == 0 || count > 5 || intpart > 32768 || (!negative && intpart > 32767) {
      return OVERFLOW;
    }
    if s[i] == '.' || s[i] == ',' {
      Behind(s, i);
      r := FinishDecimals(s, i + 1, negative, intpart);
    } else {
      r := Finish(s, i, negative, ToFix(intpart * 0x1_0000));
    }
  }

  /** The text is d and then rest. */
  ghost predicate CutAt(text: seq<char>, d: seq<char>, rest: seq<char>) {
    |d| <= |text| && text[..|d|] == d && text[|d|..] == rest
  }

  /** What becomes of the digits d and of what follows them. */
  function NumberIs(negative: bool, d: seq<char>, rest: seq<char>): Fix
    requires AllDigits(d) && rest != [] && Terminated(rest)
  {
    var whole := WordOf(d);
    if |d| == 0 || |d| > 5 || whole > 32768 || (!negative && whole > 32767) then OVERFLOW
    else if rest[0] == '.' || rest[0] == ',' then
      BehindPoint(rest, 0);
      ParseDecimals(negative, whole, rest[1..])
    else ParseRest(negative, ToFix(whole * 0x1_0000), rest)
  }

  lemma ParsedNumber(negative: bool, text: seq<char>, d: seq<char>, rest: seq<char>)
    requires Terminated(text) && |d| == Digits(text) && CutAt(text, d, rest)
    requires AllDigits(d) && rest != [] && Terminated(rest)
    ensures ParseNumber(negative, text) == NumberIs(negative, d, rest)
  {
    hide ToFix, WordOf, ValueOf, ParseRest, ParseDecimals, Digits, AllDigits, Terminated, IsDigit, Clean;
    assert text[|d| + 1..] == rest[1..];
  }

  lemma RestStarts(s: seq<char>, i: nat)
    requires i < |s|
    ensures s[i..] != [] && s[i..][0] == s[i] && s[i..][1..] == s[i + 1..]
  {
  }

  lemma IsCut(text: seq<char>, d: seq<char>, rest: seq<char>)
    requires |d| <= |text| && text[..|d|] == d && text[|d|..] == rest
    ensures CutAt(text, d, rest)
  {
  }

  lemma NumberCases(negative: bool, d: seq<char>, rest: seq<char>)
    requires AllDigits(d) && rest != [] && Terminated(rest)
    ensures rest[0] == '.' || rest[0] == ',' ==> Terminated(rest[1..])
    ensures var whole := WordOf(d);
      NumberIs(negative, d, rest) == (
        if |d| == 0 || |d| > 5 || whole > 32768 || (!negative && whole > 32767) then OVERFLOW
        else if rest[0] == '.' || rest[0] == ',' then ParseDecimals(negative, whole, rest[1..])
        else ParseRest(negative, ToFix(whole * 0x1_0000), rest))
  {
    hide ToFix, WordOf, ValueOf, ParseRest, ParseDecimals, Digits, AllDigits, Terminated, IsDigit, Clean;
    if rest[0] == '.' || rest[0] == ',' {
      BehindPoint(rest, 0);
    }
  }

  /** fix16_from_str, on a text that has a NUL. */
  method FromStr(s: seq<char>) returns (r: Fix)
    requires Terminated(s)
    ensures r == Parse(s)
  {
    var i := SkipSpaces(s);
    assert Terminated(s[i..]) && s[i..][0] == s[i];
    hide ParseNumber, Spaces;
    var negative := s[i] == '-';
    if s[i] == '+' || s[i] == '-' {
      Behind(s, i);
      i := i + 1;
    }
    r := FromNumber(s, i, negative);
  }

  // ----- what parsing means -----

  /** A sign or none. */
  predicate IsSign(sign: seq<char>) {
    sign == [] || sign == ['+'] || sign == ['-']
  }

  /** The value of whole.frac with k decimals, in 65536ths, rounded half up. */
  function Nearest(whole: nat, frac: nat, k: nat): int {
    Round((whole * Pow10(k) + frac) * 0x1_0000, Pow10(k))
  }

  lemma NearestInParts(whole: nat, frac: nat, k: nat)
    requires frac < Pow10(k) && k <= 5
    ensures Nearest(whole, frac, k) == whole * 0x1_0000 + Round(frac * 0x1_0000, Pow10(k))
    ensures 0 <= Round(frac * 0x1_0000, Pow10(k)) <= 0x1_0000
  {
    NearestParts(whole, frac, Pow10(k));
    FractionInRange(frac, Pow10(k));
  }

  lemma NearestParts(whole: nat, frac: nat, p: nat)
    requires p > 0
    ensures Round((whole * p + frac) * 0x1_0000, p) == whole * 0x1_0000 + Round(frac * 0x1_0000, p)
  {
    var x, w := frac * 0x1_0000, whole * 0x1_0000;
    assert (whole * p + frac) * 0x1_0000 == w * p + x by { Distribute(whole, p, frac); }
    assert 2 * (w * p + x) + p == w * (2 * p) + (2 * x + p) by { Distribute2(w, p, x); }
    AddWhole(w, 2 * p, 2 * x + p);
  }

  lemma Distribute(whole: nat, p: nat, frac: nat)
    ensures (whole * p + frac) * 0x1_0000 == whole * 0x1_0000 * p + frac * 0x1_0000
  {
  }

  lemma Distribute2(w: nat, p: nat, x: nat)
    ensures 2 * (w * p + x) + p == w * (2 * p) + (2 * x + p)
  {
  }

  lemma AddWhole(w: nat, d: nat, n: nat)
    requires d > 0
    ensures (w * d + n) / d == w + n / d
  {
    DivMod(n, d);
    assert (w + n / d) * d == w * d + n / d * d;
    DivModUnique(w * d + n, d, w + n / d, n % d);
  }

  lemma FractionInRange(frac: nat, p: nat)
    requires frac < p
    ensures 0 <= Round(frac * 0x1_0000, p) <= 0x1_0000
  {
    var n := 2 * (frac * 0x1_0000) + p;
    DivLessEq(n, 2 * p);
    assert 0x1_0001 * (2 * p) == 0x2_0002 * p;
    DivIsLess(n, 0x1_0001, 2 * p);
  }

  /** Where a C string ends. */
  predicate Stops(end: seq<char>) {
    end != [] && end[0] == '\0'
  }

  lemma EndOfDigits(d: seq<char>, rest: seq<char>)
    requires AllDigits(d) && Terminated(rest) && !IsDigit(rest[0])
    ensures Terminated(d + rest) && Digits(d + rest) == |d| && (d + rest)[..|d|] == d && (d + rest)[|d|..] == rest
  {
    DigitsAppend(d, rest);
    var i :| 0 <= i < |rest| && rest[i] == '\0';
    assert (d + rest)[|d| + i] == '\0';
  }

  lemma EndIsClean(end: seq<char>)
    requires Stops(end)
    ensures Terminated(end) && Clean(end) && !IsDigit(end[0])
  {
  }

  lemma SmallFix(x: int)
    requires 0 <= x < T31
    ensures ToFix(x) == x && Negated(x) == -x
  {
    WrapSmall(x);
    if x > 0 {
      WrapNegative(-x);
    }
  }

  lemma WrapSmall(x: int)
    requires 0 <= x < W32
    ensures x % W32 == x
  {
  }

  lemma WrapNegative(x: int)
    requires -W32 <= x < 0
    ensures x % W32 == x + W32
  {
  }

  lemma CleanRest(negative: bool, value: Fix, rest: seq<char>)
    requires Terminated(rest) && Clean(rest) && value >= 0
    ensures ParseRest(negative, value, rest) == if negative then -(value as int) else value
  {
    SmallFix(value);
  }

  lemma TailParses(negative: bool, whole: nat, b: seq<char>, end: seq<char>)
    requires AllDigits(b) && |b| <= 5 && whole <= 32767 && ValueOf(b) < Pow10(|b|) && Stops(end)
    requires Nearest(whole, ValueOf(b), |b|) < T31
    ensures Terminated(b + end)
    ensures var x := Nearest(whole, ValueOf(b), |b|);
      x >= 0 && ParseDecimals(negative, whole, b + end) == if negative then -x else x
  {
    hide Digits, ValueOf, Pow10, ParseDecimals, ParseRest, Nearest, Round, ToFix, Terminated, AllDigits, Clean, Stops;
    EndIsClean(end);
    EndOfDigits(b, end);
    NearestInParts(whole, ValueOf(b), |b|);
    var value := whole * 0x1_0000 + Round(ValueOf(b) * 0x1_0000, Pow10(|b|));
    SmallFix(whole * 0x1_0000);
    SmallFix(value);
    ParsedDecimals(negative, whole, b + end, b, end);
    CleanRest(negative, value, end);
  }

  lemma SmallWord(a: seq<char>)
    requires AllDigits(a) && ValueOf(a) < W32
    ensures WordOf(a) == ValueOf(a)
  {
  }

  lemma PointEndsDigits(tail: seq<char>)
    requires Terminated(tail)
    ensures Terminated(['.'] + tail) && (['.'] + tail)[0] == '.' && (['.'] + tail)[1..] == tail && !IsDigit('.')
  {
    var i :| 0 <= i < |tail| && tail[i] == '\0';
    assert (['.'] + tail)[i + 1] == '\0';
  }

  lemma NumberParses(negative: bool, a: seq<char>, b: seq<char>, end: seq<char>)
    requires AllDigits(a) && 1 <= |a| <= 5 && AllDigits(b) && |b| <= 5 && Stops(end)
    requires ValueOf(a) <= 32767 && ValueOf(b) < Pow10(|b|)
    requires Nearest(ValueOf(a), ValueOf(b), |b|) < T31
    ensures Terminated(a + (['.'] + (b + end)))
    ensures var x := Nearest(ValueOf(a), ValueOf(b), |b|);
      x >= 0 && ParseNumber(negative, a + (['.'] + (b + end))) == if negative then -x else x
  {
    hide Digits, ValueOf, Pow10, ParseNumber, ParseDecimals, ParseRest, Nearest, Terminated, AllDigits, WordOf, Stops, ToFix;
    TailParses(negative, ValueOf(a), b, end);
    PointEndsDigits(b + end);
    var rest := ['.'] + (b + end);
    EndOfDigits(a, rest);
    SmallWord(a);
    ParsedNumber(negative, a + rest, a, rest);
  }

  lemma SignedText(sign: seq<char>, b: seq<char>)
    requires IsSign(sign) && Terminated(b) && IsDigit(b[0])
    ensures Terminated(sign + b) && Parse(sign + b) == ParseNumber(sign == ['-'], b)
  {
    hide ParseNumber, Terminated;
    var t := sign + b;
    SignKeepsEnd(sign, b);
    assert Spaces(t) == 0 && t[0..] == t;
    if sign != [] {
      assert t[1..] == b && t[0] == sign[0];
    } else {
      assert t == b;
    }
  }

  lemma SignKeepsEnd(sign: seq<char>, b: seq<char>)
    requires Terminated(b)
    ensures Terminated(sign + b)
  {
    var i :| 0 <= i < |b| && b[i] == '\0';
    assert (sign + b)[|sign| + i] == '\0';
  }

  /** Digits, a point and at most five decimals parse to the nearest fixed point number. */
  lemma DecimalParses(sign: seq<char>, a: seq<char>, b: seq<char>, end: seq<char>)
    requires IsSign(sign) && AllDigits(a) && 1 <= |a| <= 5 && AllDigits(b) && |b| <= 5 && Stops(end)
    requires ValueOf(a) <= 32767 && ValueOf(b) < Pow10(|b|)
    requires Nearest(ValueOf(a), ValueOf(b), |b|) < T31
    ensures Terminated(sign + (a + (['.'] + (b + end))))
    ensures var x := Nearest(ValueOf(a), ValueOf(b), |b|);
      x >= 0 && Parse(sign + (a + (['.'] + (b + end)))) == if sign == ['-'] then -x else x
  {
    assert IsDigit(a[0]);
    hide Parse, ParseNumber, Terminated, Nearest, ValueOf, AllDigits, Pow10, Stops, IsSign;
    NumberParses(sign == ['-'], a, b, end);
    SignedText(sign, a + (['.'] + (b + end)));
  }

  /** Five decimals are enough to find the fraction again. */
  lemma FiveDecimals(f: nat)
    requires f < 0x1_0000
    ensures var F := Round(f * 100000, 0x1_0000); 0 <= F < 100000 && Round(F * 0x1_0000, 100000) == f
  {
  }

  lemma FiveDecimalsOf(u: nat)
    requires u < T31
    ensures var (whole, frac) := Parts(u, 5);
      whole <= 32767 && frac < Pow10(5) && Nearest(whole, frac, 5) == u
  {
    var f := u % 0x1_0000;
    Pow10Values();
    FiveDecimals(f);
    var frac := Round(f * 100000, 0x1_0000);
    assert Parts(u, 5) == (u / 0x1_0000, frac);
    NearestInParts(u / 0x1_0000, frac, 5);
  }

  lemma TextParses(sign: seq<char>, whole: nat, frac: nat, end: seq<char>)
    requires IsSign(sign) && whole <= 32767 && frac < Pow10(5) && Nearest(whole, frac, 5) < T31 && Stops(end)
    ensures whole < Pow10(5)
    ensures var t := sign + (Itoa(5, whole, true) + (['.'] + (Itoa(5, frac, false) + end)));
      Terminated(t) && Parse(t) == if sign == ['-'] then -Nearest(whole, frac, 5) else Nearest(whole, frac, 5)
  {
    assert Pow10(5) == 100000 by { Pow10Values(); }
    hide Parse, Nearest, Itoa, Pow10, Terminated, Stops, IsSign, ValueOf, AllDigits;
    ItoaIsDecimal(5, whole, true);
    ItoaIsDecimal(5, frac, false);
    ItoaLength(5, whole, true);
    ItoaLength(5, frac, false);
    DecimalParses(sign, Itoa(5, whole, true), Itoa(5, frac, false), end);
  }

  lemma Regrouped(sign: seq<char>, a: seq<char>, b: seq<char>, end: seq<char>)
    ensures sign + (a + (['.'] + b)) + end == sign + (a + (['.'] + (b + end)))
  {
  }

  /** Printing with five decimals and parsing back is the identity, whatever comes after the NUL. */
  lemma RoundTrip(v: Fix, end: seq<char>)
    requires v != -T31 && Stops(end)
    ensures Terminated(Text(v, 5) + end) && Parse(Text(v, 5) + end) == v
  {
    assert IsSign(Sign(v)) && (Sign(v) == ['-'] <==> v < 0);
    hide Parse, Text, Itoa, Pow10, Nearest, Parts, Terminated, Stops, IsSign, Sign;
    var (whole, frac) := Parts(Abs(v), 5);
    FiveDecimalsOf(Abs(v));
    TextInParts(v, 5);
    TextParses(Sign(v), whole, frac, end);
    Regrouped(Sign(v), Itoa(5, whole, true), Itoa(5, frac, false), end);
  }

  /** The same on the buffer: fix16_from_str undoes fix16_to_str with 5 (or 6, or 7) decimals. */
  method PrintAndParse(v: Fix, buf: array<char>, decimals: int) returns (r: Fix)
    requires v != -T31 && buf.Length >= 13 && Places(decimals) == 5
    modifies buf
    ensures r == v
  {
    hide Parse, Text, Terminated, Places;
    ghost var end := ToStr(v, buf, decimals);
    SplitAtEnd(buf[..], Text(v, 5), end);
    RoundTrip(v, buf[..][end - 1..]);
    r := FromStr(buf[..]);
  }

  lemma SplitAtEnd(all: seq<char>, text: seq<char>, end: nat)
    requires end <= |all| && end == |text| + 1 && all[..end] == text + ['\0']
    ensures all == text + all[end - 1..] && Stops(all[end - 1..])
  {
    assert all[..end][end - 1] == '\0';
    assert all[..end - 1] == all[..end][..end - 1] == text;
  }
}
