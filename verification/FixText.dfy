/** What fix16_from_str makes of any text, malformed ones included, in terms of how the text is put together. */
module FixText {
  import opened Words
  import opened Fix16
  import opened FixStr

  /** A text cut into its parts; the rest goes up to the NUL and beyond. */
  datatype Shape = Shape(spaces: seq<char>, sign: seq<char>, digits: seq<char>, point: seq<char>, decimals: seq<char>,
                         rest: seq<char>)

  function FromPoint(p: Shape): seq<char> {
    p.point + (p.decimals + p.rest)
  }

  function FromDigits(p: Shape): seq<char> {
    p.digits + FromPoint(p)
  }

  function Whole(p: Shape): seq<char> {
    p.spaces + (p.sign + FromDigits(p))
  }

  ghost predicate AllSpaces(s: seq<char>) {
    forall i :: 0 <= i < |s| ==> IsSpace(s[i])
  }

  ghost predicate IsPoint(s: seq<char>) {
    s == [] || s == ['.'] || s == [',']
  }

  /** A text s has these parts: all digits are taken, and at most five decimals behind a point. */
  ghost predicate HasShape(s: seq<char>, p: Shape) {
    && s == Whole(p) && AllSpaces(p.spaces) && IsSign(p.sign) && AllDigits(p.digits) && IsPoint(p.point)
    && AllDigits(p.decimals) && |p.decimals| <= 5 && Terminated(p.rest)
    && (p.point == [] ==> p.decimals == [] && !IsDigit(p.rest[0]) && p.rest[0] != '.' && p.rest[0] != ',')
    && (p.point != [] && |p.decimals| < 5 ==> !IsDigit(p.rest[0]))
    && (p.sign == [] && p.digits == [] ==> !IsSpace(FromPoint(p)[0]) && FromPoint(p)[0] != '+' && FromPoint(p)[0] != '-')
  }

  /** Somewhere in front of the first NUL stands neither a digit nor a space. */
  ghost predicate Garbage(s: seq<char>) {
    exists n :: 0 <= n < |s| && '\0' !in s[..n + 1] && !IsDigit(s[n]) && !IsSpace(s[n])
  }

  /** The last loop finds exactly that. */
  lemma {:induction false} CleanIff(s: seq<char>)
    requires Terminated(s)
    ensures Clean(s) <==> !Garbage(s)
  {
    if s[0] != '\0' {
      assert s == [s[0]] + s[1..];
      CleanIff(s[1..]);
      if n :| 0 <= n < |s[1..]| && '\0' !in s[1..][..n + 1] && !IsDigit(s[1..][n]) && !IsSpace(s[1..][n]) {
        assert s[..n + 2] == [s[0]] + s[1..][..n + 1] && s[n + 1] == s[1..][n];
      }
      if n :| 0 <= n < |s| && '\0' !in s[..n + 1] && !IsDigit(s[n]) && !IsSpace(s[n]) {
        assert n > 0 ==> s[..n + 1] == [s[0]] + s[1..][..n] && s[n] == s[1..][n - 1];
      }
    }
  }

  /** Not a number: no digits, too many, too large a number, or something else behind it. */
  ghost predicate Malformed(p: Shape)
    requires AllDigits(p.digits)
  {
    || p.digits == [] || |p.digits| > 5
    || ValueOf(p.digits) > (if p.sign == ['-'] then 32768 else 32767)
    || Garbage(p.rest)
  }

  /** The decimals in 65536ths, rounded. */
  function Fraction(p: Shape): int
    requires AllDigits(p.decimals)
  {
    Round(ValueOf(p.decimals) * 0x1_0000, Pow10(|p.decimals|))
  }

  // ----- every text has a shape -----

  lemma {:induction false} SpacesAreSpaces(s: seq<char>)
    ensures AllSpaces(s[..Spaces(s)])
  {
    if s != [] && IsSpace(s[0]) {
      SpacesAreSpaces(s[1..]);
      assert s[..Spaces(s)] == [s[0]] + s[1..][..Spaces(s[1..])];
    }
  }

  /** The parts from the digits on. */
  ghost predicate HasNumber(b: seq<char>, p: Shape) {
    && b == FromDigits(p) && AllDigits(p.digits) && IsPoint(p.point)
    && AllDigits(p.decimals) && |p.decimals| <= 5 && Terminated(p.rest)
    && (p.point == [] ==> p.decimals == [] && !IsDigit(p.rest[0]) && p.rest[0] != '.' && p.rest[0] != ',')
    && (p.point != [] && |p.decimals| < 5 ==> !IsDigit(p.rest[0]))
  }

  lemma CutDecimals(d: seq<char>, k: nat)
    requires Terminated(d) && k == Min(Digits(d), 5)
    ensures k <= |d| && AllDigits(d[..k]) && k <= 5 && Terminated(d[k..]) && d == d[..k] + d[k..] && d[k..] != []
    ensures k < 5 ==> !IsDigit(d[k..][0])
  {
    hide Digits, AllDigits, Terminated, IsDigit;
    TakeDecimals(d, k);
    NotEmpty(d[k..]);
  }

  lemma NotEmpty(t: seq<char>)
    requires Terminated(t)
    ensures t != []
  {
  }

  /** Cutting behind the integer part. */
  lemma CutNumber(spaces: seq<char>, sign: seq<char>, b: seq<char>) returns (p: Shape)
    requires Terminated(b)
    ensures HasNumber(b, p) && p.spaces == spaces && p.sign == sign
  {
    hide *;
    var n := Digits(b);
    if b[n] == '.' || b[n] == ',' {
      BehindPoint(b, n);
      var k := Min(Digits(b[n + 1..]), 5);
      CutDecimals(b[n + 1..], k);
      CutAtPoint(b, n, k);
      p := Shape(spaces, sign, b[..n], [b[n]], b[n + 1..][..k], b[n + 1..][k..]);
      IsNumber(b, p);
    } else {
      NoDigits();
      NotEmpty(b[n..]);
      assert b == b[..n] + ([] + ([] + b[n..]));
      p := Shape(spaces, sign, b[..n], [], [], b[n..]);
      IsNumber(b, p);
    }
  }

  lemma IsNumber(b: seq<char>, p: Shape)
    requires b == p.digits + (p.point + (p.decimals + p.rest)) && AllDigits(p.digits) && AllDigits(p.decimals)
    requires (p.point == [] && p.decimals == []) || p.point == ['.'] || p.point == [',']
    requires |p.decimals| <= 5 && Terminated(p.rest) && p.rest != []
    requires p.point == [] ==> !IsDigit(p.rest[0]) && p.rest[0] != '.' && p.rest[0] != ','
    requires p.point != [] && |p.decimals| < 5 ==> !IsDigit(p.rest[0])
    ensures HasNumber(b, p)
  {
    hide AllDigits, Terminated, IsDigit;
  }

  lemma CutAtPoint(b: seq<char>, n: nat, k: nat)
    requires n < |b| && k <= |b| - n - 1
    ensures b == b[..n] + ([b[n]] + (b[n + 1..][..k] + b[n + 1..][k..]))
  {
    assert b[n + 1..] == b[n + 1..][..k] + b[n + 1..][k..];
    assert b[n..] == [b[n]] + b[n + 1..];
    assert b == b[..n] + b[n..];
  }

  lemma NoDigits()
    ensures AllDigits([])
  {
  }

  lemma EveryTextHasShape(s: seq<char>) returns (p: Shape)
    requires Terminated(s)
    ensures HasShape(s, p)
  {
    hide *;
    var n := Spaces(s);
    SpacesAreSpaces(s);
    var sign, b := CutSign(s[n..]);
    assert s == s[..n] + (sign + b);
    p := CutNumber(s[..n], sign, b);
    NumberHasShape(s, p, b);
  }

  lemma CutSign(a: seq<char>) returns (sign: seq<char>, b: seq<char>)
    requires Terminated(a) && !IsSpace(a[0])
    ensures a == sign + b && IsSign(sign) && Terminated(b)
    ensures sign == [] ==> b != [] && !IsSpace(b[0]) && b[0] != '+' && b[0] != '-'
  {
    sign := if a[0] == '+' || a[0] == '-' then [a[0]] else [];
    b := a[|sign|..];
    assert a == sign + b;
  }

  lemma NumberHasShape(s: seq<char>, p: Shape, b: seq<char>)
    requires HasNumber(b, p) && s == p.spaces + (p.sign + b) && AllSpaces(p.spaces) && IsSign(p.sign) && Terminated(b)
    requires p.sign == [] ==> !IsSpace(b[0]) && b[0] != '+' && b[0] != '-'
    ensures HasShape(s, p)
  {
    hide AllSpaces, AllDigits, IsDigit, IsSpace, Terminated;
    if p.digits == [] {
      assert b == FromPoint(p);
    }
  }

  // ----- what the parser makes of it -----

  lemma {:induction false} SpacesAppend(spaces: seq<char>, t: seq<char>)
    requires AllSpaces(spaces) && Terminated(t) && !IsSpace(t[0])
    ensures Spaces(spaces + t) == |spaces| && (spaces + t)[|spaces|..] == t
  {
    if spaces == [] {
      assert spaces + t == t;
    } else {
      SpacesAppend(spaces[1..], t);
      assert (spaces + t)[1..] == spaces[1..] + t;
    }
  }

  lemma FractionIsBelowOne(frac: nat, p: nat)
    requires frac < p <= 100000
    ensures 0 <= Round(frac * 0x1_0000, p) < 0x1_0000
  {
    FractionInRange(frac, p);
    DivIsLess(2 * (frac * 0x1_0000) + p, 0x1_0000, 2 * p);
  }

  /** Behind the digits comes no digit. */
  lemma PointOrEnd(b: seq<char>, p: Shape)
    requires HasNumber(b, p)
    ensures Terminated(p.decimals + p.rest) && Terminated(FromPoint(p)) && !IsDigit(FromPoint(p)[0])
    ensures p.point != [] ==>
      (FromPoint(p)[0] == '.' || FromPoint(p)[0] == ',') && FromPoint(p)[1..] == p.decimals + p.rest
    ensures p.point == [] ==> FromPoint(p)[0] != '.' && FromPoint(p)[0] != ',' && FromPoint(p) == p.rest
  {
    LaterEnd(p.decimals, p.rest);
    LaterEnd(p.point, p.decimals + p.rest);
  }

  lemma DecimalsTaken(b: seq<char>, p: Shape)
    requires HasNumber(b, p) && p.point != []
    ensures var d := p.decimals + p.rest;
      && |p.decimals| == Min(Digits(d), 5) <= |d| && d[..|p.decimals|] == p.decimals && d[|p.decimals|..] == p.rest
  {
    DigitsAppend(p.decimals, p.rest);
    hide AllDigits;
    assert |p.decimals| < 5 ==> Digits(p.rest) == 0;
  }

  lemma NoFraction(value: Fix)
    ensures AllDigits([]) && Round(ValueOf([]) * 0x1_0000, Pow10(0)) == 0 && ToFix(value + 0) == value
  {
    WordAgain(value);
  }

  lemma WordAgain(x: Fix)
    ensures ToFix(x) == x
  {
    if x < 0 {
      WrapNegative(x);
    } else {
      WrapSmall(x);
    }
  }

  lemma NumberParts(b: seq<char>, p: Shape)
    requires HasNumber(b, p)
    ensures b == p.digits + FromPoint(p) && AllDigits(p.digits) && AllDigits(p.decimals) && Terminated(p.rest)
    ensures p.point == [] ==> p.decimals == []
  {
  }

  lemma FractionOfParts(p: Shape)
    requires AllDigits(p.decimals)
    ensures Fraction(p) == Round(ValueOf(p.decimals) * 0x1_0000, Pow10(|p.decimals|))
  {
  }

  /** What becomes of a number of n digits, the rounded sum value of its parts, and what follows it. */
  function Judged(negative: bool, whole: Word, n: nat, value: Fix, rest: seq<char>): Fix
    requires Terminated(rest)
  {
    if n == 0 || n > 5 || whole > (if negative then 32768 else 32767) then OVERFLOW else ParseRest(negative, value, rest)
  }

  lemma NumberWithoutPoint(negative: bool, b: seq<char>, p: Shape)
    requires HasNumber(b, p) && p.point == []
    ensures Terminated(b) && AllDigits(p.digits) && Terminated(p.rest)
    ensures ParseNumber(negative, b) ==
      Judged(negative, WordOf(p.digits), |p.digits|, ToFix(WordOf(p.digits) * 0x1_0000), p.rest)
  {
    hide ParseNumber, ParseDecimals, ParseRest, ToFix, AllDigits, Digits, Terminated, WordOf, IsDigit, FromPoint, HasNumber;
    NumberParts(b, p);
    PointOrEnd(b, p);
    EndOfDigits(p.digits, p.rest);
    NotEmpty(p.rest);
    IsCut(b, p.digits, p.rest);
    ParsedNumber(negative, b, p.digits, p.rest);
    NumberCases(negative, p.digits, p.rest);
  }

  lemma NumberWithPoint(negative: bool, b: seq<char>, p: Shape)
    requires HasNumber(b, p) && p.point != []
    ensures Terminated(b) && AllDigits(p.digits) && AllDigits(p.decimals) && Terminated(p.rest)
    ensures ParseNumber(negative, b) ==
      Judged(negative, WordOf(p.digits), |p.digits|, ToFix(ToFix(WordOf(p.digits) * 0x1_0000) + Fraction(p)), p.rest)
  {
    hide *;
    NumberParts(b, p);
    PointOrEnd(b, p);
    EndOfDigits(p.digits, FromPoint(p));
    NotEmpty(FromPoint(p));
    IsCut(b, p.digits, FromPoint(p));
    ParsedNumber(negative, b, p.digits, FromPoint(p));
    NumberCases(negative, p.digits, FromPoint(p));
    FractionTaken(negative, WordOf(p.digits), b, p);
    JudgedIs(negative, WordOf(p.digits), |p.digits|, ToFix(ToFix(WordOf(p.digits) * 0x1_0000) + Fraction(p)), p.rest);
  }

  lemma FractionTaken(negative: bool, whole: nat, b: seq<char>, p: Shape)
    requires HasNumber(b, p) && p.point != []
    ensures AllDigits(p.decimals) && Terminated(p.rest) && Terminated(p.decimals + p.rest)
    ensures ParseDecimals(negative, whole, p.decimals + p.rest) ==
      ParseRest(negative, ToFix(ToFix(whole * 0x1_0000) + Fraction(p)), p.rest)
  {
    hide *;
    NumberParts(b, p);
    PointOrEnd(b, p);
    DecimalsTaken(b, p);
    FractionOfParts(p);
    ParsedDecimals(negative, whole, p.decimals + p.rest, p.decimals, p.rest);
  }

  lemma JudgedIs(negative: bool, whole: Word, n: nat, value: Fix, rest: seq<char>)
    requires Terminated(rest)
    ensures Judged(negative, whole, n, value, rest) ==
      if n == 0 || n > 5 || whole > 32768 || (!negative && whole > 32767) then OVERFLOW else ParseRest(negative, value, rest)
  {
    hide ParseRest;
  }

  /** Digits, fraction and rest, once they have been told apart. */
  lemma NumberOfShape(negative: bool, b: seq<char>, p: Shape)
    requires HasNumber(b, p)
    ensures Terminated(b) && AllDigits(p.digits) && AllDigits(p.decimals) && Terminated(p.rest)
    ensures ParseNumber(negative, b) ==
      Judged(negative, WordOf(p.digits), |p.digits|, ToFix(ToFix(WordOf(p.digits) * 0x1_0000) + Fraction(p)), p.rest)
  {
    hide *;
    NumberParts(b, p);
    if p.point == [] {
      NumberWithoutPoint(negative, b, p);
      FractionOfParts(p);
      NoFraction(ToFix(WordOf(p.digits) * 0x1_0000));
    } else {
      NumberWithPoint(negative, b, p);
    }
  }

  lemma {:induction false} DigitsBound(d: seq<char>)
    requires AllDigits(d)
    ensures ValueOf(d) < Pow10(|d|)
  {
    if d != [] {
      DigitsBound(d[..|d| - 1]);
    }
  }

  lemma FractionRange(p: Shape)
    requires AllDigits(p.decimals) && |p.decimals| <= 5
    ensures 0 <= Fraction(p) < 0x1_0000
  {
    DigitsBound(p.decimals);
    ScaleRange(|p.decimals|);
    hide ValueOf, Pow10, Round;
    FractionIsBelowOne(ValueOf(p.decimals), Pow10(|p.decimals|));
  }

  /** The sum of integer part and fraction on 32 bits, and its negation. */
  lemma SumOfParts(w: nat, f: nat)
    requires w <= 32768 && f < 0x1_0000
    ensures var value := ToFix(ToFix(w * 0x1_0000) + f);
      && (w <= 32767 ==> value == w * 0x1_0000 + f && Negated(value) == -(w * 0x1_0000 + f))
      && (w == 32768 ==> value == f - T31 && Negated(value) == if f == 0 then OVERFLOW else T31 - f)
  {
    if w <= 32767 {
      SmallFix(w * 0x1_0000);
      SmallFix(w * 0x1_0000 + f);
    } else {
      WrapSmall(T31);
      WrapNegative(f - T31);
      WrapSmall(T31 - f);
    }
  }

  lemma SignOfShape(s: seq<char>, p: Shape)
    requires HasShape(s, p)
    ensures HasNumber(FromDigits(p), p) && Terminated(s) && Terminated(FromDigits(p))
    ensures Parse(s) == ParseNumber(p.sign == ['-'], FromDigits(p))
  {
    hide ParseNumber, AllSpaces, Terminated, AllDigits, FromPoint, Spaces, IsSpace, Clean;
    var b := FromDigits(p);
    PointOrEnd(b, p);
    LaterEnd(p.digits, FromPoint(p));
    LaterEnd(p.sign, b);
    LaterEnd(p.spaces, p.sign + b);
    FirstCharacter(p);
    NotEmpty(b);
    var t := p.sign + b;
    SpacesAppend(p.spaces, t);
    if p.sign == [] {
      assert t == b;
    } else {
      assert t[1..] == b;
    }
  }

  /** What the scan for spaces and sign comes to. */
  lemma FirstCharacter(p: Shape)
    requires HasShape(Whole(p), p) && FromDigits(p) != []
    ensures !IsSpace((p.sign + FromDigits(p))[0])
    ensures p.sign == [] ==> FromDigits(p)[0] != '+' && FromDigits(p)[0] != '-'
  {
    if p.digits == [] {
      assert FromDigits(p) == FromPoint(p);
    } else {
      assert FromDigits(p)[0] == p.digits[0] && IsDigit(p.digits[0]);
    }
  }

  lemma ShapeParts(s: seq<char>, p: Shape)
    requires HasShape(s, p)
    ensures AllDigits(p.digits) && AllDigits(p.decimals) && |p.decimals| <= 5 && Terminated(p.rest)
  {
  }

  /** fix16_from_str gives the overflow value exactly for malformed texts and for -32768; other texts give
      the nearest fixed point number, except that one in front of which a minus and 32768 stand comes out
      positive. */
  lemma ParseMeans(s: seq<char>, p: Shape)
    requires HasShape(s, p)
    ensures Terminated(s) && AllDigits(p.digits) && AllDigits(p.decimals) && Terminated(p.rest)
    ensures Parse(s) == OVERFLOW <==> Malformed(p) || (ValueOf(p.digits) == 32768 && Fraction(p) == 0)
    ensures !Malformed(p) ==>
      var x := ValueOf(p.digits) * 0x1_0000 + Fraction(p);
      if ValueOf(p.digits) == 32768 then Fraction(p) > 0 ==> Parse(s) == T31 - Fraction(p)
      else Parse(s) == if p.sign == ['-'] then -x else x
  {
    hide Parse, ParseNumber, HasNumber, Fraction, Clean, Garbage, FromDigits, ToFix, Terminated, AllDigits, ValueOf, Pow10, WordOf, HasShape, Negated;
    var negative := p.sign == ['-'];
    ShapeParts(s, p);
    CleanIff(p.rest);
    SignOfShape(s, p);
    NumberOfShape(negative, FromDigits(p), p);
    if p.digits != [] && |p.digits| <= 5 {
      DigitsBound(p.digits);
      ScaleRange(|p.digits|);
      SmallWord(p.digits);
      FractionRange(p);
      if ValueOf(p.digits) <= 32768 {
        SumOfParts(ValueOf(p.digits), Fraction(p));
      }
    }
  }

  // ----- printing with any number of decimals -----

  /** The parts of a printed number, and what stands behind it. */
  function PrintedShape(v: Fix, p: nat, end: seq<char>): (shape: Shape)
    requires v != -T31 && p <= 5
  {
    TextInParts(v, p);
    var (whole, frac) := Parts(Abs(v), p);
    if p == 0 then Shape([], Sign(v), Itoa(5, whole, true), [], [], end)
    else Shape([], Sign(v), Itoa(5, whole, true), ['.'], Itoa(p, frac, false), end)
  }

  /** A minus in front of negative numbers, one to five digits without leading zeros, and behind a point
      p decimals, or no point. */
  lemma TextLayout(v: Fix, p: nat, end: seq<char>)
    requires v != -T31 && p <= 5 && Stops(end)
    ensures var shape := PrintedShape(v, p, end);
      && HasShape(Text(v, p) + end, shape)
      && 1 <= |shape.digits| <= 5 && (|shape.digits| > 1 ==> shape.digits[0] != '0') && |shape.decimals| == p
      && shape.sign == (if v < 0 then ['-'] else []) && shape.point == (if p == 0 then [] else ['.'])
    ensures var shape := PrintedShape(v, p, end); var (whole, frac) := Parts(Abs(v), p);
      AllDigits(shape.digits) && AllDigits(shape.decimals) && ValueOf(shape.digits) == whole && ValueOf(shape.decimals) == frac
  {
    var shape := PrintedShape(v, p, end);
    var (whole, frac) := Parts(Abs(v), p);
    hide Itoa, Pow10, Parts, ValueOf, Text, AllDigits, HasShape, Terminated;
    TextInParts(v, p);
    ItoaLength(5, whole, true);
    ItoaIsDecimal(5, whole, true);
    if p == 0 {
      assert frac == 0 by { Pow10Values(); }
      NoDigits();
      PutTogether(Sign(v), Itoa(5, whole, true), [], [], end);
    } else {
      ItoaLength(p, frac, false);
      ItoaIsDecimal(p, frac, false);
      PutTogether(Sign(v), Itoa(5, whole, true), ['.'], Itoa(p, frac, false), end);
    }
  }

  lemma PutTogether(sign: seq<char>, digits: seq<char>, point: seq<char>, decimals: seq<char>, end: seq<char>)
    requires IsSign(sign) && AllDigits(digits) && digits != [] && AllDigits(decimals) && |decimals| <= 5 && Stops(end)
    requires (point == [] && decimals == []) || point == ['.']
    ensures HasShape(sign + (digits + (point + decimals)) + end, Shape([], sign, digits, point, decimals, end))
    ensures point == [] ==> HasShape(sign + (digits + []) + end, Shape([], sign, digits, point, decimals, end))
  {
    hide AllDigits, IsSpace, IsDigit, Terminated;
    EndIsClean(end);
    var p := Shape([], sign, digits, point, decimals, end);
    assert sign + (digits + (point + decimals)) + end == Whole(p);
    assert point == [] ==> sign + (digits + []) + end == Whole(p);
  }

  /** Only the largest numbers are rounded up to 32768, and then there are no decimals left. */
  lemma RoundedUp(u: nat, p: nat)
    requires u < T31 && p <= 5
    ensures var (whole, frac) := Parts(u, p); whole == 32768 ==> frac == 0
  {
    var (whole, frac) := Parts(u, p);
    PartsAreRounded(u, p);
    ScaleRange(p);
    hide Parts, Pow10, Round;
    RoundIsNearest(u * Pow10(p), 0x1_0000, Round(u * Pow10(p), 0x1_0000));
    MulMonotone(u, T31 - 1, Pow10(p));
  }

  /** What is printed with p decimals parses to the fixed point number nearest to the printed one; it
      overflows if that one is 32768. */
  lemma PrintedParses(v: Fix, p: nat, end: seq<char>)
    requires v != -T31 && p <= 5 && Stops(end)
    ensures Terminated(Text(v, p) + end)
    ensures var (whole, frac) := Parts(Abs(v), p);
      var x := Nearest(whole, frac, p);
      Parse(Text(v, p) + end) == if whole == 32768 then OVERFLOW else if v < 0 then -x else x
  {
    hide Parse, Text, Itoa, Pow10, Parts, ValueOf, AllDigits, Terminated, HasShape, Round, Nearest, Garbage, PrintedShape;
    var shape := PrintedShape(v, p, end);
    var (whole, frac) := Parts(Abs(v), p);
    TextLayout(v, p, end);
    ShapeEnd(v, p, end);
    ParseMeans(Text(v, p) + end, shape);
    PartsAreRounded(Abs(v), p);
    RoundedUp(Abs(v), p);
    NearestInParts(whole, frac, p);
    EndIsClean(end);
    CleanIff(end);
    FractionOfNone(p);
  }

  lemma ShapeEnd(v: Fix, p: nat, end: seq<char>)
    requires v != -T31 && p <= 5
    ensures PrintedShape(v, p, end).rest == end
  {
  }

  lemma FractionOfNone(p: nat)
    requires p <= 5
    ensures Pow10(p) > 0 && Round(0 * 0x1_0000, Pow10(p)) == 0
  {
    ScaleRange(p);
    hide *;
    RoundNothing(Pow10(p));
  }

  lemma RoundNothing(d: nat)
    requires d > 0
    ensures Round(0, d) == 0
  {
    DivModUnique(d, 2 * d, 0, d);
  }

  /** So that printing and parsing changes a number by at most half a unit of the last decimal and half a
      unit of the format. */
  lemma PrintingLosesLittle(v: Fix, p: nat, end: seq<char>)
    requires v != -T31 && p <= 5 && Stops(end) && Parts(Abs(v), p).0 <= 32767
    ensures Terminated(Text(v, p) + end)
    ensures 2 * Pow10(p) * Abs(Parse(Text(v, p) + end) - v) <= 0x1_0000 + Pow10(p)
  {
    hide Parse, Text, Pow10, Parts, Terminated, Round;
    var (whole, frac) := Parts(Abs(v), p);
    var d, u := Pow10(p), Abs(v);
    PrintedParses(v, p, end);
    PartsAreRounded(u, p);
    ScaleRange(p);
    var t := whole * d + frac;
    var x := Nearest(whole, frac, p);
    RoundIsNearest(u * d, 0x1_0000, t);
    RoundIsNearest(t * 0x1_0000, d, x);
    Closeness(u, d, t, x);
  }

  lemma Closeness(u: nat, d: nat, t: nat, x: int)
    requires d > 0
    requires 2 * t * 0x1_0000 <= 2 * (u * d) + 0x1_0000 < 2 * t * 0x1_0000 + 2 * 0x1_0000
    requires 2 * x * d <= 2 * (t * 0x1_0000) + d < 2 * x * d + 2 * d
    ensures 2 * d * Abs(x - u) <= 0x1_0000 + d
  {
    assert 2 * d * (x - u) == 2 * x * d - 2 * (u * d);
    assert 2 * d * (u - x) == 2 * (u * d) - 2 * x * d;
  }
}
