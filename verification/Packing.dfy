/** One placement on the skyline, and whole runs of placements with the default heuristic, as
    values.  The linked-list packer in RectPack.dfy is proved to take exactly these steps. */
module Packing {
  import opened Skyline
  import Words

  // ----- splicing a rectangle's top into the skyline -----

  /** The first point from j on that the columns before e do not swallow. */
  function SkipCovered(sky: seq<Point>, j: nat, e: nat): (r: nat)
    requires j < |sky|
    ensures j <= r < |sky|
    ensures r + 1 < |sky| ==> e < sky[r + 1].x
    ensures forall m :: j < m <= r ==> sky[m].x <= e
    decreases |sky| - j
  {
    if j + 1 < |sky| && sky[j + 1].x <= e then SkipCovered(sky, j + 1, e) else j
  }

  /** Dropping the points before j does not change what is swallowed. */
  lemma {:induction false} SkipCoveredDrop(sky: seq<Point>, j: nat, m: nat, e: nat)
    requires j + m < |sky|
    ensures SkipCovered(sky, j + m, e) == j + SkipCovered(sky[j..], m, e)
    decreases |sky| - m
  {
    if j + m + 1 < |sky| && sky[j + m + 1].x <= e {
      SkipCoveredDrop(sky, j, m + 1, e);
    }
  }

  /** Points kept in front of a rectangle placed at x inside segment i. */
  function Kept(sky: seq<Point>, i: nat, x: nat): nat
    requires i < |sky|
  {
    if sky[i].x < x then i + 1 else i
  }

  /** Where the new segment ends: the rectangle's right edge, or the next old point if the
      rectangle stops short of it. */
  function Extent(sky: seq<Point>, i: nat, x: nat, w: nat): nat
    requires i + 1 < |sky|
  {
    var r := SkipCovered(sky, Kept(sky, i, x), x + w);
    if sky[r].x < x + w then x + w else sky[r].x
  }

  function Splice(sky: seq<Point>, i: nat, x: nat, w: nat, top: nat): seq<Point>
    requires i + 1 < |sky|
  {
    var r := SkipCovered(sky, Kept(sky, i, x), x + w);
    sky[..Kept(sky, i, x)] + [Point(x, top), Point(Extent(sky, i, x, w), sky[r].y)] + sky[r + 1..]
  }

  ghost predicate InSegment(sky: seq<Point>, i: nat, x: nat) {
    i + 1 < |sky| && sky[i].x <= x < sky[i + 1].x
  }

  lemma SpliceIsSkyline(sky: seq<Point>, width: nat, i: nat, x: nat, w: nat, top: nat)
    requires IsSkyline(sky, width) && InSegment(sky, i, x) && 0 < w && x + w <= width
    ensures IsSkyline(Splice(sky, i, x, w, top), width)
    ensures x + w <= Extent(sky, i, x, w) <= width
  {
    hide Splice, Extent, SkipCovered;
    var keep, r := Kept(sky, i, x), SkipCovered(sky, Kept(sky, i, x), x + w);
    var t, e := Splice(sky, i, x, w, top), Extent(sky, i, x, w);
    SplicePoints(sky, i, x, w, top);
    ExtentBounds(sky, width, i, x, w);
    SplicedAscends(sky, t, width, keep, r, x, e, top);
  }

  lemma ExtentBounds(sky: seq<Point>, width: nat, i: nat, x: nat, w: nat)
    requires IsSkyline(sky, width) && InSegment(sky, i, x) && 0 < w && x + w <= width
    ensures var r, e := SkipCovered(sky, Kept(sky, i, x), x + w), Extent(sky, i, x, w);
      && x + w <= e <= width && sky[r].x <= e && (r + 1 < |sky| ==> e < sky[r + 1].x) && (r + 1 == |sky| ==> e == width)
  {
    hide SkipCovered;
    var r := SkipCovered(sky, Kept(sky, i, x), x + w);
    assert r + 1 < |sky| ==> sky[r].x < sky[|sky| - 1].x && sky[r].x < sky[r + 1].x;
  }

  lemma SplicedAscends(sky: seq<Point>, t: seq<Point>, width: nat, keep: nat, r: nat, x: nat, e: nat, top: nat)
    requires IsSkyline(sky, width) && keep <= r < |sky| && Spliced(sky, t, keep, r, x, e, top) && x < e
    requires (keep > 0 ==> sky[keep - 1].x < x) && (keep == 0 ==> x == 0)
    requires (r + 1 < |sky| ==> e < sky[r + 1].x) && (r + 1 == |sky| ==> e == width)
    ensures IsSkyline(t, width)
  {
    forall a, b | 0 <= a < b < |t| ensures t[a].x < t[b].x {
      PointBefore(sky, t, keep, r, x, e, top, a);
      PointBehind(sky, t, keep, r, x, e, top, b);
      if b < keep {
        assert t[a] == sky[a] && t[b] == sky[b];
      } else if a > keep + 1 {
        assert t[a] == sky[a - keep - 1 + r] && t[b] == sky[b - keep - 1 + r];
      }
    }
    assert r + 1 < |sky| ==> t[|t| - 1] == sky[|sky| - 1];
    assert keep > 0 ==> t[0] == sky[0];
  }

  /** The points up to the rectangle's own lie left of its end, and those behind it right. */
  lemma PointBefore(sky: seq<Point>, t: seq<Point>, keep: nat, r: nat, x: nat, e: nat, top: nat, a: nat)
    requires Ascending(sky) && keep <= r < |sky| && Spliced(sky, t, keep, r, x, e, top) && x < e
    requires keep > 0 ==> sky[keep - 1].x < x
    ensures a < keep && a < |t| ==> t[a].x < x
    ensures a == keep ==> t[a].x == x
    ensures a == keep + 1 ==> t[a].x == e
  {
    if a < keep {
      assert t[a] == sky[a];
      assert a < keep - 1 ==> sky[a].x < sky[keep - 1].x;
    }
  }

  lemma PointBehind(sky: seq<Point>, t: seq<Point>, keep: nat, r: nat, x: nat, e: nat, top: nat, b: nat)
    requires Ascending(sky) && keep <= r < |sky| && Spliced(sky, t, keep, r, x, e, top)
    requires r + 1 < |sky| ==> e < sky[r + 1].x
    ensures keep + 1 < b < |t| ==> e < t[b].x
  {
    if keep + 1 < b < |t| {
      assert t[b] == sky[b - keep - 1 + r];
      assert r + 1 < b - keep - 1 + r ==> sky[r + 1].x < sky[b - keep - 1 + r].x;
    }
  }

  /** The points of the spliced skyline t: the kept ones, the rectangle's own, the trimmed
      survivor r, and those behind it. */
  ghost predicate Spliced(sky: seq<Point>, t: seq<Point>, keep: nat, r: nat, x: nat, e: nat, top: nat)
    requires keep <= r < |sky|
  {
    && |t| == keep + 1 + |sky| - r
    && (forall m :: 0 <= m < keep ==> t[m] == sky[m])
    && t[keep] == Point(x, top)
    && t[keep + 1] == Point(e, sky[r].y)
    && (forall m :: r < m < |sky| ==> t[m - r + keep + 1] == sky[m])
  }

  lemma SplicePoints(sky: seq<Point>, i: nat, x: nat, w: nat, top: nat)
    requires i + 1 < |sky|
    ensures Spliced(sky, Splice(sky, i, x, w, top), Kept(sky, i, x), SkipCovered(sky, Kept(sky, i, x), x + w),
                    x, Extent(sky, i, x, w), top)
  {
    hide SkipCovered, Extent, Kept;
  }

  /** The columns [x, e) have risen to top; all the others keep their height. */
  ghost predicate Raised(hs: seq<nat>, hs': seq<nat>, x: nat, e: nat, top: nat) {
    && |hs'| == |hs|
    && forall c :: 0 <= c < |hs| ==> hs'[c] == if x <= c < e then top else hs[c]
  }

  lemma HeightBefore(sky: seq<Point>, t: seq<Point>, width: nat, keep: nat, r: nat, x: nat, e: nat, top: nat, c: nat)
    requires IsSkyline(sky, width) && IsSkyline(t, width) && keep <= r < |sky|
    requires Spliced(sky, t, keep, r, x, e, top)
    requires keep > 0 && sky[keep - 1].x < x <= sky[keep].x && c < x <= width
    ensures Profile(t)[c] == Profile(sky)[c]
  {
    var m := Locate(sky, c, 0);
    assert m < keep;
    assert m + 1 < keep ==> t[m + 1] == sky[m + 1];
    ProfileOfSegment(t, m, c);
  }

  lemma HeightBehind(sky: seq<Point>, t: seq<Point>, width: nat, keep: nat, r: nat, x: nat, e: nat, top: nat, c: nat)
    requires IsSkyline(sky, width) && IsSkyline(t, width) && keep <= r < |sky|
    requires Spliced(sky, t, keep, r, x, e, top)
    requires sky[r].x <= e <= c < width
    ensures Profile(t)[c] == Profile(sky)[c]
  {
    hide Locate, Profile;
    var m := Locate(sky, c, 0);
    ProfileOfSegment(sky, m, c);
    assert m >= r;
    var n := m - r + keep + 1;
    assert t[n + 1] == sky[m + 1];
    if m > r {
      assert t[n] == sky[m];
    }
    ProfileOfSegment(t, n, c);
  }

  lemma SplicedRaises(sky: seq<Point>, t: seq<Point>, width: nat, keep: nat, r: nat, x: nat, e: nat, top: nat)
    requires IsSkyline(sky, width) && IsSkyline(t, width) && keep <= r < |sky|
    requires Spliced(sky, t, keep, r, x, e, top)
    requires (keep > 0 ==> sky[keep - 1].x < x) && (keep == 0 ==> x == 0) && x <= sky[keep].x && sky[r].x <= e
    ensures Raised(Profile(sky), Profile(t), x, e, top)
  {
    forall c | 0 <= c < width ensures Profile(t)[c] == if x <= c < e then top else Profile(sky)[c] {
      if c < x {
        HeightBefore(sky, t, width, keep, r, x, e, top, c);
      } else if e <= c {
        HeightBehind(sky, t, width, keep, r, x, e, top, c);
      } else {
        ProfileOfSegment(t, keep, c);
      }
    }
  }

  /** The columns under the rectangle rise to its top (up to the new segment's end); all the
      others keep their height. */
  lemma SpliceRaises(sky: seq<Point>, width: nat, i: nat, x: nat, w: nat, top: nat)
    requires IsSkyline(sky, width) && InSegment(sky, i, x) && 0 < w && x + w <= width
    ensures IsSkyline(Splice(sky, i, x, w, top), width)
    ensures Raised(Profile(sky), Profile(Splice(sky, i, x, w, top)), x, Extent(sky, i, x, w), top)
  {
    SpliceIsSkyline(sky, width, i, x, w, top);
    SplicePoints(sky, i, x, w, top);
    var keep := Kept(sky, i, x);
    SplicedRaises(sky, Splice(sky, i, x, w, top), width, keep, SkipCovered(sky, keep, x + w), x,
                  Extent(sky, i, x, w), top);
  }

  lemma SpliceSize(sky: seq<Point>, i: nat, x: nat, w: nat, top: nat)
    requires i + 1 < |sky|
    ensures |Splice(sky, i, x, w, top)| <= |sky| + 1
  {
  }

  /** Placing at the start of the ground, or on raised ground, keeps the ground last. */
  lemma SpliceKeepsGround(sky: seq<Point>, i: nat, x: nat, w: nat, top: nat)
    requires GroundLast(sky) && i + 1 < |sky| && top > 0 && (sky[i].y == 0 ==> x == sky[i].x)
    ensures GroundLast(Splice(sky, i, x, w, top))
  {
    hide SkipCovered, Splice, Extent;
    SplicePoints(sky, i, x, w, top);
    var keep, t := Kept(sky, i, x), Splice(sky, i, x, w, top);
    var r := SkipCovered(sky, keep, x + w);
    forall a | 0 <= a < |t| - 2 ensures t[a].y > 0 {
      if a < keep {
        assert t[a] == sky[a];
      } else if a > keep + 1 {
        assert t[a] == sky[a - keep - 1 + r];
      }
    }
  }

  // ----- non-overlap -----

  datatype Box = Box(x: nat, y: nat, w: nat, h: nat)

  ghost predicate Inside(b: Box, width: nat, height: nat) {
    0 < b.w && 0 < b.h && b.x + b.w <= width && b.y + b.h <= height
  }

  ghost predicate Disjoint(a: Box, b: Box) {
    a.x + a.w <= b.x || b.x + b.w <= a.x || a.y + a.h <= b.y || b.y + b.h <= a.y
  }

  /** Column c of the box stands below the skyline. */
  ghost predicate Roofed(b: Box, hs: seq<nat>) {
    forall c :: b.x <= c < b.x + b.w && c < |hs| ==> b.y + b.h <= hs[c]
  }

  /** Every placed box is inside the target and below the skyline in each of its columns, and no
      two of them overlap. */
  ghost predicate Covers(hs: seq<nat>, height: nat, placed: seq<Box>) {
    && (forall k :: 0 <= k < |placed| ==> Inside(placed[k], |hs|, height))
    && (forall k :: 0 <= k < |placed| ==> Roofed(placed[k], hs))
    && (forall j, k :: 0 <= j < k < |placed| ==> Disjoint(placed[j], placed[k]))
  }

  /** Resting a box on the peak of a window at least as wide as the new segment keeps Covers. */
  lemma PlacementCovers(hs: seq<nat>, hs': seq<nat>, height: nat, placed: seq<Box>, b: Box, e: nat, aligned: nat)
    requires Covers(hs, height, placed) && Raised(hs, hs', b.x, e, b.y + b.h)
    requires 0 < b.w && 0 < b.h && b.x + b.w <= e <= b.x + aligned <= |hs|
    requires b.y == Peak(hs, b.x, aligned) && b.y + b.h <= height
    ensures Covers(hs', height, placed + [b])
  {
    PeakIsHighest(hs, b.x, aligned);
    hide Peak, Disjoint, Roofed;
    RaisedIsHigher(hs, hs', b.x, e, b.y + b.h);
    forall k | 0 <= k < |placed| ensures Roofed(placed[k], hs') && Disjoint(placed[k], b) {
      assert Roofed(placed[k], hs) && Inside(placed[k], |hs|, height);
      StaysRoofed(hs, hs', placed[k]);
      RestsAbove(hs, placed[k], b);
    }
    NewIsRoofed(hs, hs', b, e);
    assert Inside(b, |hs'|, height);
    CoversOneMore(hs', height, placed, b);
  }

  lemma RaisedIsHigher(hs: seq<nat>, hs': seq<nat>, x: nat, e: nat, top: nat)
    requires Raised(hs, hs', x, e, top) && e <= |hs| && forall c :: x <= c < e ==> hs[c] <= top
    ensures |hs'| == |hs| && forall c :: 0 <= c < |hs| ==> hs[c] <= hs'[c]
  {
  }

  lemma StaysRoofed(hs: seq<nat>, hs': seq<nat>, a: Box)
    requires Roofed(a, hs) && |hs'| == |hs| && forall c :: 0 <= c < |hs| ==> hs[c] <= hs'[c]
    ensures Roofed(a, hs')
  {
  }

  /** A box that rests above all columns it covers is clear of one under the skyline. */
  lemma RestsAbove(hs: seq<nat>, a: Box, b: Box)
    requires Roofed(a, hs) && 0 < a.w && 0 < b.w && b.x + b.w <= |hs|
    requires forall c :: b.x <= c < b.x + b.w ==> hs[c] <= b.y
    ensures Disjoint(a, b)
  {
    var c := if a.x < b.x then b.x else a.x;
    if c < a.x + a.w && c < b.x + b.w {
      assert a.y + a.h <= hs[c] <= b.y;
    }
  }

  lemma NewIsRoofed(hs: seq<nat>, hs': seq<nat>, b: Box, e: nat)
    requires Raised(hs, hs', b.x, e, b.y + b.h) && b.x + b.w <= e <= |hs|
    ensures Roofed(b, hs')
  {
  }

  lemma CoversOneMore(hs: seq<nat>, height: nat, placed: seq<Box>, b: Box)
    requires Inside(b, |hs|, height) && Roofed(b, hs)
    requires forall k :: 0 <= k < |placed| ==> Inside(placed[k], |hs|, height) && Roofed(placed[k], hs) && Disjoint(placed[k], b)
    requires forall j, k :: 0 <= j < k < |placed| ==> Disjoint(placed[j], placed[k])
    ensures Covers(hs, height, placed + [b])
  {
    hide Inside, Roofed, Disjoint;
  }

  // ----- the default heuristic: lowest, then leftmost -----

  /** Width rounded up to the target's alignment. */
  function Aligned(w: nat, align: nat): nat
    requires align > 0
  {
    (w + align - 1) - (w + align - 1) % align
  }

  lemma AlignedBounds(w: nat, align: nat)
    requires align > 0
    ensures w <= Aligned(w, align) < w + align
  {
  }

  /** It is the least multiple of the alignment that is wide enough. */
  lemma AlignedIsLeast(w: nat, align: nat, k: nat)
    requires align > 0
    ensures Aligned(w, align) % align == 0 && w <= Aligned(w, align)
    ensures k * align >= w ==> Aligned(w, align) <= k * align
  {
    var n := w + align - 1;
    var q := n / align;
    MultipleParts(n, align, q, n % align);
    if w <= k * align < Aligned(w, align) {
      NoMultipleBetween(k, q, align);
    }
  }

  lemma MultipleParts(n: nat, align: nat, q: nat, r: nat)
    requires align > 0 && q == n / align && r == n % align
    ensures n - r == q * align && (n - r) % align == 0
  {
    Words.DivMod(n, align);
    Words.DivModUnique(n - r, align, q, 0);
  }

  lemma NoMultipleBetween(k: nat, q: nat, align: nat)
    requires k * align < q * align
    ensures k * align + align <= q * align
  {
    DifferenceTimes(q, k, align);
    FactorIsPositive(q - k, align);
    Words.MulMonotone(1, q - k, align);
  }

  lemma DifferenceTimes(a: int, b: int, d: int)
    ensures (a - b) * d == a * d - b * d
  {
  }

  lemma FactorIsPositive(x: int, d: nat)
    requires x * d > 0
    ensures x > 0
  {
  }

  /** The peak of the window that starts on point k. */
  ghost function PeakAt(sky: seq<Point>, hs: seq<nat>, aw: nat, k: nat): nat
    requires 0 < aw && k < |sky| && sky[k].x + aw <= |hs|
  {
    Peak(hs, sky[k].x, aw)
  }

  /** One candidate against the best so far; -1 stands for "nothing yet". */
  ghost function Better(sky: seq<Point>, hs: seq<nat>, aw: nat, k: nat, best: int): (r: int)
    requires 0 < aw && k < |sky| && sky[k].x + aw <= |hs|
    requires -1 <= best < k && (best >= 0 ==> sky[best].x + aw <= |hs|)
    ensures r == k || r == best
  {
    if best < 0 || PeakAt(sky, hs, aw, k) < PeakAt(sky, hs, aw, best) then k else best
  }

  /** The search over points k, k+1, ... as stbrp__skyline_find_best_pos makes it. */
  ghost function LowestFrom(sky: seq<Point>, hs: seq<nat>, aw: nat, k: nat, best: int): (r: int)
    requires 0 < aw && k <= |sky|
    requires -1 <= best < k && (best >= 0 ==> sky[best].x + aw <= |hs|)
    ensures -1 <= r < |sky| && (r >= 0 ==> sky[r].x + aw <= |hs|)
    decreases |sky| - k
  {
    if k < |sky| && sky[k].x + aw <= |hs| then
      LowestFrom(sky, hs, aw, k + 1, Better(sky, hs, aw, k, best))
    else best
  }

  ghost function Lowest(sky: seq<Point>, hs: seq<nat>, aw: nat): (r: int)
    requires 0 < aw
    ensures -1 <= r < |sky| && (r >= 0 ==> sky[r].x + aw <= |hs|)
  {
    LowestFrom(sky, hs, aw, 0, -1)
  }

  /** The running best of the search loop after points 0 .. k-1, with its peak. */
  ghost predicate LowestSoFar(sky: seq<Point>, hs: seq<nat>, aw: nat, k: nat, at: int, bestY: nat) {
    && 0 < aw && k <= |sky| && -1 <= at < k
    && (at >= 0 ==> sky[at].x + aw <= |hs|)
    && LowestFrom(sky, hs, aw, k, at) == Lowest(sky, hs, aw)
    && bestY == if at < 0 then 0x4000_0000 else PeakAt(sky, hs, aw, at)
  }

  lemma LowestSoFarStep(sky: seq<Point>, hs: seq<nat>, aw: nat, k: nat, at: int, bestY: nat)
    requires LowestSoFar(sky, hs, aw, k, at, bestY) && k < |sky| && sky[k].x + aw <= |hs|
    ensures var y := PeakAt(sky, hs, aw, k);
      y < 0x4000_0000 ==>
      if y < bestY then LowestSoFar(sky, hs, aw, k + 1, k, y) else LowestSoFar(sky, hs, aw, k + 1, at, bestY)
  {
  }

  lemma LowestSoFarEnds(sky: seq<Point>, hs: seq<nat>, aw: nat, k: nat, at: int, bestY: nat)
    requires LowestSoFar(sky, hs, aw, k, at, bestY) && (k == |sky| || |hs| < sky[k].x + aw)
    ensures at == Lowest(sky, hs, aw) && (at >= 0 ==> bestY == PeakAt(sky, hs, aw, at))
  {
  }

  /** best is the first of the lowest among the points before k. */
  ghost predicate FirstLowest(sky: seq<Point>, hs: seq<nat>, aw: nat, k: nat, best: nat)
    requires 0 < aw && best < k <= |sky| && sky[best].x + aw <= |hs|
  {
    forall j :: 0 <= j < k && sky[j].x + aw <= |hs| ==>
      && PeakAt(sky, hs, aw, best) <= PeakAt(sky, hs, aw, j)
      && (j < best ==> PeakAt(sky, hs, aw, best) < PeakAt(sky, hs, aw, j))
  }

  lemma {:induction false} LowestFromIsFirst(sky: seq<Point>, hs: seq<nat>, aw: nat, k: nat, best: int)
    requires Ascending(sky) && 0 < aw && k <= |sky|
    requires -1 <= best < k && (best >= 0 ==> sky[best].x + aw <= |hs|)
    requires best == -1 ==> k == 0
    requires best >= 0 ==> FirstLowest(sky, hs, aw, k, best)
    ensures var r := LowestFrom(sky, hs, aw, k, best);
      && (r == -1 ==> k == 0 && (|sky| > 0 ==> |hs| < sky[0].x + aw))
      && (r >= 0 ==> FirstLowest(sky, hs, aw, |sky|, r))
    decreases |sky| - k
  {
    hide PeakAt;
    if k < |sky| && sky[k].x + aw <= |hs| {
      LowestFromIsFirst(sky, hs, aw, k + 1, Better(sky, hs, aw, k, best));
    }
  }

  /** (x, y) is the lowest position for a window of width aw, and the leftmost of the lowest,
      over every column of the target and not only over the skyline's points. */
  ghost predicate BottomLeft(hs: seq<nat>, aw: nat, x: nat, y: nat)
    requires 0 < aw
  {
    && x + aw <= |hs|
    && y == Peak(hs, x, aw)
    && forall x': nat {:trigger Peak(hs, x', aw)} | x' + aw <= |hs| ::
         y <= Peak(hs, x', aw) && (x' < x ==> y < Peak(hs, x', aw))
  }

  /** hs gives the column heights of sky. */
  ghost predicate Depicts(sky: seq<Point>, hs: seq<nat>) {
    forall i: nat, c: nat :: InSegment(sky, i, c) && c < |hs| ==> hs[c] == sky[i].y
  }

  lemma ProfileDepicts(sky: seq<Point>, width: nat)
    requires IsSkyline(sky, width)
    ensures Depicts(sky, Profile(sky))
  {
    forall i: nat, c: nat | InSegment(sky, i, c) && c < |Profile(sky)| ensures Profile(sky)[c] == sky[i].y {
      ProfileOfSegment(sky, i, c);
    }
  }

  /** Sliding a window left to the start of its segment never raises its peak. */
  lemma SlideLeft(sky: seq<Point>, hs: seq<nat>, i: nat, x: nat, aw: nat)
    requires Depicts(sky, hs) && InSegment(sky, i, x) && 0 < aw && x + aw <= |hs|
    ensures Peak(hs, sky[i].x, aw) <= Peak(hs, x, aw)
  {
    PeakIsHighest(hs, x, aw);
    forall c | sky[i].x <= c < sky[i].x + aw ensures hs[c] <= Peak(hs, x, aw) {
      if c <= x {
        assert InSegment(sky, i, c);
      }
    }
    PeakIsLeast(hs, sky[i].x, aw, Peak(hs, x, aw));
  }

  lemma NoWindowIsLower(sky: seq<Point>, hs: seq<nat>, aw: nat, r: nat, i: nat, x': nat)
    requires Ascending(sky) && Depicts(sky, hs) && 0 < aw && InSegment(sky, i, x') && x' + aw <= |hs|
    requires r < |sky| && sky[r].x + aw <= |hs| && FirstLowest(sky, hs, aw, |sky|, r)
    ensures PeakAt(sky, hs, aw, r) <= Peak(hs, x', aw)
    ensures x' < sky[r].x ==> PeakAt(sky, hs, aw, r) < Peak(hs, x', aw)
  {
    hide Peak, Depicts;
    SlideLeft(sky, hs, i, x', aw);
    assert PeakAt(sky, hs, aw, r) <= PeakAt(sky, hs, aw, i) <= Peak(hs, x', aw);
    if i >= r {
      assert sky[r].x <= sky[i].x;
    }
  }

  /** The point chosen by the search is the bottom-left position; there is none exactly when the
      window is wider than the target. */
  lemma LowestIsBottomLeft(sky: seq<Point>, hs: seq<nat>, width: nat, aw: nat)
    requires IsSkyline(sky, width) && 0 < aw && |hs| == width && Depicts(sky, hs)
    ensures var r := Lowest(sky, hs, aw);
      && (r == -1 <==> width < aw)
      && (r >= 0 ==> r < |sky| - 1 && BottomLeft(hs, aw, sky[r].x, PeakAt(sky, hs, aw, r)))
  {
    LowestFromIsFirst(sky, hs, aw, 0, -1);
    var r := Lowest(sky, hs, aw);
    if r >= 0 {
      forall x': nat | x' + aw <= width
        ensures PeakAt(sky, hs, aw, r) <= Peak(hs, x', aw)
        ensures x' < sky[r].x ==> PeakAt(sky, hs, aw, r) < Peak(hs, x', aw)
      {
        NoWindowIsLower(sky, hs, aw, r, Locate(sky, x', 0), x');
      }
    }
  }

  /** A rectangle placed on a point raises exactly its own columns. */
  lemma ExtentAtPoint(sky: seq<Point>, width: nat, i: nat, w: nat)
    requires IsSkyline(sky, width) && i + 1 < |sky| && 0 < w
    ensures InSegment(sky, i, sky[i].x)
    ensures Extent(sky, i, sky[i].x, w) == sky[i].x + w
  {
  }

  // ----- the best-fit heuristic: lowest, then least waste, then leftmost -----

  datatype Candidate = Candidate(x: nat, y: nat, waste: int)

  /** What the window scan reports for a window at x, which lies in segment i. */
  function CandidateAt(sky: seq<Point>, i: nat, x: nat, aw: nat): Candidate {
    var s := ScanFrom(sky, i, x, aw, FreshScan);
    Candidate(x, s.minY, s.waste)
  }

  ghost predicate NotWorse(a: Candidate, b: Candidate) {
    || a.y < b.y
    || (a.y == b.y && (a.waste < b.waste || (a.waste == b.waste && a.x <= b.x)))
  }

  /** The window may start on point k. */
  ghost predicate LeftFits(sky: seq<Point>, aw: nat, h: nat, width: nat, height: nat, k: nat) {
    k + 1 < |sky| && sky[k].x + aw <= width && CandidateAt(sky, k, sky[k].x, aw).y + h <= height
  }

  /** The window may end on point t, starting inside segment i. */
  ghost predicate RightFits(sky: seq<Point>, aw: nat, h: nat, height: nat, i: nat, t: nat) {
    && t < |sky| && aw <= sky[t].x && InSegment(sky, i, sky[t].x - aw)
    && CandidateAt(sky, i, sky[t].x - aw, aw).y + h < height
  }

  ghost predicate BeatsLeft(sky: seq<Point>, aw: nat, h: nat, width: nat, height: nat, c: Candidate, k: nat) {
    forall j: nat :: j < k && LeftFits(sky, aw, h, width, height, j) ==>
      NotWorse(c, CandidateAt(sky, j, sky[j].x, aw))
  }

  ghost predicate BeatsRight(sky: seq<Point>, aw: nat, h: nat, height: nat, c: Candidate, t: nat) {
    forall i: nat, u: nat :: u < t && RightFits(sky, aw, h, height, i, u) ==>
      NotWorse(c, CandidateAt(sky, i, sky[u].x - aw, aw))
  }

  /** The running best of the first search loop after points 0 .. k-1; -1 stands for "nothing yet". */
  ghost predicate BestLeft(sky: seq<Point>, aw: nat, h: nat, width: nat, height: nat, k: nat, at: int, best: Candidate) {
    if at < 0 then
      && at == -1 && best == Candidate(0, 0x4000_0000, 0x4000_0000)
      && forall j: nat :: j < k ==> !LeftFits(sky, aw, h, width, height, j)
    else
      && LeftFits(sky, aw, h, width, height, at)
      && best == CandidateAt(sky, at, sky[at].x, aw)
      && BeatsLeft(sky, aw, h, width, height, best, k)
  }

  /** Whether the first loop takes a window that fits over the best so far. */
  function TakesLeft(best: Candidate, c: Candidate): bool {
    c.y < best.y || (c.y == best.y && c.waste < best.waste)
  }

  lemma BestLeftStep(sky: seq<Point>, aw: nat, h: nat, width: nat, height: nat, k: nat, at: int, best: Candidate)
    requires Ascending(sky) && k + 1 < |sky| && sky[k].x + aw <= width && at < k
    requires BestLeft(sky, aw, h, width, height, k, at, best)
    ensures var c := CandidateAt(sky, k, sky[k].x, aw);
      c.y < 0x4000_0000 ==>
      if c.y + h <= height && TakesLeft(best, c) then BestLeft(sky, aw, h, width, height, k + 1, k, c)
      else BestLeft(sky, aw, h, width, height, k + 1, at, best)
  {
    hide ScanFrom;
    assert at >= 0 ==> sky[at].x < sky[k].x;
  }

  /** Points past the first one that is too far right cannot start a window either. */
  lemma BestLeftEnds(sky: seq<Point>, aw: nat, h: nat, width: nat, height: nat, k: nat, at: int, best: Candidate)
    requires Ascending(sky) && k < |sky| && width < sky[k].x + aw
    requires BestLeft(sky, aw, h, width, height, k, at, best)
    ensures BestLeft(sky, aw, h, width, height, |sky|, at, best)
  {
    forall j: nat | k <= j < |sky| ensures !LeftFits(sky, aw, h, width, height, j) {
      assert k < j ==> sky[k].x < sky[j].x;
    }
  }

  /** The running best of the first loop under either heuristic. */
  ghost predicate SearchSoFar(bottomLeft: bool, sky: seq<Point>, hs: seq<nat>, aw: nat, h: nat, width: nat, height: nat,
                              k: nat, at: int, best: Candidate) {
    if bottomLeft then LowestSoFar(sky, hs, aw, k, at, best.y)
    else BestLeft(sky, aw, h, width, height, k, at, best)
  }

  predicate Takes(bottomLeft: bool, h: nat, height: nat, best: Candidate, c: Candidate) {
    if bottomLeft then c.y < best.y else c.y + h <= height && TakesLeft(best, c)
  }

  lemma SearchStarts(bottomLeft: bool, sky: seq<Point>, hs: seq<nat>, aw: nat, h: nat, width: nat, height: nat)
    requires 0 < aw
    ensures SearchSoFar(bottomLeft, sky, hs, aw, h, width, height, 0, -1, Candidate(0, 0x4000_0000, 0x4000_0000))
  {
  }

  lemma SearchStep(bottomLeft: bool, sky: seq<Point>, hs: seq<nat>, aw: nat, h: nat, width: nat, height: nat,
                   k: nat, at: int, best: Candidate, c: Candidate)
    requires Ascending(sky) && k + 1 < |sky| && 0 < aw && sky[k].x + aw <= width == |hs| && at < k
    requires SearchSoFar(bottomLeft, sky, hs, aw, h, width, height, k, at, best)
    requires c == CandidateAt(sky, k, sky[k].x, aw) && c.y == PeakAt(sky, hs, aw, k) && c.y < 0x4000_0000
    ensures if Takes(bottomLeft, h, height, best, c)
            then SearchSoFar(bottomLeft, sky, hs, aw, h, width, height, k + 1, k, c)
            else SearchSoFar(bottomLeft, sky, hs, aw, h, width, height, k + 1, at, best)
  {
    hide ScanFrom, BestLeft, LowestSoFar, PeakAt;
    if bottomLeft {
      LowestSoFarStep(sky, hs, aw, k, at, best.y);
    } else {
      BestLeftStep(sky, aw, h, width, height, k, at, best);
    }
  }

  lemma SearchEnds(bottomLeft: bool, sky: seq<Point>, hs: seq<nat>, aw: nat, h: nat, width: nat, height: nat,
                   k: nat, at: int, best: Candidate)
    requires Ascending(sky) && k < |sky| && 0 < aw && |hs| == width < sky[k].x + aw
    requires SearchSoFar(bottomLeft, sky, hs, aw, h, width, height, k, at, best)
    ensures bottomLeft ==> at == Lowest(sky, hs, aw) && (at >= 0 ==> best.y == PeakAt(sky, hs, aw, at))
    ensures !bottomLeft ==> BestLeft(sky, aw, h, width, height, |sky|, at, best)
  {
    hide ScanFrom, BestLeft, LowestSoFar, PeakAt;
    if bottomLeft {
      LowestSoFarEnds(sky, hs, aw, k, at, best.y);
    } else {
      BestLeftEnds(sky, aw, h, width, height, k, at, best);
    }
  }

  /** The running best of the second search loop after windows ending on points 0 .. t-1. */
  ghost predicate BestRight(sky: seq<Point>, aw: nat, h: nat, width: nat, height: nat, t: nat, at: int, best: Candidate) {
    if at < 0 then
      && at == -1 && best == Candidate(0, 0x4000_0000, 0x4000_0000)
      && (forall j: nat :: !LeftFits(sky, aw, h, width, height, j))
      && (forall i: nat, u: nat :: u < t ==> !RightFits(sky, aw, h, height, i, u))
    else
      && InSegment(sky, at, best.x)
      && ((LeftFits(sky, aw, h, width, height, at) && best.x == sky[at].x)
          || exists u: nat :: RightFits(sky, aw, h, height, at, u) && best.x == sky[u].x - aw)
      && best == CandidateAt(sky, at, best.x, aw)
      && BeatsLeft(sky, aw, h, width, height, best, |sky|)
      && BeatsRight(sky, aw, h, height, best, t)
  }

  /** Whether the second loop takes a window that fits over the best so far. */
  function TakesRight(best: Candidate, c: Candidate): bool {
    c.y <= best.y && (c.y < best.y || c.waste < best.waste || (c.waste == best.waste && c.x < best.x))
  }

  lemma BestRightStart(sky: seq<Point>, aw: nat, h: nat, width: nat, height: nat, t: nat, at: int, best: Candidate)
    requires Ascending(sky) && t <= |sky| && forall u :: 0 <= u < t ==> sky[u].x < aw
    requires BestLeft(sky, aw, h, width, height, |sky|, at, best)
    ensures BestRight(sky, aw, h, width, height, t, at, best)
  {
  }

  lemma SegmentIsUnique(sky: seq<Point>, i: nat, k: nat, x: nat)
    requires Ascending(sky) && InSegment(sky, i, x) && InSegment(sky, k, x)
    ensures i == k
  {
  }

  lemma OneWindowEndsOn(sky: seq<Point>, aw: nat, h: nat, height: nat, t: nat, k: nat, i: nat)
    requires Ascending(sky) && RightFits(sky, aw, h, height, i, t) && InSegment(sky, k, sky[t].x - aw)
    ensures i == k
  {
    SegmentIsUnique(sky, i, k, sky[t].x - aw);
  }

  lemma BeatsRightStep(sky: seq<Point>, aw: nat, h: nat, height: nat, c: Candidate, d: Candidate, t: nat, k: nat)
    requires Ascending(sky) && t < |sky| && aw <= sky[t].x && InSegment(sky, k, sky[t].x - aw)
    requires BeatsRight(sky, aw, h, height, c, t) && NotWorse(d, c)
    requires CandidateAt(sky, k, sky[t].x - aw, aw).y + h < height ==> NotWorse(d, CandidateAt(sky, k, sky[t].x - aw, aw))
    ensures BeatsRight(sky, aw, h, height, d, t + 1)
  {
    hide ScanFrom;
    forall i: nat, u: nat | u < t + 1 && RightFits(sky, aw, h, height, i, u)
      ensures NotWorse(d, CandidateAt(sky, i, sky[u].x - aw, aw))
    {
      if u == t {
        OneWindowEndsOn(sky, aw, h, height, t, k, i);
      } else {
        assert NotWorse(c, CandidateAt(sky, i, sky[u].x - aw, aw));
      }
    }
  }

  lemma BestRightStep(sky: seq<Point>, aw: nat, h: nat, width: nat, height: nat, t: nat, k: nat, at: int, best: Candidate)
    requires Ascending(sky) && t < |sky| && aw <= sky[t].x && InSegment(sky, k, sky[t].x - aw)
    requires BestRight(sky, aw, h, width, height, t, at, best)
    requires CandidateAt(sky, k, sky[t].x - aw, aw).y < 0x4000_0000
    ensures var c := CandidateAt(sky, k, sky[t].x - aw, aw);
      if c.y + h < height && TakesRight(best, c) then BestRight(sky, aw, h, width, height, t + 1, k, c)
      else BestRight(sky, aw, h, width, height, t + 1, at, best)
  {
    hide ScanFrom;
    var c := CandidateAt(sky, k, sky[t].x - aw, aw);
    if at < 0 {
      forall i: nat | RightFits(sky, aw, h, height, i, t) ensures i == k {
        OneWindowEndsOn(sky, aw, h, height, t, k, i);
      }
      assert c.y + h < height ==> RightFits(sky, aw, h, height, k, t);
    } else if c.y + h < height && TakesRight(best, c) {
      assert RightFits(sky, aw, h, height, k, t);
      BeatsRightStep(sky, aw, h, height, best, c, t, k);
    } else {
      BeatsRightStep(sky, aw, h, height, best, best, t, k);
    }
  }

  /** Segment at and position x are the best of all windows that start or end on a point and fit. */
  ghost predicate IsBestFit(sky: seq<Point>, aw: nat, h: nat, width: nat, height: nat, at: int, best: Candidate) {
    BestRight(sky, aw, h, width, height, |sky|, at, best)
  }

  /** Best fit also finds a lowest position, over all columns, and fails only when there is no room. */
  lemma BestFitIsLowest(sky: seq<Point>, width: nat, height: nat, aw: nat, h: nat, at: int,
                        best: Candidate, x': nat)
    requires IsSkyline(sky, width) && 0 < aw && x' + aw <= width
    requires IsBestFit(sky, aw, h, width, height, at, best)
    requires Peak(Profile(sky), x', aw) + h <= height
    ensures at >= 0 && best.y <= Peak(Profile(sky), x', aw)
  {
    var i := Locate(sky, x', 0);
    ProfileDepicts(sky, width);
    SlideLeft(sky, Profile(sky), i, x', aw);
    assert sky[i].x < sky[i + 1].x;
    ScanFindsPeak(sky, i, sky[i].x, aw);
    assert LeftFits(sky, aw, h, width, height, i);
  }

  /** On the ground the left-aligned window wastes nothing, so no other one there beats it. */
  lemma GroundIsTakenFirst(sky: seq<Point>, width: nat, aw: nat, h: nat, height: nat, at: nat, best: Candidate)
    requires IsSkyline(sky, width) && GroundLast(sky) && 0 < aw
    requires IsBestFit(sky, aw, h, width, height, at, best) && sky[at].y == 0
    requires best.x + aw <= width && best.y + h <= height
    ensures best.x == sky[at].x
  {
    hide ScanFrom, Profile;
    ScanOfGround(sky, at, best.x, aw);
    ScanOfGround(sky, at, sky[at].x, aw);
    assert LeftFits(sky, aw, h, width, height, at);
  }

  /** Best fit is what its name says: of all windows that start or end on a point and fit, the one
      chosen is lowest, and of the lowest it wastes the least area under it. */
  lemma BestFitWastesLeast(sky: seq<Point>, width: nat, height: nat, aw: nat, h: nat, at: nat,
                           best: Candidate, i: nat, x': nat)
    requires IsSkyline(sky, width) && GroundLast(sky) && 0 < aw && InSegment(sky, i, x') && x' + aw <= width
    requires IsBestFit(sky, aw, h, width, height, at, best) && best.x + aw <= width
    requires var y' := Peak(Profile(sky), x', aw);
      || (x' == sky[i].x && y' + h <= height)
      || (y' + h < height && exists t :: 0 <= t < |sky| && sky[t].x == x' + aw)
    ensures var y' := Peak(Profile(sky), x', aw);
      && best.y == Peak(Profile(sky), best.x, aw) <= y'
      && (best.y == y' ==>
            Gap(Profile(sky), best.x, best.x + aw, y') <= Gap(Profile(sky), x', x' + aw, y'))
  {
    hide ScanFrom, Profile, Gap, Peak;
    ProfileLength(sky);
    ScanFindsPeak(sky, at, best.x, aw);
    ScanFindsPeak(sky, i, x', aw);
    if x' == sky[i].x && Peak(Profile(sky), x', aw) + h <= height {
      assert LeftFits(sky, aw, h, width, height, i);
    } else {
      var t :| 0 <= t < |sky| && sky[t].x == x' + aw;
      assert RightFits(sky, aw, h, height, i, t);
    }
  }

  // ----- runs -----

  datatype Target = Target(width: nat, height: nat, nodes: nat, align: nat)

  /** Free counts the nodes of the free list. */
  datatype State = State(sky: seq<Point>, free: nat, placed: seq<Box>)

  ghost predicate GoodTarget(t: Target) {
    1 <= t.width <= 0xffff && t.height <= 0xffff && t.nodes >= 1 && t.align >= 1
  }

  ghost predicate GoodState(t: Target, s: State) {
    && IsSkyline(s.sky, t.width)
    && GroundLast(s.sky)
    && Covers(Profile(s.sky), t.height, s.placed)
    && |s.sky| + s.free == t.nodes + 2
  }

  function Start(t: Target): State {
    State([Point(0, 0), Point(t.width, 65535)], t.nodes, [])
  }

  /** The point a rectangle of width w goes to, or -1. */
  ghost function Choice(t: Target, sky: seq<Point>, w: nat): (r: int)
    requires GoodTarget(t) && IsSkyline(sky, t.width) && 0 < w
    ensures -1 <= r < |sky| - 1
    ensures r >= 0 ==> w <= Aligned(w, t.align) && sky[r].x + Aligned(w, t.align) <= t.width
  {
    AlignedBounds(w, t.align);
    Lowest(sky, Profile(sky), Aligned(w, t.align))
  }

  /** Where a rectangle of width w comes to rest on point i. */
  ghost function RestingPlace(t: Target, sky: seq<Point>, i: nat, w: nat, h: nat): Box
    requires GoodTarget(t) && IsSkyline(sky, t.width) && 0 < w && i < |sky|
    requires w <= Aligned(w, t.align) && sky[i].x + Aligned(w, t.align) <= t.width
  {
    Box(sky[i].x, PeakAt(sky, Profile(sky), Aligned(w, t.align), i), w, h)
  }

  /** State after box b has been placed and the skyline has become sky'. */
  function Settle(s: State, sky': seq<Point>, b: Box): State
    requires |sky'| <= |s.sky| + s.free
  {
    State(sky', s.free + |s.sky| - |sky'|, s.placed + [b])
  }

  /** What becomes of a rectangle for which the search came back with segment at and position
      (x, y): it is refused when there is no such segment, no room above, or no free node. */
  function Outcome(t: Target, s: State, at: int, x: nat, y: nat, w: nat, h: nat): State
    requires at + 1 < |s.sky|
  {
    if at < 0 || y + h > t.height || s.free == 0 then s
    else
      SpliceSize(s.sky, at, x, w, y + h);
      Settle(s, Splice(s.sky, at, x, w, y + h), Box(x, y, w, h))
  }

  lemma OutcomeRefused(t: Target, s: State, at: int, x: nat, y: nat, w: nat, h: nat)
    requires at + 1 < |s.sky| && (at < 0 || y + h > t.height || s.free == 0)
    ensures Outcome(t, s, at, x, y, w, h) == s
  {
  }

  lemma OutcomePlaced(t: Target, s: State, at: int, x: nat, y: nat, w: nat, h: nat, s': State)
    requires 0 <= at && at + 1 < |s.sky| && y + h <= t.height && s.free > 0
    requires s'.sky == Splice(s.sky, at, x, w, y + h) && |s'.sky| + s'.free == |s.sky| + s.free
    requires s'.placed == s.placed + [Box(x, y, w, h)]
    ensures Outcome(t, s, at, x, y, w, h) == s'
  {
    hide Splice;
    SpliceSize(s.sky, at, x, w, y + h);
  }

  /** One call of stbrp__skyline_pack_rectangle with the default heuristic. */
  ghost function Pack(t: Target, s: State, w: nat, h: nat): State
    requires GoodTarget(t) && GoodState(t, s) && 0 < w && 0 < h
  {
    var i := Choice(t, s.sky, w);
    if i < 0 then s
    else
      var b := RestingPlace(t, s.sky, i, w, h);
      Outcome(t, s, i, b.x, b.y, w, h)
  }

  /** A window at x of segment at rests at height y, and the new segment would end inside it. */
  ghost predicate Rests(t: Target, sky: seq<Point>, at: nat, x: nat, y: nat, w: nat)
    requires GoodTarget(t) && IsSkyline(sky, t.width) && 0 < w
  {
    var aw := Aligned(w, t.align);
    && InSegment(sky, at, x) && w <= aw && x + aw <= t.width
    && y == Peak(Profile(sky), x, aw) && Extent(sky, at, x, w) <= x + aw
    && (sky[at].y == 0 ==> x == sky[at].x)
  }

  lemma SettleIsGood(t: Target, s: State, sky': seq<Point>, b: Box, e: nat, aligned: nat)
    requires GoodTarget(t) && GoodState(t, s) && |sky'| <= |s.sky| + s.free
    requires IsSkyline(sky', t.width) && GroundLast(sky') && Raised(Profile(s.sky), Profile(sky'), b.x, e, b.y + b.h)
    requires 0 < b.w && 0 < b.h && b.x + b.w <= e <= b.x + aligned <= t.width
    requires b.y == Peak(Profile(s.sky), b.x, aligned) && b.y + b.h <= t.height
    ensures GoodState(t, Settle(s, sky', b))
  {
    PlacementCovers(Profile(s.sky), Profile(sky'), t.height, s.placed, b, e, aligned);
  }

  lemma OutcomeIsGood(t: Target, s: State, at: int, x: nat, y: nat, w: nat, h: nat)
    requires GoodTarget(t) && GoodState(t, s) && at + 1 < |s.sky| && 0 < w && 0 < h
    requires at >= 0 ==> Rests(t, s.sky, at, x, y, w)
    ensures GoodState(t, Outcome(t, s, at, x, y, w, h))
  {
    hide Splice, Raised, Covers, Profile;
    if at >= 0 && y + h <= t.height && s.free > 0 {
      SpliceRaises(s.sky, t.width, at, x, w, y + h);
      SpliceSize(s.sky, at, x, w, y + h);
      SpliceKeepsGround(s.sky, at, x, w, y + h);
      SettleIsGood(t, s, Splice(s.sky, at, x, w, y + h), Box(x, y, w, h), Extent(s.sky, at, x, w), Aligned(w, t.align));
    }
  }

  /** On every state a run can reach, the scan of any window reports its peak and exactly the area
      wasted under it. */
  lemma WasteIsExact(t: Target, s: State, i: nat, x: nat, aw: nat)
    requires GoodTarget(t) && GoodState(t, s) && InSegment(s.sky, i, x) && 0 < aw && x + aw <= t.width
    ensures |Profile(s.sky)| == t.width
    ensures var y := Peak(Profile(s.sky), x, aw);
      CandidateAt(s.sky, i, x, aw) == Candidate(x, y, Gap(Profile(s.sky), x, x + aw, y))
  {
    ScanFindsPeak(s.sky, i, x, aw);
  }

  lemma ChoiceRests(t: Target, sky: seq<Point>, w: nat, h: nat)
    requires GoodTarget(t) && IsSkyline(sky, t.width) && 0 < w
    ensures var i := Choice(t, sky, w);
      i >= 0 ==> var b := RestingPlace(t, sky, i, w, h); Rests(t, sky, i, b.x, b.y, w)
  {
    hide Splice, Profile, Lowest;
    var i := Choice(t, sky, w);
    if i >= 0 {
      ExtentAtPoint(sky, t.width, i, w);
    }
  }

  lemma PackIsGood(t: Target, s: State, w: nat, h: nat)
    requires GoodTarget(t) && GoodState(t, s) && 0 < w && 0 < h
    ensures GoodState(t, Pack(t, s, w, h))
  {
    hide Outcome, Choice, RestingPlace, Rests, Covers, Profile;
    var i := Choice(t, s.sky, w);
    ChoiceRests(t, s.sky, w, h);
    if i >= 0 {
      var b := RestingPlace(t, s.sky, i, w, h);
      OutcomeIsGood(t, s, i, b.x, b.y, w, h);
    }
  }

  lemma BestFitRests(t: Target, sky: seq<Point>, w: nat, h: nat, at: int, best: Candidate)
    requires GoodTarget(t) && IsSkyline(sky, t.width) && GroundLast(sky) && 0 < w
    requires IsBestFit(sky, Aligned(w, t.align), h, t.width, t.height, at, best)
    ensures at >= 0 ==> Rests(t, sky, at, best.x, best.y, w) && best.y + h <= t.height
  {
    hide Splice, Profile, ScanFrom;
    var aw := Aligned(w, t.align);
    AlignedBounds(w, t.align);
    if at >= 0 {
      if LeftFits(sky, aw, h, t.width, t.height, at) && best.x == sky[at].x {
        ExtentAtPoint(sky, t.width, at, w);
      } else {
        var u: nat :| RightFits(sky, aw, h, t.height, at, u) && best.x == sky[u].x - aw;
        assert sky[u].x <= t.width && sky[at + 1].x <= sky[u].x;
      }
      ScanFindsPeak(sky, at, best.x, aw);
      if sky[at].y == 0 {
        GroundIsTakenFirst(sky, t.width, aw, h, t.height, at, best);
      }
    }
  }

  /** No position of the target has room for an aligned window under the lid. */
  ghost predicate NoRoom(hs: seq<nat>, aw: nat, h: nat, height: nat)
    requires 0 < aw
  {
    forall x: nat | x + aw <= |hs| :: Peak(hs, x, aw) + h > height
  }

  lemma ChoiceIsBottomLeft(t: Target, sky: seq<Point>, w: nat, h: nat)
    requires GoodTarget(t) && IsSkyline(sky, t.width) && 0 < w
    ensures 0 < Aligned(w, t.align)
    ensures var i, hs, aw := Choice(t, sky, w), Profile(sky), Aligned(w, t.align);
      if i < 0 then NoRoom(hs, aw, h, t.height)
      else
        var b := RestingPlace(t, sky, i, w, h);
        && BottomLeft(hs, aw, b.x, b.y)
        && (b.y + h > t.height <==> NoRoom(hs, aw, h, t.height))
  {
    AlignedBounds(w, t.align);
    ProfileDepicts(sky, t.width);
    LowestIsBottomLeft(sky, Profile(sky), t.width, Aligned(w, t.align));
  }

  /** No window of that width rests lower. */
  ghost predicate LowestAt(hs: seq<nat>, aw: nat, x: nat, y: nat)
    requires 0 < aw
  {
    && x + aw <= |hs| && y == Peak(hs, x, aw)
    && forall x': nat {:trigger Peak(hs, x', aw)} | x' + aw <= |hs| :: y <= Peak(hs, x', aw)
  }

  /** No column has become lower. */
  ghost predicate Risen(hs: seq<nat>, hs': seq<nat>) {
    |hs'| == |hs| && forall c :: 0 <= c < |hs| ==> hs[c] <= hs'[c]
  }

  /** What the turn of a rectangle does under either heuristic: it is packed exactly if a node is free
      and some position has room, and then as low as possible. */
  ghost predicate TurnOf(t: Target, s: State, s': State, w: nat, h: nat, packed: bool, x: int, y: int) {
    && GoodTarget(t) && GoodState(t, s) && GoodState(t, s') && 0 < w <= Aligned(w, t.align)
    && (packed <==> s.free > 0 && !NoRoom(Profile(s.sky), Aligned(w, t.align), h, t.height))
    && (!packed ==> s' == s)
    && (packed ==>
          && x >= 0 && y >= 0 && LowestAt(Profile(s.sky), Aligned(w, t.align), x, y)
          && s'.placed == s.placed + [Box(x, y, w, h)]
          && Risen(Profile(s.sky), Profile(s'.sky)))
  }

  lemma OutcomeTurns(t: Target, s: State, at: int, x: nat, y: nat, w: nat, h: nat)
    requires GoodTarget(t) && GoodState(t, s) && at + 1 < |s.sky| && 0 < w <= Aligned(w, t.align) && 0 < h
    requires at >= 0 ==> Rests(t, s.sky, at, x, y, w) && LowestAt(Profile(s.sky), Aligned(w, t.align), x, y)
    requires at < 0 || y + h > t.height <==> NoRoom(Profile(s.sky), Aligned(w, t.align), h, t.height)
    ensures TurnOf(t, s, Outcome(t, s, at, x, y, w, h), w, h, at >= 0 && y + h <= t.height && s.free > 0, x, y)
  {
    hide Splice, Profile, Covers, NoRoom, LowestAt, Risen, GoodState, Extent;
    OutcomeIsGood(t, s, at, x, y, w, h);
    if at >= 0 && y + h <= t.height && s.free > 0 {
      OutcomeRises(t, s, at, x, y, w, h);
    }
  }

  lemma OutcomeRises(t: Target, s: State, at: nat, x: nat, y: nat, w: nat, h: nat)
    requires GoodTarget(t) && GoodState(t, s) && at + 1 < |s.sky| && 0 < w && 0 < h
    requires Rests(t, s.sky, at, x, y, w) && y + h <= t.height && s.free > 0
    ensures var s' := Outcome(t, s, at, x, y, w, h);
      && IsSkyline(s'.sky, t.width) && s'.placed == s.placed + [Box(x, y, w, h)]
      && Risen(Profile(s.sky), Profile(s'.sky))
  {
    hide Splice, Profile, Covers, Peak, Extent;
    ProfileLength(s.sky);
    SpliceRaises(s.sky, t.width, at, x, w, y + h);
    SpliceSize(s.sky, at, x, w, y + h);
    PeakIsHighest(Profile(s.sky), x, Aligned(w, t.align));
    var e, hs' := Extent(s.sky, at, x, w), Profile(Splice(s.sky, at, x, w, y + h));
    RaisedIsHigher(Profile(s.sky), hs', x, e, y + h);
  }

  /** The bottom-left position is as low as any, and too high only if nothing has room. */
  lemma ChoiceIsLowest(t: Target, sky: seq<Point>, w: nat, h: nat)
    requires GoodTarget(t) && IsSkyline(sky, t.width) && 0 < w
    ensures 0 < w <= Aligned(w, t.align)
    ensures var i, hs, aw := Choice(t, sky, w), Profile(sky), Aligned(w, t.align);
      if i < 0 then NoRoom(hs, aw, h, t.height)
      else
        var b := RestingPlace(t, sky, i, w, h);
        LowestAt(hs, aw, b.x, b.y) && (b.y + h > t.height <==> NoRoom(hs, aw, h, t.height))
  {
    hide Choice, RestingPlace, Profile, Peak;
    AlignedBounds(w, t.align);
    ChoiceIsBottomLeft(t, sky, w, h);
  }

  /** So is the best-fit position, and there is one exactly if something has room. */
  lemma BestFitIsLowestAt(t: Target, sky: seq<Point>, w: nat, h: nat, at: int, best: Candidate)
    requires GoodTarget(t) && IsSkyline(sky, t.width) && GroundLast(sky) && 0 < w
    requires IsBestFit(sky, Aligned(w, t.align), h, t.width, t.height, at, best)
    ensures 0 < w <= Aligned(w, t.align)
    ensures at >= 0 ==> LowestAt(Profile(sky), Aligned(w, t.align), best.x, best.y) && best.y + h <= t.height
    ensures at < 0 <==> NoRoom(Profile(sky), Aligned(w, t.align), h, t.height)
  {
    hide Profile, IsBestFit, Peak;
    var hs, aw := Profile(sky), Aligned(w, t.align);
    AlignedBounds(w, t.align);
    ProfileLength(sky);
    BestFitRests(t, sky, w, h, at, best);
    forall x': nat | x' + aw <= |hs| ensures if at < 0 then Peak(hs, x', aw) + h > t.height else best.y <= Peak(hs, x', aw) {
      if Peak(hs, x', aw) + h <= t.height {
        BestFitIsLowest(sky, t.width, t.height, aw, h, at, best, x');
      }
    }
  }

  /** A rectangle is refused exactly when no position has room for its aligned window or the free
      list is empty; otherwise it goes to the bottom-left position. */
  lemma PackIsComplete(t: Target, s: State, w: nat, h: nat)
    requires GoodTarget(t) && GoodState(t, s) && 0 < w && 0 < h
    ensures 0 < Aligned(w, t.align)
    ensures var hs, aw, placed' := Profile(s.sky), Aligned(w, t.align), Pack(t, s, w, h).placed;
      if s.free == 0 || NoRoom(hs, aw, h, t.height) then Pack(t, s, w, h) == s
      else
        && |placed'| == |s.placed| + 1
        && placed'[..|s.placed|] == s.placed
        && placed'[|s.placed|].w == w && placed'[|s.placed|].h == h
        && BottomLeft(hs, aw, placed'[|s.placed|].x, placed'[|s.placed|].y)
  {
    ChoiceIsBottomLeft(t, s.sky, w, h);
  }

  ghost predicate NonEmpty(reqs: seq<(nat, nat)>) {
    forall k :: 0 <= k < |reqs| ==> 0 < reqs[k].0 && 0 < reqs[k].1
  }

  /** A run over a list of requests (each a width and a height), from any good state. */
  ghost function RunFrom(t: Target, s: State, reqs: seq<(nat, nat)>): (s': State)
    requires GoodTarget(t) && GoodState(t, s) && NonEmpty(reqs)
    ensures GoodState(t, s')
  {
    if reqs == [] then s
    else
      var n := |reqs| - 1;
      PackIsGood(t, RunFrom(t, s, reqs[..n]), reqs[n].0, reqs[n].1);
      Pack(t, RunFrom(t, s, reqs[..n]), reqs[n].0, reqs[n].1)
  }

  lemma RunFromStep(t: Target, s: State, reqs: seq<(nat, nat)>, req: (nat, nat))
    requires GoodTarget(t) && GoodState(t, s) && NonEmpty(reqs) && 0 < req.0 && 0 < req.1
    ensures NonEmpty(reqs + [req])
    ensures RunFrom(t, s, reqs + [req]) == Pack(t, RunFrom(t, s, reqs), req.0, req.1)
  {
    hide Pack, GoodState;
    assert (reqs + [req])[..|reqs|] == reqs;
  }

  /** The run on a freshly initialised target. */
  ghost function Run(t: Target, reqs: seq<(nat, nat)>): (s: State)
    requires GoodTarget(t) && NonEmpty(reqs)
    ensures GoodState(t, s)
  {
    RunFrom(t, Start(t), reqs)
  }

  // ----- running out of nodes -----

  lemma {:induction false} AscendingNeedsRoom(sky: seq<Point>, k: nat)
    requires Ascending(sky) && k < |sky|
    ensures sky[k].x >= k
  {
    if k > 0 {
      AscendingNeedsRoom(sky, k - 1);
    }
  }

  /** With as many nodes as columns the free list is never empty. */
  lemma EnoughNodes(t: Target, s: State)
    requires GoodTarget(t) && GoodState(t, s) && t.width <= t.nodes
    ensures s.free > 0
  {
    AscendingNeedsRoom(s.sky, |s.sky| - 1);
  }

  /** What stbrp_init_target chooses so "that num_nodes is always enough". */
  function DefaultAlign(width: nat, nodes: nat): nat
    requires nodes >= 1
  {
    (width + nodes - 1) / nodes
  }

  lemma StartIsGood(width: nat, height: nat, nodes: nat)
    requires 1 <= width <= 0xffff && height <= 0xffff && nodes >= 1
    ensures DefaultAlign(width, nodes) >= 1
    ensures var t := Target(width, height, nodes, DefaultAlign(width, nodes));
      GoodTarget(t) && GoodState(t, Start(t))
  {
  }

  /** The skyline after k unit squares side by side. */
  function Steps(k: nat, width: nat): seq<Point> {
    seq(k, (j: nat) => Point(j, 1)) + [Point(k, 0), Point(width, 65535)]
  }

  lemma StepsIsSkyline(k: nat, width: nat)
    requires k < width
    ensures IsSkyline(Steps(k, width), width)
    ensures forall c :: 0 <= c < width ==> Profile(Steps(k, width))[c] == if c < k then 1 else 0
  {
    var sky := Steps(k, width);
    forall c | 0 <= c < width ensures Profile(sky)[c] == if c < k then 1 else 0 {
      ProfileOfSegment(sky, if c < k then c else k, c);
    }
  }

  function Units(k: nat): seq<(nat, nat)> {
    seq(k, _ => (1, 1))
  }

  lemma OneIsAligned(align: nat)
    requires align >= 1
    ensures Aligned(1, align) == align
  {
    assert align % align == 0;
  }

  lemma StepIsHigher(sky: seq<Point>, width: nat, aw: nat, k: nat, r: nat)
    requires 0 < aw && r < k < width && r + aw <= width && sky == Steps(k, width) && IsSkyline(sky, width)
    ensures sky[r].x == r && Peak(Profile(sky), r, aw) >= 1
  {
    PeakIsHighest(Profile(sky), r, aw);
    ProfileOfSegment(sky, r, r);
  }

  lemma UnitGoesNext(sky: seq<Point>, width: nat, aw: nat, k: nat)
    requires 0 < aw && k + aw <= width && sky == Steps(k, width)
    ensures IsSkyline(sky, width) && Lowest(sky, Profile(sky), aw) == k && PeakAt(sky, Profile(sky), aw, k) == 0
  {
    StepsIsSkyline(k, width);
    var hs := Profile(sky);
    ProfileDepicts(sky, width);
    LowestIsBottomLeft(sky, hs, width, aw);
    PeakIsLeast(hs, k, aw, 0);
    var r := Lowest(sky, hs, aw);
    if r < k {
      StepIsHigher(sky, width, aw, k, r);
    }
  }

  lemma UnitSplice(k: nat, width: nat)
    requires k + 1 < width
    ensures Splice(Steps(k, width), k, k, 1, 1) == Steps(k + 1, width)
  {
    var sky := Steps(k, width);
    assert sky[k] == Point(k, 0) && sky[k + 1] == Point(width, 65535);
    assert SkipCovered(sky, k, k + 1) == k;
    assert Splice(sky, k, k, 1, 1) == sky[..k] + [Point(k, 1), Point(k + 1, 0)] + sky[k + 1..];
  }

  lemma UnitStep(t: Target, s: State, k: nat)
    requires GoodTarget(t) && GoodState(t, s) && t.height >= 1
    requires k + t.align <= t.width && k + 1 < t.width && s.sky == Steps(k, t.width) && s.free > 0
    ensures Pack(t, s, 1, 1) == State(Steps(k + 1, t.width), s.free - 1, s.placed + [Box(k, 0, 1, 1)])
  {
    OneIsAligned(t.align);
    UnitGoesNext(s.sky, t.width, t.align, k);
    UnitSplice(k, t.width);
    assert Choice(t, s.sky, 1) == k;
    assert RestingPlace(t, s.sky, k, 1, 1) == Box(k, 0, 1, 1);
  }

  /** Quantised widths do not save nodes: k unit squares use up k of them. */
  lemma {:induction false} UnitsUseUpNodes(t: Target, k: nat)
    requires GoodTarget(t) && t.height >= 1 && k <= t.nodes
    requires k + t.align <= t.width + 1 && k < t.width
    ensures Run(t, Units(k)).sky == Steps(k, t.width) && Run(t, Units(k)).free == t.nodes - k
  {
    hide Steps, Pack, GoodState, GoodTarget, Units, Run;
    UnitsSize(k);
    if k == 0 {
      NoUnits(t);
    } else {
      UnitsUseUpNodes(t, k - 1);
      UnitStep(t, Run(t, Units(k - 1)), k - 1);
      RunOfUnits(t, k);
    }
  }

  lemma UnitsSize(k: nat)
    ensures NonEmpty(Units(k)) && |Units(k)| == k
    ensures k > 0 ==> NonEmpty(Units(k - 1)) && Units(k)[..k - 1] == Units(k - 1) && Units(k)[k - 1] == (1, 1)
  {
  }

  lemma NoUnits(t: Target)
    requires GoodTarget(t)
    ensures Run(t, Units(0)).sky == Steps(0, t.width) && Run(t, Units(0)).free == t.nodes
  {
    hide GoodState;
    assert Units(0) == [];
    assert Steps(0, t.width) == [Point(0, 0), Point(t.width, 65535)];
  }

  lemma RunOfUnits(t: Target, k: nat)
    requires GoodTarget(t) && 0 < k
    ensures Run(t, Units(k)) == Pack(t, Run(t, Units(k - 1)), 1, 1)
  {
    hide Units, Pack, GoodState;
    UnitsSize(k);
  }

  lemma QuantumFits(width: nat, nodes: nat)
    requires 1 <= nodes < width
    ensures 1 <= DefaultAlign(width, nodes) && nodes + DefaultAlign(width, nodes) <= width + 1
  {
    QuotientFits(width + nodes - 1, nodes, (width + nodes - 1) / nodes, (width + nodes - 1) % nodes, width);
  }

  lemma QuotientFits(n: nat, nodes: nat, a: nat, r: nat, width: nat)
    requires 1 <= nodes < width && n == width + nodes - 1 && n == nodes * a + r && r < nodes
    ensures 1 <= a && nodes + a <= width + 1
  {
    if nodes + a > width + 1 {
      Products(nodes, width - nodes, a - (width - nodes) - 2);
    }
  }

  /** If a were two more than the difference d, or more, nodes times a would be too large. */
  lemma Products(nodes: nat, d: nat, more: int)
    requires nodes >= 1 && d >= 1 && more >= 0
    ensures nodes * (d + 2 + more) >= 2 * nodes + d
  {
    assert nodes * (d + 2 + more) == nodes * d + 2 * nodes + nodes * more;
    assert nodes * more >= 0 && (nodes - 1) * d >= 0;
  }

  /** With a node for every column no run ever empties the free list ... */
  lemma NodePerColumnSuffices(t: Target, reqs: seq<(nat, nat)>)
    requires GoodTarget(t) && t.width <= t.nodes && NonEmpty(reqs)
    ensures Run(t, reqs).free > 0
  {
    EnoughNodes(t, Run(t, reqs));
  }

  /** ... and with fewer, although the default alignment is meant to keep the packer from running
      out, a run of unit squares does empty it, after which a square that has room is refused. */
  lemma FewerNodesRunOut(t: Target)
    requires GoodTarget(t) && t.height >= 2 && t.nodes < t.width && t.align == DefaultAlign(t.width, t.nodes)
    ensures Run(t, Units(t.nodes)).free == 0
    ensures var s := Run(t, Units(t.nodes));
      && Pack(t, s, 1, 1) == s
      && !NoRoom(Profile(s.sky), t.align, 1, t.height)
  {
    QuantumFits(t.width, t.nodes);
    UnitsUseUpNodes(t, t.nodes);
    StepsIsSkyline(t.nodes, t.width);
    PeakIsLeast(Profile(Steps(t.nodes, t.width)), 0, t.align, 1);
  }
}
