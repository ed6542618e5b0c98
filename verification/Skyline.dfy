/** The skyline of the rectangle packer as a value: its points in order of x, the last one
    being the sentinel at the target width.  Everything the packer promises is stated column
    by column, through Profile. */
module Skyline {

  datatype Point = Point(x: nat, y: nat)

  ghost predicate Ascending(sky: seq<Point>) {
    forall i, j :: 0 <= i < j < |sky| ==> sky[i].x < sky[j].x
  }

  /** Only the last segment may lie on the ground: a window that starts further left stands on
      something. */
  ghost predicate GroundLast(sky: seq<Point>) {
    forall i :: 0 <= i < |sky| - 2 ==> sky[i].y > 0
  }

  /** What the packer's debug checks ask of the active list. */
  ghost predicate IsSkyline(sky: seq<Point>, width: nat) {
    && |sky| >= 2
    && sky[0].x == 0
    && sky[|sky| - 1].x == width
    && Ascending(sky)
  }

  /** The segment, at or after k, that holds column c. */
  function Locate(sky: seq<Point>, c: nat, k: nat): (i: nat)
    requires k < |sky| - 1 && sky[k].x <= c < sky[|sky| - 1].x
    ensures k <= i < |sky| - 1 && sky[i].x <= c < sky[i + 1].x
    decreases |sky| - k
  {
    if c < sky[k + 1].x then k else Locate(sky, c, k + 1)
  }

  /** The height of every column of the target, read off the points. */
  ghost function Profile(sky: seq<Point>): seq<nat>
    requires |sky| >= 2 && sky[0].x == 0
  {
    seq(sky[|sky| - 1].x, (c: nat) requires c < sky[|sky| - 1].x => sky[Locate(sky, c, 0)].y)
  }

  lemma ProfileOfSegment(sky: seq<Point>, i: nat, c: nat)
    requires Ascending(sky) && i + 1 < |sky| && sky[0].x == 0
    requires sky[i].x <= c < sky[i + 1].x
    ensures c < |Profile(sky)| && Profile(sky)[c] == sky[i].y
  {
    assert i + 1 < |sky| - 1 ==> sky[i + 1].x < sky[|sky| - 1].x;
    var j := Locate(sky, c, 0);
    assert i == j;
  }

  lemma ProfileLength(sky: seq<Point>)
    requires |sky| >= 2 && sky[0].x == 0
    ensures |Profile(sky)| == sky[|sky| - 1].x
  {
  }

  /** The highest of the n columns from a on. */
  function Peak(hs: seq<nat>, a: nat, n: nat): nat
    requires 0 < n && a + n <= |hs|
  {
    var last := hs[a + n - 1];
    if n == 1 then last
    else if Peak(hs, a, n - 1) < last then last else Peak(hs, a, n - 1)
  }

  lemma {:induction false} PeakIsHighest(hs: seq<nat>, a: nat, n: nat)
    requires 0 < n && a + n <= |hs|
    ensures forall c :: a <= c < a + n ==> hs[c] <= Peak(hs, a, n)
    ensures exists c :: a <= c < a + n && hs[c] == Peak(hs, a, n)
  {
    if n > 1 {
      PeakIsHighest(hs, a, n - 1);
    }
    assert Peak(hs, a, n) == hs[a + n - 1] || Peak(hs, a, n) == Peak(hs, a, n - 1);
  }

  /** A height that bounds every column of the window also bounds its peak. */
  lemma PeakIsLeast(hs: seq<nat>, a: nat, n: nat, y: nat)
    requires 0 < n && a + n <= |hs|
    requires forall c :: a <= c < a + n ==> hs[c] <= y
    ensures Peak(hs, a, n) <= y
  {
    PeakIsHighest(hs, a, n);
  }

  /** The area between the skyline and a lid at height y, over the columns [a, b). */
  function Gap(hs: seq<nat>, a: nat, b: nat, y: nat): int
    requires a <= b <= |hs|
    decreases b - a
  {
    if a == b then 0 else Gap(hs, a, b - 1, y) + (y - hs[b - 1])
  }

  lemma {:induction false} GapOfHigherLid(hs: seq<nat>, a: nat, b: nat, y: nat, y': nat)
    requires a <= b <= |hs|
    ensures Gap(hs, a, b, y') == Gap(hs, a, b, y) + (b - a) * (y' - y)
    decreases b - a
  {
    if a < b {
      GapOfHigherLid(hs, a, b - 1, y, y');
      assert (b - 1 - a) * (y' - y) + (y' - y) == (b - a) * (y' - y);
    }
  }

  /** A stretch of columns of one height adds a plain rectangle to the gap. */
  lemma {:induction false} GapOverFlat(hs: seq<nat>, a: nat, m: nat, b: nat, flat: nat, y: nat)
    requires a <= m <= b <= |hs| && forall c :: m <= c < b ==> hs[c] == flat
    ensures Gap(hs, a, b, y) == Gap(hs, a, m, y) + (b - m) * (y - flat)
    decreases b - m
  {
    if m < b {
      GapOverFlat(hs, a, m, b - 1, flat, y);
      assert (b - 1 - m) * (y - flat) + (y - flat) == (b - m) * (y - flat);
    }
  }

  // ----- the search for the lowest position over one window -----

  /** The three running values of the window scan. */
  datatype Scan = Scan(minY: nat, waste: int, visited: int)

  const FreshScan := Scan(0, 0, 0)

  /** One turn of the scan: segment [x, next) at height y seen by the window [x0, x0 + width). */
  function ScanSegment(s: Scan, x: nat, y: nat, next: nat, x0: nat, width: nat): Scan {
    if y > s.minY then
      Scan(y, s.waste + s.visited * (y - s.minY), s.visited + next - (if x < x0 then x0 else x))
    else
      var under := if next - x + s.visited > width then width - s.visited else next - x;
      Scan(s.minY, s.waste + under * (s.minY - y), s.visited + under)
  }

  /** The scan from segment k on: what stbrp__skyline_find_min_y computes. */
  function ScanFrom(sky: seq<Point>, k: nat, x0: nat, width: nat, s: Scan): Scan
    decreases |sky| - k
  {
    if k + 1 < |sky| && sky[k].x < x0 + width then
      ScanFrom(sky, k + 1, x0, width, ScanSegment(s, sky[k].x, sky[k].y, sky[k + 1].x, x0, width))
    else s
  }

  /** What the scan has established about heights once the columns before f are behind it. */
  ghost predicate ScanSoFar(hs: seq<nat>, x0: nat, f: nat, s: Scan)
    requires x0 <= f <= |hs|
  {
    && (forall c :: x0 <= c < f ==> hs[c] <= s.minY)
    && (s.minY == 0 || exists c :: x0 <= c < f && hs[c] == s.minY)
  }

  lemma ScanKeepsHeights(hs: seq<nat>, x0: nat, f: nat, f': nat, s: Scan, s': Scan, y: nat)
    requires x0 <= f < f' <= |hs| && forall c :: f <= c < f' ==> hs[c] == y
    requires s'.minY == if y > s.minY then y else s.minY
    requires ScanSoFar(hs, x0, f, s)
    ensures ScanSoFar(hs, x0, f', s')
  {
    assert hs[f] == y;
  }

  lemma RaiseKeepsWaste(hs: seq<nat>, x0: nat, f: nat, f': nat, y: nat, y': nat)
    requires x0 <= f <= f' <= |hs| && forall c :: f <= c < f' ==> hs[c] == y'
    ensures Gap(hs, x0, f', y') == Gap(hs, x0, f, y) + (f - x0) * (y' - y)
  {
    GapOverFlat(hs, x0, f, f', y', y');
    GapOfHigherLid(hs, x0, f, y, y');
    assert (f' - f) * (y' - y') == 0;
  }

  /** One turn keeps the waste equal to the gap, as long as what is still to be seen of the
      window is what the scan believes. */
  lemma ScanKeepsWaste(hs: seq<nat>, x0: nat, width: nat, f: nat, f': nat, s: Scan, x: nat, y: nat, next: nat)
    requires x0 <= f < f' <= |hs| && forall c :: f <= c < f' ==> hs[c] == y
    requires x <= f < next && f < x0 + width && f' == if next < x0 + width then next else x0 + width
    requires f == if x < x0 then x0 else x
    requires s.waste == Gap(hs, x0, f, s.minY) && s.visited == f - x0
    requires x0 <= x || y > s.minY
    ensures var s' := ScanSegment(s, x, y, next, x0, width);
      && s'.waste == Gap(hs, x0, f', s'.minY)
      && (next < x0 + width ==> s'.visited == f' - x0)
  {
    if y > s.minY {
      RaiseKeepsWaste(hs, x0, f, f', s.minY, y);
    } else {
      GapOverFlat(hs, x0, f, f', y, s.minY);
    }
  }

  /** Columns of the window that lie before point k. */
  function Frontier(sky: seq<Point>, k: nat, x0: nat, width: nat): nat
    requires k < |sky|
  {
    if sky[k].x < x0 then x0 else if sky[k].x < x0 + width then sky[k].x else x0 + width
  }

  lemma SegmentHeight(s: Scan, x: nat, y: nat, next: nat, x0: nat, width: nat)
    ensures ScanSegment(s, x, y, next, x0, width).minY == if y > s.minY then y else s.minY
  {
  }

  lemma {:induction false} ScanReachesEnd(sky: seq<Point>, hs: seq<nat>, k: nat, x0: nat, width: nat, s: Scan, exact: bool)
    requires Ascending(sky) && |sky| >= 2 && k < |sky| && sky[0].x == 0 && hs == Profile(sky)
    requires width > 0 && x0 + width <= |hs|
    requires k + 1 < |sky| ==> x0 < sky[k + 1].x
    requires k + 1 == |sky| ==> x0 + width <= sky[k].x
    requires ScanSoFar(hs, x0, Frontier(sky, k, x0, width), s)
    requires exact ==> s.waste == Gap(hs, x0, Frontier(sky, k, x0, width), s.minY)
    requires exact && sky[k].x < x0 + width ==> s.visited == Frontier(sky, k, x0, width) - x0
    requires exact && sky[k].x < x0 ==> sky[k].y > s.minY
    ensures var r := ScanFrom(sky, k, x0, width, s);
      && ScanSoFar(hs, x0, x0 + width, r)
      && (exact ==> r.waste == Gap(hs, x0, x0 + width, r.minY))
    decreases |sky| - k
  {
    hide Profile, Gap, ScanFrom, ScanSegment;
    ProfileLength(sky);
    if !(k + 1 < |sky| && sky[k].x < x0 + width) {
      ScanStops(sky, k, x0, width, s);
    } else {
      ScanStep(sky, k, x0, width, s);
      SegmentHeight(s, sky[k].x, sky[k].y, sky[k + 1].x, x0, width);
      var f, f' := Frontier(sky, k, x0, width), Frontier(sky, k + 1, x0, width);
      var s' := ScanSegment(s, sky[k].x, sky[k].y, sky[k + 1].x, x0, width);
      forall c | f <= c < f' ensures hs[c] == sky[k].y {
        ProfileOfSegment(sky, k, c);
      }
      ScanKeepsHeights(hs, x0, f, f', s, s', sky[k].y);
      if exact {
        ScanKeepsWaste(hs, x0, width, f, f', s, sky[k].x, sky[k].y, sky[k + 1].x);
      }
      ScanReachesEnd(sky, hs, k + 1, x0, width, s', exact);
    }
  }

  /** A window inside the last segment, that segment being on the ground: nothing is wasted. */
  lemma ScanOfGround(sky: seq<Point>, i: nat, x0: nat, width: nat)
    requires Ascending(sky) && i + 2 == |sky| && sky[0].x == 0 && sky[i].y == 0
    requires sky[i].x <= x0 && width > 0 && x0 + width <= sky[i + 1].x
    ensures ScanFrom(sky, i, x0, width, FreshScan) == Scan(0, 0, width)
    ensures Gap(Profile(sky), x0, x0 + width, 0) == 0
  {
    ScanStep(sky, i, x0, width, FreshScan);
    ScanStops(sky, i + 1, x0, width, Scan(0, 0, width));
    forall c | x0 <= c < x0 + width ensures Profile(sky)[c] == 0 {
      ProfileOfSegment(sky, i, c);
    }
    GapOverFlat(Profile(sky), x0, x0, x0 + width, 0, 0);
  }

  /** The scan started at the segment holding x0 finds the peak of the window, and where only the
      last segment may lie on the ground its waste is exactly the area under the lid. */
  lemma ScanFindsPeak(sky: seq<Point>, i: nat, x0: nat, width: nat)
    requires Ascending(sky) && i + 1 < |sky| && sky[0].x == 0
    requires sky[i].x <= x0 < sky[i + 1].x && width > 0 && x0 + width <= sky[|sky| - 1].x
    ensures var r := ScanFrom(sky, i, x0, width, FreshScan);
      && r.minY == Peak(Profile(sky), x0, width)
      && (GroundLast(sky) ==> r.waste == Gap(Profile(sky), x0, x0 + width, r.minY))
  {
    var hs := Profile(sky);
    ScanReachesEnd(sky, hs, i, x0, width, FreshScan, sky[i].x == x0 || sky[i].y > 0);
    PeakIsHighest(hs, x0, width);
    PeakIsLeast(hs, x0, width, ScanFrom(sky, i, x0, width, FreshScan).minY);
    if GroundLast(sky) && sky[i].y == 0 {
      ScanOfGround(sky, i, x0, width);
    }
  }

  lemma ScanStep(sky: seq<Point>, k: nat, x0: nat, width: nat, s: Scan)
    requires k + 1 < |sky| && sky[k].x < x0 + width
    ensures ScanFrom(sky, k, x0, width, s) ==
            ScanFrom(sky, k + 1, x0, width, ScanSegment(s, sky[k].x, sky[k].y, sky[k + 1].x, x0, width))
  {
  }

  lemma ScanStops(sky: seq<Point>, k: nat, x0: nat, width: nat, s: Scan)
    requires k < |sky| && x0 + width <= sky[k].x
    ensures ScanFrom(sky, k, x0, width, s) == s
  {
  }
}
