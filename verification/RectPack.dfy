/** The skyline packer as the library keeps it: a linked list of active nodes, a linked list of
    free nodes, both spliced in place, and an array of rectangles to fill in. */
module RectPack {
  import opened Skyline
  import opened Packing

  /** stbrp_coord, an unsigned short. */
  type Coord = n: int | 0 <= n < 0x10000

  const MAXVAL: Coord := 0xffff

  function ToCoord(n: int): Coord {
    n % 0x10000
  }

  /** stbrp_rect; wasPacked holds the original index while the array is being packed. */
  datatype Rect = Rect(id: int, w: Coord, h: Coord, x: Coord, y: Coord, wasPacked: int)

  predicate IsEmpty(r: Rect) {
    r.w == 0 || r.h == 0
  }

  predicate Refused(r: Rect) {
    r.x == MAXVAL && r.y == MAXVAL
  }

  function BoxOf(r: Rect): Box {
    Box(r.x, r.y, r.w, r.h)
  }

  /** The sizes that reach the packer, in order. */
  function Requests(rs: seq<Rect>): (reqs: seq<(nat, nat)>)
    ensures NonEmpty(reqs)
  {
    if rs == [] then []
    else
      var n := |rs| - 1;
      Requests(rs[..n]) + if IsEmpty(rs[n]) then [] else [(rs[n].w as nat, rs[n].h as nat)]
  }

  lemma RequestsStep(rs: seq<Rect>, i: nat)
    requires i < |rs|
    ensures Requests(rs[..i + 1]) ==
            if IsEmpty(rs[i]) then Requests(rs[..i]) else Requests(rs[..i]) + [(rs[i].w as nat, rs[i].h as nat)]
  {
    assert rs[..i + 1][..i] == rs[..i];
  }

  lemma RunOverRects(t: Packing.Target, s: Packing.State, rs: seq<Rect>, i: nat)
    requires GoodTarget(t) && GoodState(t, s) && i < |rs|
    ensures var here := RunFrom(t, s, Requests(rs[..i]));
      RunFrom(t, s, Requests(rs[..i + 1])) ==
      if IsEmpty(rs[i]) then here else Pack(t, here, rs[i].w, rs[i].h)
  {
    hide Pack, GoodState, Requests, RunFrom;
    RequestsStep(rs, i);
    if !IsEmpty(rs[i]) {
      RunFromStep(t, s, Requests(rs[..i]), (rs[i].w as nat, rs[i].h as nat));
    }
  }

  lemma RunOverNothing(t: Packing.Target, s: Packing.State, rs: seq<Rect>)
    requires GoodTarget(t) && GoodState(t, s)
    ensures RunFrom(t, s, Requests(rs[..0])) == s
  {
    hide GoodState;
  }

  /** slot[i] is the place of rs[i] among the placed boxes, or -1 if it has none. */
  ghost predicate Reports(rs: seq<Rect>, slot: seq<int>, first: nat, placed: seq<Box>) {
    && |slot| == |rs|
    && (forall i :: 0 <= i < |rs| ==>
          if IsEmpty(rs[i]) then slot[i] == -1 && rs[i].x == 0 && rs[i].y == 0
          else if slot[i] < 0 then Refused(rs[i])
          else first <= slot[i] < |placed| && placed[slot[i]] == BoxOf(rs[i]) && !Refused(rs[i]))
    && (forall i, j :: 0 <= i < j < |rs| && slot[i] >= 0 && slot[j] >= 0 ==> slot[i] != slot[j])
  }

  lemma ReportsNothing(first: nat, placed: seq<Box>)
    ensures Reports([], [], first, placed)
  {
  }

  /** One rectangle more, placed last or not at all. */
  lemma ReportsOneMore(rs: seq<Rect>, slot: seq<int>, first: nat, placed: seq<Box>, r: Rect, s: int, placed': seq<Box>)
    requires Reports(rs, slot, first, placed) && first <= |placed|
    requires IsEmpty(r) ==> s == -1 && r.x == 0 && r.y == 0
    requires !IsEmpty(r) && s < 0 ==> Refused(r)
    requires s < 0 ==> placed' == placed
    requires s >= 0 ==> !IsEmpty(r) && !Refused(r) && s == |placed| && placed' == placed + [BoxOf(r)]
    ensures Reports(rs + [r], slot + [s], first, placed')
  {
    hide IsEmpty, Refused, BoxOf;
  }

  /** The turn of one rectangle, as it comes out of it. */
  ghost predicate Turn(t: Packing.Target, s: Packing.State, s': Packing.State, r: Rect) {
    && GoodTarget(t) && GoodState(t, s) && GoodState(t, s')
    && if IsEmpty(r) then s' == s && r.x == 0 && r.y == 0
       else TurnOf(t, s, s', r.w, r.h, !Refused(r), r.x, r.y)
  }

  lemma EmptyTurn(t: Packing.Target, s: Packing.State, r: Rect)
    requires GoodTarget(t) && GoodState(t, s) && IsEmpty(r) && r.x == 0 && r.y == 0
    ensures Turn(t, s, s, r)
  {
    hide GoodState;
  }

  lemma PackedTurn(t: Packing.Target, s: Packing.State, s': Packing.State, r: Rect)
    requires !IsEmpty(r) && TurnOf(t, s, s', r.w, r.h, true, r.x, r.y) && r.x + r.w <= t.width
    ensures Turn(t, s, s', r) && !Refused(r)
  {
    hide GoodState, NoRoom, LowestAt, Risen;
  }

  lemma RefusedTurn(t: Packing.Target, s: Packing.State, s': Packing.State, x: int, y: int, r: Rect)
    requires !IsEmpty(r) && TurnOf(t, s, s', r.w, r.h, false, x, y) && Refused(r)
    ensures Turn(t, s, s', r)
  {
    hide GoodState, NoRoom, LowestAt, Risen;
    TurnIsFree(t, s, s', r.w, r.h, false, x, y, r.x, r.y);
  }

  lemma TurnBounds(t: Packing.Target)
    requires GoodTarget(t)
    ensures t.width <= 0xffff && t.height <= 0xffff
  {
  }

  /** The states between the turns of the rectangles rs. */
  ghost predicate Trail(t: Packing.Target, start: Packing.State, trail: seq<Packing.State>, end: Packing.State, rs: seq<Rect>) {
    && |trail| == |rs| + 1 && trail[0] == start && trail[|rs|] == end
    && GoodTarget(t) && GoodState(t, start)
    && forall i :: 0 <= i < |rs| ==> Turn(t, trail[i], trail[i + 1], rs[i])
  }

  lemma NoTurn(t: Packing.Target, s: Packing.State)
    requires GoodTarget(t) && GoodState(t, s)
    ensures Trail(t, s, [s], s, [])
  {
    hide GoodState;
  }

  lemma OneTurnMore(t: Packing.Target, start: Packing.State, trail: seq<Packing.State>, here: Packing.State, rs: seq<Rect>,
                    end: Packing.State, r: Rect)
    requires Trail(t, start, trail, here, rs) && Turn(t, here, end, r)
    ensures Trail(t, start, trail + [end], end, rs + [r])
  {
    hide Turn, GoodState;
    var longer := trail + [end];
    forall i | 0 <= i < |rs| + 1 ensures Turn(t, longer[i], longer[i + 1], (rs + [r])[i]) {
      if i < |rs| {
        assert longer[i] == trail[i] && longer[i + 1] == trail[i + 1];
      }
    }
  }

  /** Where nothing is packed the coordinates do not matter. */
  lemma TurnIsFree(t: Packing.Target, s: Packing.State, s': Packing.State, w: nat, h: nat, packed: bool,
                   x: int, y: int, x': int, y': int)
    requires TurnOf(t, s, s', w, h, packed, x, y) && (packed ==> x' == x && y' == y)
    ensures TurnOf(t, s, s', w, h, packed, x', y')
  {
    hide NoRoom, LowestAt, Risen, GoodState;
  }

  /** What the turns add up to: every rectangle has a box of its own or is refused, and every box
      placed is that of a rectangle. */
  lemma {:induction false} TrailReports(t: Packing.Target, start: Packing.State, trail: seq<Packing.State>, end: Packing.State,
                                        rs: seq<Rect>) returns (slot: seq<int>)
    requires Trail(t, start, trail, end, rs)
    ensures start.placed <= end.placed && Reports(rs, slot, |start.placed|, end.placed)
    ensures forall k :: |start.placed| <= k < |end.placed| ==> k in slot
    decreases |rs|
  {
    hide Turn, GoodState;
    if rs == [] {
      slot := [];
      ReportsNothing(|start.placed|, end.placed);
    } else {
      var n := |rs| - 1;
      var r := rs[n];
      OneTurnLess(t, start, trail, end, rs);
      slot := TrailReports(t, start, trail[..n + 1], trail[n], rs[..n]);
      assert Turn(t, trail[n], trail[n + 1], r);
      var s := TurnReports(t, trail[n], end, r);
      ReportsOneMore(rs[..n], slot, |start.placed|, trail[n].placed, r, s, end.placed);
      assert rs == rs[..n] + [r];
      slot := slot + [s];
    }
  }

  lemma OneTurnLess(t: Packing.Target, start: Packing.State, trail: seq<Packing.State>, end: Packing.State, rs: seq<Rect>)
    requires Trail(t, start, trail, end, rs) && rs != []
    ensures Trail(t, start, trail[..|rs|], trail[|rs| - 1], rs[..|rs| - 1])
  {
    hide Turn, GoodState;
    var n := |rs| - 1;
    forall i | 0 <= i < n ensures Turn(t, trail[..n + 1][i], trail[..n + 1][i + 1], rs[..n][i]) {
      assert Turn(t, trail[i], trail[i + 1], rs[i]);
    }
  }

  lemma TurnReports(t: Packing.Target, s: Packing.State, s': Packing.State, r: Rect) returns (slot: int)
    requires Turn(t, s, s', r)
    ensures IsEmpty(r) ==> slot == -1 && r.x == 0 && r.y == 0
    ensures !IsEmpty(r) && slot < 0 ==> Refused(r)
    ensures slot < 0 ==> s'.placed == s.placed
    ensures slot >= 0 ==> !IsEmpty(r) && !Refused(r) && slot == |s.placed| && s'.placed == s.placed + [BoxOf(r)]
  {
    hide NoRoom, LowestAt, Risen, GoodState, Aligned;
    slot := if IsEmpty(r) || Refused(r) then -1 else |s.placed|;
  }

  /** The flags play no part in a turn, so the trail is also that of the finished array. */
  lemma TrailOfSorted(t: Packing.Target, start: Packing.State, trail: seq<Packing.State>, end: Packing.State, done: seq<Rect>,
                      order: seq<nat>, back: seq<nat>, rs: seq<Rect>)
    requires Trail(t, start, trail, end, done) && Inverse(order, back) && |order| == |done| == |rs|
    requires forall i :: 0 <= i < |rs| ==> rs[i] == Flagged(done[back[i]])
    ensures Trail(t, start, trail, end, Reordered(rs, order))
  {
    hide TurnOf, GoodState;
    forall i | 0 <= i < |done| ensures Turn(t, trail[i], trail[i + 1], Reordered(rs, order)[i]) {
      assert Turn(t, trail[i], trail[i + 1], done[i]);
      assert Reordered(rs, order)[i] == rs[order[i]] == Flagged(done[back[order[i]]]) == Flagged(done[i]);
    }
  }

  /** Every box placed in this call is reported. */
  ghost predicate AllReported(rs: seq<Rect>, older: seq<Box>, placed: seq<Box>) {
    forall k :: |older| <= k < |placed| ==> IsReported(rs, placed[k])
  }

  ghost predicate IsReported(rs: seq<Rect>, b: Box) {
    exists i :: 0 <= i < |rs| && Reported(rs[i], b)
  }

  ghost predicate Reported(r: Rect, b: Box) {
    !IsEmpty(r) && r.wasPacked == 1 && BoxOf(r) == b
  }

  /** A rectangle is reported as refused only if at its turn no node was free, or nothing has room for it,
      then and still at the end. */
  ghost predicate RefusedForCause(t: Packing.Target, trail: seq<Packing.State>, end: Packing.State, rs: seq<Rect>, back: seq<nat>) {
    && |rs| == |back| && |trail| == |rs| + 1 && GoodTarget(t) && GoodState(t, end)
    && forall i :: 0 <= i < |rs| && !IsEmpty(rs[i]) && rs[i].wasPacked == 0 ==>
         && back[i] < |trail| && 0 < Aligned(rs[i].w, t.align)
         && (trail[back[i]].free == 0 || NoRoom(Profile(end.sky), Aligned(rs[i].w, t.align), rs[i].h, t.height))
  }

  lemma {:induction false} HeightsRise(t: Packing.Target, start: Packing.State, trail: seq<Packing.State>, end: Packing.State,
                                       rs: seq<Rect>, k: nat)
    requires Trail(t, start, trail, end, rs) && k <= |rs|
    ensures GoodState(t, trail[k]) && GoodState(t, end) && Risen(Profile(trail[k].sky), Profile(end.sky))
    decreases |rs| - k
  {
    if k < |rs| {
      HeightsRise(t, start, trail, end, rs, k + 1);
      assert Turn(t, trail[k], trail[k + 1], rs[k]);
      TurnRises(t, trail[k], trail[k + 1], rs[k]);
    } else {
      TrailEnds(t, start, trail, end, rs);
    }
  }

  lemma TrailEnds(t: Packing.Target, start: Packing.State, trail: seq<Packing.State>, end: Packing.State, rs: seq<Rect>)
    requires Trail(t, start, trail, end, rs)
    ensures GoodState(t, end)
  {
    hide GoodState, TurnOf;
    assert |rs| > 0 ==> Turn(t, trail[|rs| - 1], trail[|rs| - 1 + 1], rs[|rs| - 1]);
  }

  lemma TurnRises(t: Packing.Target, s: Packing.State, s': Packing.State, r: Rect)
    requires Turn(t, s, s', r)
    ensures GoodState(t, s) && GoodState(t, s') && Risen(Profile(s.sky), Profile(s'.sky))
  {
    hide NoRoom, LowestAt, Aligned, Profile, Covers;
  }

  lemma SkyShape(t: Packing.Target, s: Packing.State)
    requires GoodTarget(t) && GoodState(t, s)
    ensures |s.sky| >= 2 && s.sky[0].x == 0
  {
    hide Covers;
  }

  lemma NoRoomStays(hs: seq<nat>, hs': seq<nat>, aw: nat, h: nat, height: nat)
    requires 0 < aw && NoRoom(hs, aw, h, height) && Risen(hs, hs')
    ensures NoRoom(hs', aw, h, height)
  {
    forall x: nat | x + aw <= |hs'| ensures Peak(hs', x, aw) + h > height {
      PeakIsHighest(hs', x, aw);
      PeakIsLeast(hs, x, aw, Peak(hs', x, aw));
    }
  }

  lemma RefusalIsJustified(t: Packing.Target, start: Packing.State, trail: seq<Packing.State>, end: Packing.State,
                           order: seq<nat>, back: seq<nat>, rs: seq<Rect>)
    requires Inverse(order, back) && |order| == |rs| && Trail(t, start, trail, end, Reordered(rs, order))
    requires forall i :: 0 <= i < |rs| ==> rs[i].wasPacked == if Refused(rs[i]) then 0 else 1
    ensures RefusedForCause(t, trail, end, rs, back)
  {
    hide GoodState, NoRoom, LowestAt, Risen, Aligned, Profile;
    TrailEnds(t, start, trail, end, Reordered(rs, order));
    SkyShape(t, end);
    forall i | 0 <= i < |rs| && !IsEmpty(rs[i]) && rs[i].wasPacked == 0
      ensures back[i] < |trail| && 0 < Aligned(rs[i].w, t.align)
      ensures trail[back[i]].free == 0 || NoRoom(Profile(end.sky), Aligned(rs[i].w, t.align), rs[i].h, t.height)
    {
      var k := back[i];
      assert Reordered(rs, order)[k] == rs[i];
      assert Turn(t, trail[k], trail[k + 1], rs[i]);
      HeightsRise(t, start, trail, end, Reordered(rs, order), k);
      SkyShape(t, trail[k]);
      if trail[k].free > 0 {
        NoRoomStays(Profile(trail[k].sky), Profile(end.sky), Aligned(rs[i].w, t.align), rs[i].h, t.height);
      }
    }
  }

  lemma CoordFits(n: int)
    requires 0 <= n < 0x10000
    ensures ToCoord(n) == n
  {
  }

  /** A sort leaves at each place i what was at order[i] before. */
  ghost predicate Permutes(order: seq<nat>, n: nat) {
    && |order| == n
    && (forall i :: 0 <= i < n ==> order[i] < n)
    && (forall i, j :: 0 <= i < j < n ==> order[i] != order[j])
  }

  /** After the first sort the rectangle at place k carries the tag order[k]; the second sort puts
      the tags in ascending order. */
  ghost predicate SortsByTag(order: seq<nat>, back: seq<nat>)
    requires Permutes(order, |back|) && Permutes(back, |back|)
  {
    forall i, j :: 0 <= i < j < |back| ==> order[back[i]] <= order[back[j]]
  }

  lemma {:induction false} AscendingTagAtLeast(order: seq<nat>, back: seq<nat>, i: nat)
    requires Permutes(order, |back|) && Permutes(back, |back|) && SortsByTag(order, back) && i < |back|
    ensures order[back[i]] >= i
  {
    if i > 0 {
      AscendingTagAtLeast(order, back, i - 1);
      assert order[back[i - 1]] <= order[back[i]];
    }
  }

  lemma {:induction false} AscendingTagAtMost(order: seq<nat>, back: seq<nat>, i: nat)
    requires Permutes(order, |back|) && Permutes(back, |back|) && SortsByTag(order, back) && i < |back|
    ensures order[back[i]] <= i
    decreases |back| - i
  {
    if i + 1 < |back| {
      AscendingTagAtMost(order, back, i + 1);
      assert order[back[i]] <= order[back[i + 1]];
    }
  }

  /** Sorting by the tags undoes the first sort, whatever order that left. */
  lemma SortByTagIsInverse(order: seq<nat>, back: seq<nat>)
    requires Permutes(order, |back|) && Permutes(back, |back|) && SortsByTag(order, back)
    ensures Inverse(order, back)
  {
    forall i | 0 <= i < |back| ensures order[back[i]] == i {
      AscendingTagAtLeast(order, back, i);
      AscendingTagAtMost(order, back, i);
    }
  }

  /** order says which rectangle the first sort puts at each place; back is its inverse. */
  ghost predicate Inverse(order: seq<nat>, back: seq<nat>) {
    && |order| == |back|
    && (forall i :: 0 <= i < |order| ==> order[i] < |order| && back[order[i]] == i)
    && (forall i :: 0 <= i < |back| ==> back[i] < |back| && order[back[i]] == i)
  }

  /** The rectangles in the order in which they are packed. */
  function Reordered(rs: seq<Rect>, order: seq<nat>): (s: seq<Rect>)
    requires |order| == |rs| && forall i :: 0 <= i < |order| ==> order[i] < |rs|
    ensures |s| == |rs|
  {
    seq(|rs|, i requires 0 <= i < |rs| => rs[order[i]])
  }

  /** The array tells the truth: a non-empty rectangle is flagged exactly when it has a box of its
      own, inside the target, and no two flagged ones overlap, nor does one overlap an older box. */
  ghost predicate Truthful(rs: seq<Rect>, width: nat, height: nat, older: seq<Box>) {
    && (forall i :: 0 <= i < |rs| ==> rs[i].wasPacked == if Refused(rs[i]) then 0 else 1)
    && (forall i :: 0 <= i < |rs| && IsEmpty(rs[i]) ==> rs[i].x == 0 && rs[i].y == 0)
    && (forall i :: 0 <= i < |rs| && !IsEmpty(rs[i]) && rs[i].wasPacked == 1 ==> Inside(BoxOf(rs[i]), width, height))
    && (forall i, j :: 0 <= i < j < |rs| && !IsEmpty(rs[i]) && !IsEmpty(rs[j]) && rs[i].wasPacked == 1 == rs[j].wasPacked ==>
          Disjoint(BoxOf(rs[i]), BoxOf(rs[j])))
    && (forall i, k :: 0 <= i < |rs| && 0 <= k < |older| && !IsEmpty(rs[i]) && rs[i].wasPacked == 1 ==>
          Disjoint(BoxOf(rs[i]), older[k]))
  }

  /** The last pass over the array. */
  function Flagged(r: Rect): Rect {
    r.(wasPacked := if Refused(r) then 0 else 1)
  }

  lemma ReportsAreTruthful(done: seq<Rect>, slot: seq<int>, rs: seq<Rect>, order: seq<nat>, back: seq<nat>,
                           hs: seq<nat>, height: nat, older: seq<Box>, placed: seq<Box>)
    requires Reports(done, slot, |older|, placed) && older <= placed && Covers(hs, height, placed)
    requires Inverse(order, back) && |order| == |done| == |rs|
    requires forall i :: 0 <= i < |rs| ==> rs[i] == Flagged(done[back[i]])
    ensures Truthful(rs, |hs|, height, older)
  {
    forall i | 0 <= i < |rs| && !IsEmpty(rs[i]) && rs[i].wasPacked == 1
      ensures var k := slot[back[i]]; |older| <= k < |placed| && placed[k] == BoxOf(rs[i])
    {
    }
    forall i, j | 0 <= i < j < |rs| && !IsEmpty(rs[i]) && !IsEmpty(rs[j]) && rs[i].wasPacked == 1 == rs[j].wasPacked
      ensures Disjoint(BoxOf(rs[i]), BoxOf(rs[j]))
    {
      var p, q := slot[back[i]], slot[back[j]];
      assert order[back[i]] == i && order[back[j]] == j;
      assert back[i] < back[j] || back[j] < back[i];
      assert p < q || q < p;
      assert placed[p] == BoxOf(rs[i]) && placed[q] == BoxOf(rs[j]);
    }
    forall i, k | 0 <= i < |rs| && 0 <= k < |older| && !IsEmpty(rs[i]) && rs[i].wasPacked == 1
      ensures Disjoint(BoxOf(rs[i]), older[k])
    {
      assert placed[k] == older[k] && Disjoint(placed[k], placed[slot[back[i]]]);
    }
  }

  lemma PlacedAreReported(done: seq<Rect>, slot: seq<int>, rs: seq<Rect>, order: seq<nat>, back: seq<nat>,
                          older: seq<Box>, placed: seq<Box>)
    requires Reports(done, slot, |older|, placed) && forall k :: |older| <= k < |placed| ==> k in slot
    requires Inverse(order, back) && |order| == |done| == |rs|
    requires forall i :: 0 <= i < |rs| ==> rs[i] == Flagged(done[back[i]])
    ensures AllReported(rs, older, placed)
  {
    forall k | |older| <= k < |placed| ensures IsReported(rs, placed[k]) {
      assert k in slot;
      var j :| 0 <= j < |slot| && slot[j] == k;
      SlotIsReported(done, slot, |older|, placed, j);
      assert rs[order[j]] == Flagged(done[back[order[j]]]) == Flagged(done[j]);
      assert Reported(rs[order[j]], placed[k]);
    }
  }

  lemma FlagsTell(done: seq<Rect>, back: seq<nat>, rs: seq<Rect>)
    requires |back| == |rs| && (forall i :: 0 <= i < |rs| ==> back[i] < |done|)
    requires forall i :: 0 <= i < |rs| ==> rs[i] == Flagged(done[back[i]])
    ensures forall i :: 0 <= i < |rs| ==> rs[i].wasPacked == if Refused(rs[i]) then 0 else 1
  {
  }

  lemma SlotIsReported(done: seq<Rect>, slot: seq<int>, first: nat, placed: seq<Box>, j: nat)
    requires Reports(done, slot, first, placed) && j < |slot| && slot[j] >= 0
    ensures slot[j] < |placed| && Reported(Flagged(done[j]), placed[slot[j]])
  {
  }

  /** What reaches the packer depends on the sizes alone. */
  lemma {:induction false} RequestsOfSameSizes(a: seq<Rect>, b: seq<Rect>)
    requires |a| == |b| && forall i :: 0 <= i < |a| ==> a[i].w == b[i].w && a[i].h == b[i].h
    ensures Requests(a) == Requests(b)
  {
    if a != [] {
      RequestsOfSameSizes(a[..|a| - 1], b[..|b| - 1]);
    }
  }

  /** Every rectangle has its index in its wasPacked field. */
  ghost predicate IsTagged(rs: seq<Rect>, rs': seq<Rect>) {
    |rs'| == |rs| && forall i :: 0 <= i < |rs| ==> rs'[i] == rs[i].(wasPacked := i)
  }

  /** The rectangles have got coordinates, and are the same otherwise. */
  ghost predicate IsPlaced(rs: seq<Rect>, rs': seq<Rect>) {
    |rs'| == |rs| && forall i :: 0 <= i < |rs| ==> rs'[i] == rs[i].(x := rs'[i].x, y := rs'[i].y)
  }

  /** Widths, heights and ids are as before, and every rectangle is where it was in the array. */
  ghost predicate IsFilledIn(rs: seq<Rect>, rs': seq<Rect>) {
    && |rs'| == |rs|
    && forall i :: 0 <= i < |rs| ==> rs'[i] == rs[i].(x := rs'[i].x, y := rs'[i].y, wasPacked := rs'[i].wasPacked)
  }

  ghost predicate IsFlagged(rs: seq<Rect>, rs': seq<Rect>) {
    |rs'| == |rs| && forall i :: 0 <= i < |rs| ==> rs'[i] == Flagged(rs[i])
  }

  /** What best fit asks for: every rectangle is narrow enough for the target. */
  ghost predicate Admissible(rs: seq<Rect>, align: int, width: int)
    requires align >= 1
  {
    forall r :: r in rs && !IsEmpty(r) ==> Aligned(r.w, align) <= width
  }

  lemma SortedIsAdmissible(rs: seq<Rect>, tagged: seq<Rect>, order: seq<nat>, align: int, width: int)
    requires align >= 1 && Admissible(rs, align, width) && IsTagged(rs, tagged) && Permutes(order, |rs|)
    ensures Admissible(Reordered(tagged, order), align, width)
  {
    hide Aligned;
    forall r | r in Reordered(tagged, order) && !IsEmpty(r) ensures Aligned(r.w, align) <= width {
      var i :| 0 <= i < |rs| && Reordered(tagged, order)[i] == r;
      assert rs[order[i]] in rs && r.w == rs[order[i]].w && r.h == rs[order[i]].h;
    }
  }

  /** Sorting does not change sizes. */
  lemma SortedSizes(rs: seq<Rect>, tagged: seq<Rect>, order: seq<nat>)
    requires IsTagged(rs, tagged) && Permutes(order, |rs|)
    ensures Requests(Reordered(tagged, order)) == Requests(Reordered(rs, order))
  {
    hide Requests;
    RequestsOfSameSizes(Reordered(tagged, order), Reordered(rs, order));
  }

  lemma PermutesParts(order: seq<nat>, n: nat)
    requires Permutes(order, n)
    ensures |order| == n && forall i :: 0 <= i < |order| ==> order[i] < n
  {
  }

  lemma SameLength(rs: seq<Rect>, tagged: seq<Rect>)
    requires IsTagged(rs, tagged)
    ensures |tagged| == |rs|
  {
  }

  /** After the first sort the rectangle at place k carries the tag order[k], placed or not; so the second
      sort finds what it has to compare. */
  lemma TagsTravel(rs: seq<Rect>, tagged: seq<Rect>, order: seq<nat>, done: seq<Rect>, back: seq<nat>)
    requires IsTagged(rs, tagged) && |back| == |rs| && Permutes(order, |back|) && Permutes(back, |back|)
    requires IsPlaced(Reordered(tagged, order), done) && SortsByTag(order, back)
    ensures |done| == |back|
    ensures forall i, j :: 0 <= i < j < |back| ==> done[back[i]].wasPacked <= done[back[j]].wasPacked
  {
    assert forall k :: 0 <= k < |back| ==> done[k].wasPacked == order[k];
  }

  /** Behind the second sort every rectangle is back in its place. */
  lemma BackInPlace(rs: seq<Rect>, tagged: seq<Rect>, order: seq<nat>, done: seq<Rect>, back: seq<nat>, end: seq<Rect>)
    requires IsTagged(rs, tagged) && |back| == |rs| && Permutes(order, |back|) && Permutes(back, |back|)
    requires IsPlaced(Reordered(tagged, order), done) && Inverse(order, back) && IsFlagged(Reordered(done, back), end)
    ensures |end| == |rs|
    ensures forall i :: 0 <= i < |rs| ==> end[i] == Flagged(done[back[i]])
    ensures IsFilledIn(rs, end)
  {
    forall i | 0 <= i < |rs| ensures end[i] == rs[i].(x := end[i].x, y := end[i].y, wasPacked := end[i].wasPacked) {
      assert end[i] == Flagged(done[back[i]]);
      assert done[back[i]] == tagged[order[back[i]]].(x := done[back[i]].x, y := done[back[i]].y);
    }
  }

  /** Remember every rectangle's index in its wasPacked field. */
  method Tag(rects: array<Rect>)
    modifies rects
    ensures IsTagged(old(rects[..]), rects[..])
  {
    var i := 0;
    while i < rects.Length
      invariant 0 <= i <= rects.Length
      invariant forall j :: 0 <= j < i ==> rects[j] == old(rects[j]).(wasPacked := j)
      invariant forall j :: i <= j < rects.Length ==> rects[j] == old(rects[j])
    {
      rects[i] := rects[i].(wasPacked := i);
      i := i + 1;
    }
  }

  /** The effect of one qsort call: the array in the given order. */
  method Sort(rects: array<Rect>, order: seq<nat>)
    requires |order| == rects.Length && forall i :: 0 <= i < |order| ==> order[i] < rects.Length
    modifies rects
    ensures rects[..] == Reordered(old(rects[..]), order)
  {
    var before := rects[..];
    forall k | 0 <= k < rects.Length {
      rects[k] := before[order[k]];
    }
  }

  /** The effect of the second qsort call, which compares the tags. */
  method SortBack(rects: array<Rect>, back: seq<nat>)
    requires Permutes(back, rects.Length)
    requires forall i, j :: 0 <= i < j < |back| ==> rects[..][back[i]].wasPacked <= rects[..][back[j]].wasPacked
    modifies rects
    ensures rects[..] == Reordered(old(rects[..]), back)
  {
    Sort(rects, back);
  }

  /** Turn the coordinates into the wasPacked flags. */
  method SetFlags(rects: array<Rect>)
    modifies rects
    ensures IsFlagged(old(rects[..]), rects[..])
  {
    var i := 0;
    while i < rects.Length
      invariant 0 <= i <= rects.Length
      invariant forall j :: 0 <= j < i ==> rects[j] == Flagged(old(rects[j]))
      invariant forall j :: i <= j < rects.Length ==> rects[j] == old(rects[j])
    {
      rects[i] := rects[i].(wasPacked := if !(rects[i].x == MAXVAL && rects[i].y == MAXVAL) then 1 else 0);
      i := i + 1;
    }
  }

  datatype Heuristic = BottomLeftFirst | BestFit

  class Node {
    var x: Coord
    var y: Coord
    var next: Node?

    constructor () {
      x, y, next := 0, 0, null;
    }
  }

  /** A pointer to one of the links of the active list: the head, or some node's next field. */
  datatype Link = NoLink | ToHead | ToNext(node: Node)

  datatype FindResult = FindResult(x: int, y: int, prevLink: Link)

  /** From head the nodes of ns follow one another, and the last one leads to target. */
  ghost predicate Leads(head: Node?, ns: seq<Node>, target: Node?)
    reads ns`next
  {
    && head == (if ns == [] then target else ns[0])
    && forall i {:trigger ns[i].next} :: 0 <= i < |ns| ==> ns[i].next == if i + 1 < |ns| then ns[i + 1] else target
  }

  /** The nodes of ns are the whole list at head. */
  ghost predicate Linked(head: Node?, ns: seq<Node>)
    reads ns`next
  {
    Leads(head, ns, null)
  }

  /** The nodes of ns are linked up, but that node j leads to another one. */
  ghost predicate LinkedBut(ns: seq<Node>, j: int, node: Node)
    reads ns`next
  {
    forall i {:trigger ns[i].next} :: 0 <= i < |ns| ==>
      ns[i].next == if i == j then node else if i + 1 < |ns| then ns[i + 1] else null
  }

  lemma HeadLeads(head: Node?, ns: seq<Node>)
    requires Leads(head, ns, null) && ns != []
    ensures head == ns[0]
  {
  }

  lemma LinkedNodes(head: Node?, ns: seq<Node>, node: Node, at: nat)
    requires Linked(head, ns) && at < |ns|
    ensures head == ns[0] && LinkedBut(ns, -1, node)
    ensures ns[at].next == (if at + 1 < |ns| then ns[at + 1] else null) && (at > 0 ==> ns[at - 1].next == ns[at])
  {
  }

  method Redirect(n: Node, node: Node, ghost ns: seq<Node>, ghost j: nat)
    requires j < |ns| && n == ns[j] && NoRepeats(ns) && LinkedBut(ns, -1, node)
    modifies n`next
    ensures LinkedBut(ns, j, node)
  {
    assert forall i :: 0 <= i < |ns| && i != j ==> ns[i] != n;
    n.next := node;
  }

  lemma CutBehind(head: Node?, ns: seq<Node>, keep: nat, node: Node)
    requires keep < |ns| && LinkedBut(ns, keep - 1, node) && head == if keep == 0 then node else ns[0]
    ensures Leads(head, ns[..keep], node) && Linked(ns[keep], ns[keep..])
  {
    forall i | 0 <= i < keep ensures ns[..keep][i].next == if i + 1 < keep then ns[..keep][i + 1] else node {
      assert ns[i].next == if i + 1 < keep then ns[i + 1] else node;
    }
    var rest := ns[keep..];
    forall i | 0 <= i < |rest| ensures rest[i].next == if i + 1 < |rest| then rest[i + 1] else null {
      assert ns[keep + i].next == if keep + i + 1 < |ns| then ns[keep + i + 1] else null;
    }
  }

  lemma LeadsConcat(head: Node?, a: seq<Node>, middle: Node?, b: seq<Node>)
    requires Leads(head, a, middle) && Linked(middle, b)
    ensures Linked(head, a + b)
  {
    var ns := a + b;
    forall i | 0 <= i < |ns| ensures ns[i].next == if i + 1 < |ns| then ns[i + 1] else null {
      if i < |a| {
        assert ns[i] == a[i];
        assert a[i].next == if i + 1 < |a| then a[i + 1] else middle;
      } else {
        assert ns[i] == b[i - |a|];
        assert b[i - |a|].next == if i - |a| + 1 < |b| then b[i - |a| + 1] else null;
      }
    }
  }

  ghost predicate NoRepeats(ns: seq<Node>) {
    forall i, j :: 0 <= i < j < |ns| ==> ns[i] != ns[j]
  }

  ghost predicate Apart(a: seq<Node>, b: seq<Node>) {
    forall n :: n in a ==> n !in b
  }

  lemma ExtrasApart(nodes: seq<Node>, extra0: Node, extra1: Node)
    requires extra0 != extra1 && extra0 !in nodes && extra1 !in nodes
    ensures NoRepeats([extra0, extra1]) && Apart([extra0, extra1], nodes)
  {
  }

  /** The pieces a splice works on share no node. */
  ghost predicate Pieces(node: Node, front: seq<Node>, rest: seq<Node>, tail: seq<Node>) {
    && node !in front && node !in rest && node !in tail
    && Apart(front, rest) && Apart(front, tail) && Apart(rest, tail) && Apart(tail, rest)
    && NoRepeats(front) && NoRepeats(rest) && NoRepeats(tail)
  }

  /** The two lists a splice leaves behind, made of nodes the context owns. */
  ghost predicate Joined(node: Node, front: seq<Node>, left: seq<Node>, fr: seq<Node>, nodes: set<Node>) {
    && NoRepeats(front + ([node] + left)) && Apart(front + ([node] + left), fr) && NoRepeats(fr)
    && node !in left && NoRepeats(left) && node !in front && Apart(front, left)
    && (forall n :: n in front + ([node] + left) ==> n in nodes)
    && (forall n :: n in fr ==> n in nodes)
  }

  lemma SplitPieces(active: seq<Node>, free: seq<Node>, keep: nat)
    requires NoRepeats(active) && NoRepeats(free) && Apart(active, free)
    requires keep <= |active| && |free| > 0
    ensures Pieces(free[0], active[..keep], active[keep..], free[1..])
    ensures free[0] !in active && Apart(free[1..], active)
  {
    assert forall n :: n in active[..keep] || n in active[keep..] ==> n in active;
    assert forall n :: n in free[1..] ==> n in free;
    assert free[0] in free;
  }

  /** Front, node, what remains of rest, and the enlarged free list again share no node. */
  lemma JoinPieces(node: Node, front: seq<Node>, rest: seq<Node>, tail: seq<Node>, r: nat, fr: seq<Node>, nodes: set<Node>)
    requires Pieces(node, front, rest, tail) && r <= |rest| && NoRepeats(fr)
    requires Within(fr, tail, rest, r)
    requires node in nodes && forall n :: n in front || n in rest || n in tail ==> n in nodes
    ensures Joined(node, front, rest[r..], fr, nodes)
  {
    var ns := front + ([node] + rest[r..]);
    assert forall n :: n in rest[..r] || n in rest[r..] ==> n in rest;
    forall i, j | 0 <= i < j < |ns| ensures ns[i] != ns[j] {
      if j > |front| {
        assert ns[j] == rest[r..][j - |front| - 1] == rest[j - |front| - 1 + r];
        if i < |front| {
          assert ns[i] in front && ns[j] in rest;
        }
      }
    }
    SplitApart(rest, r);
  }

  lemma SplitApart(rest: seq<Node>, r: nat)
    requires NoRepeats(rest) && r <= |rest|
    ensures Apart(rest[r..], rest[..r])
  {
  }

  /** The points of sky are the coordinates of ns. */
  ghost predicate Holds(ns: seq<Node>, sky: seq<Point>)
    reads ns`x, ns`y
  {
    && |ns| == |sky|
    && forall i :: 0 <= i < |ns| ==> ns[i].x == sky[i].x && ns[i].y == sky[i].y
  }

  lemma HoldsAt(ns: seq<Node>, sky: seq<Point>, i: nat)
    requires Holds(ns, sky) && i < |ns|
    ensures |ns| == |sky| && ns[i].x == sky[i].x && ns[i].y == sky[i].y
  {
  }

  /** Chain the caller's nodes into the initial free list. */
  method LinkUp(nodes: seq<Node>)
    requires |nodes| >= 1 && NoRepeats(nodes)
    modifies nodes
    ensures Linked(nodes[0], nodes)
  {
    var i := 0;
    while i < |nodes| - 1
      invariant 0 <= i < |nodes|
      invariant forall j {:trigger nodes[j].next} :: 0 <= j < i ==> nodes[j].next == nodes[j + 1]
    {
      nodes[i].next := nodes[i + 1];
      i := i + 1;
    }
    nodes[i].next := null;
  }

  lemma LinkedTail(head: Node?, ns: seq<Node>)
    requires Linked(head, ns) && ns != []
    ensures Linked(ns[0].next, ns[1..])
  {
  }

  /** The scan goes on where the next node starts before e, and ends where it does not. */
  lemma NextCovered(rest: seq<Node>, pts: seq<Point>, r: nat, e: nat)
    requires r < |rest| && Linked(rest[r], rest[r..]) && Holds(rest, pts)
    requires rest[r].next != null && rest[r].next.x <= e
    ensures r + 1 < |rest| && rest[r].next == rest[r + 1] && SkipCovered(pts, r, e) == SkipCovered(pts, r + 1, e)
  {
    LinkedNext(rest, r);
  }

  lemma LastCovered(rest: seq<Node>, pts: seq<Point>, r: nat, e: nat)
    requires r < |rest| && Linked(rest[r], rest[r..]) && Holds(rest, pts)
    requires rest[r].next == null || rest[r].next.x > e
    ensures SkipCovered(pts, r, e) == r
  {
    LinkedNext(rest, r);
  }

  lemma LinkedNext(rest: seq<Node>, r: nat)
    requires r < |rest| && Linked(rest[r], rest[r..])
    ensures rest[r].next == if r + 1 < |rest| then rest[r + 1] else null
  {
    assert rest[r..][0] == rest[r];
  }

  /** The free list fr' has only nodes of fr and the first r of rest. */
  ghost predicate Within(fr': seq<Node>, fr: seq<Node>, rest: seq<Node>, r: nat)
    requires r <= |rest|
  {
    forall n :: n in fr' ==> n in fr || n in rest[..r]
  }

  lemma ListStarts(first: Node, rest: seq<Node>, pts: seq<Point>, fr: seq<Node>)
    requires |rest| > 0 && Linked(first, rest) && Holds(rest, pts)
    ensures |rest| == |pts| && rest[0..] == rest && first == rest[0] && Within(fr, fr, rest, 0)
  {
  }

  lemma OneReleased(rest: seq<Node>, r: nat, fr: seq<Node>, fr': seq<Node>)
    requires r < |rest| && Within(fr', fr, rest, r)
    ensures Within([rest[r]] + fr', fr, rest, r + 1)
  {
    assert rest[..r + 1] == rest[..r] + [rest[r]];
  }

  lemma NotReleased(rest: seq<Node>, r: nat, fr: seq<Node>, fr': seq<Node>)
    requires r < |rest| && NoRepeats(rest) && Apart(rest, fr)
    requires Within(fr', fr, rest, r)
    ensures rest[r] !in fr'
  {
    assert rest[r] !in rest[..r];
  }

  lemma LinkedCons(node: Node, ns: seq<Node>)
    requires Linked(node.next, ns)
    ensures Linked(node, [node] + ns)
  {
    assert ([node] + ns)[1..] == ns;
    forall i | 0 <= i < |ns| ensures ([node] + ns)[i + 1] == ns[i] && ns[i].next == if i + 1 < |ns| then ns[i + 1] else null {
    }
  }

  lemma HoldsParts(ns: seq<Node>, sky: seq<Point>, keep: nat)
    requires Holds(ns, sky) && keep <= |ns|
    ensures |ns| == |sky|
    ensures Holds(ns[..keep], sky[..keep]) && Holds(ns[keep..], sky[keep..])
  {
  }

  /** The first point gives up its columns before e. */
  function Trim(pts: seq<Point>, e: nat): seq<Point>
    requires pts != []
  {
    [Point(if pts[0].x < e then e else pts[0].x, pts[0].y)] + pts[1..]
  }

  lemma KeptInside(sky: seq<Point>, at: nat, x: nat)
    requires InSegment(sky, at, x)
    ensures at + 1 < |sky| && Kept(sky, at, x) < |sky|
  {
  }

  lemma KeptCases(sky: seq<Point>, at: nat, x: nat)
    requires InSegment(sky, at, x)
    ensures at + 1 < |sky| && Kept(sky, at, x) == if sky[at].x < x then at + 1 else at
  {
  }

  lemma TrimmedSplice(sky: seq<Point>, x: nat, w: nat, top: nat, at: nat, keep: nat, r: nat)
    requires at + 1 < |sky| && keep == Kept(sky, at, x) && r == SkipCovered(sky[keep..], 0, x + w)
    ensures Splice(sky, at, x, w, top) == sky[..keep] + ([Point(x, top)] + Trim(sky[keep..][r..], x + w))
  {
    hide *;
    KeptIsInside(sky, at, x);
    SkipCoveredDrop(sky, keep, 0, x + w);
    var q := Point(if sky[keep + r].x < x + w then x + w else sky[keep + r].x, sky[keep + r].y);
    var a, c := sky[..keep], sky[keep + r + 1..];
    SpliceParts(sky, x, w, top, at, keep, keep + r, q, a, c);
    Tail(sky, keep, r);
    TrimParts(sky[keep..][r..], x + w, q, c);
  }

  lemma Tail(sky: seq<Point>, keep: nat, r: nat)
    requires keep + r < |sky|
    ensures sky[keep..][r..] != [] && sky[keep..][r..][0] == sky[keep + r] && sky[keep..][r..][1..] == sky[keep + r + 1..]
  {
  }

  lemma AlignIsPositive(width: nat, nodes: nat)
    requires width >= 1 && nodes >= 1
    ensures DefaultAlign(width, nodes) == (width + nodes - 1) / nodes >= 1
  {
  }

  /** The alignment does not matter to what has been placed. */
  lemma AlignIsFree(t: Packing.Target, t': Packing.Target, s: Packing.State)
    requires GoodState(t, s) && t' == t.(align := t'.align)
    ensures GoodState(t', s)
  {
  }

  lemma KeptIsInside(sky: seq<Point>, at: nat, x: nat)
    requires at + 1 < |sky|
    ensures Kept(sky, at, x) < |sky|
  {
  }

  lemma SpliceParts(sky: seq<Point>, x: nat, w: nat, top: nat, at: nat, keep: nat, r: nat, q: Point, a: seq<Point>, c: seq<Point>)
    requires at + 1 < |sky| && keep == Kept(sky, at, x) && keep < |sky| && r == SkipCovered(sky, keep, x + w)
    requires q == Point(if sky[r].x < x + w then x + w else sky[r].x, sky[r].y) && a == sky[..keep] && c == sky[r + 1..]
    ensures Splice(sky, at, x, w, top) == a + ([Point(x, top)] + ([q] + c))
  {
    hide SkipCovered;
    Regroup(a, Point(x, top), q, c);
  }

  lemma TrimParts(pts: seq<Point>, e: nat, q: Point, c: seq<Point>)
    requires pts != [] && q == Point(if pts[0].x < e then e else pts[0].x, pts[0].y) && c == pts[1..]
    ensures Trim(pts, e) == [q] + c
  {
  }

  lemma Regroup(a: seq<Point>, p: Point, q: Point, c: seq<Point>)
    ensures a + [p, q] + c == a + ([p] + ([q] + c))
  {
  }

  lemma HoldsOne(n: Node)
    ensures Holds([n], [Point(n.x, n.y)])
  {
  }

  lemma HoldsConcat(a: seq<Node>, p: seq<Point>, b: seq<Node>, q: seq<Point>)
    requires Holds(a, p) && Holds(b, q)
    ensures Holds(a + b, p + q)
  {
  }

  class Context {
    var width: int
    var height: int
    var align: int
    var heuristic: Heuristic
    var numNodes: int
    var activeHead: Node?
    var freeHead: Node?

    const extra0: Node
    const extra1: Node

    ghost var nodes: set<Node>
    ghost var active: seq<Node>
    ghost var free: seq<Node>
    ghost var sky: seq<Point>
    ghost var placed: seq<Box>

    ghost predicate Sized()
      reads this
    {
      1 <= width && 0 <= height && 1 <= numNodes && 1 <= align
    }

    ghost function Target(): Target
      requires Sized()
      reads this
    {
      Packing.Target(width, height, numNodes, align)
    }

    ghost function State(): State
      reads this
    {
      Packing.State(sky, |free|, placed)
    }

    ghost predicate Shaped()
      reads this, nodes`x, nodes`y, nodes`next
    {
      && (forall n :: n in active ==> n in nodes)
      && (forall n :: n in free ==> n in nodes)
      && Linked(activeHead, active)
      && Linked(freeHead, free)
      && NoRepeats(active)
      && NoRepeats(free)
      && Apart(active, free)
      && Holds(active, sky)
    }

    /** All a search needs: the active list is a skyline of the target. */
    ghost predicate Walkable()
      reads this, nodes`x, nodes`y, nodes`next
    {
      && (forall n :: n in active ==> n in nodes)
      && Linked(activeHead, active)
      && Holds(active, sky)
      && 1 <= width <= 0xffff && 0 <= height && IsSkyline(sky, width)
    }

    ghost predicate Valid()
      reads this, nodes`x, nodes`y, nodes`next
    {
      Shaped() && Sized() && GoodTarget(Target()) && GoodState(Target(), State())
    }

    /** A context before its first stbrp_init_target. */
    constructor ()
      ensures fresh(extra0) && fresh(extra1) && extra0 != extra1
    {
      extra0 := new Node();
      extra1 := new Node();
      activeHead, freeHead := null, null;
    }

    /** stbrp_init_target: the nodes array is the caller's; the two extra nodes are the context's. */
    method InitTarget(width: int, height: int, nodes: seq<Node>)
      requires 1 <= width <= 0xffff && 0 <= height <= 0xffff
      requires |nodes| >= 1 && NoRepeats(nodes)
      requires extra0 != extra1 && extra0 !in nodes && extra1 !in nodes
      modifies this, extra0, extra1, nodes
      ensures Valid()
      ensures this.width == width && this.height == height && heuristic == BottomLeftFirst
      ensures numNodes == |nodes| && align == DefaultAlign(width, |nodes|)
      ensures free == nodes && active == [extra0, extra1]
      ensures this.nodes == (set n | n in nodes) + {extra0, extra1}
      ensures State() == Start(Target())
    {
      hide *;
      ExtrasApart(nodes, extra0, extra1);
      LinkUp(nodes);
      InitExtra(width);
      SetFields(width, height, nodes);
      Relink([extra0, extra1], nodes, [Point(0, 0), Point(width, 65535)]);
      StartIsValid();
    }

    method SetFields(width: nat, height: nat, nodes: seq<Node>)
      requires |nodes| >= 1
      modifies this
      ensures this.width == width && this.height == height && heuristic == BottomLeftFirst
      ensures numNodes == |nodes| && align == DefaultAlign(width, |nodes|)
      ensures activeHead == extra0 && freeHead == nodes[0] && placed == []
      ensures this.nodes == (set n | n in nodes) + {extra0, extra1}
    {
      heuristic, freeHead, activeHead := BottomLeftFirst, nodes[0], extra0;
      this.width, this.height, numNodes, align := width, height, |nodes|, DefaultAlign(width, |nodes|);
      this.nodes, placed := (set n | n in nodes) + {extra0, extra1}, [];
    }

    lemma StartIsValid()
      requires Shaped() && 1 <= width <= 0xffff && 0 <= height <= 0xffff && numNodes >= 1
      requires align == DefaultAlign(width, numNodes) && |free| == numNodes && placed == []
      requires sky == [Point(0, 0), Point(width, 65535)]
      ensures Valid() && State() == Start(Target())
    {
      hide Shaped, GoodState, GoodTarget, DefaultAlign;
      StartIsGood(width, height, numNodes);
    }

    /** Record the lists the pointers now stand for. */
    ghost method Relink(active: seq<Node>, free: seq<Node>, sky: seq<Point>)
      requires Linked(activeHead, active) && Linked(freeHead, free) && Holds(active, sky)
      requires NoRepeats(active) && NoRepeats(free) && Apart(active, free)
      requires forall n :: n in active || n in free ==> n in nodes
      modifies this`active, this`free, this`sky
      ensures Shaped()
      ensures this.active == active && this.free == free && this.sky == sky
    {
      this.active, this.free, this.sky := active, free, sky;
    }

    /** Node 0 spans the full width, node 1 is the sentinel. */
    method InitExtra(width: int)
      requires 1 <= width <= 0xffff && extra0 != extra1
      modifies extra0, extra1
      ensures Linked(extra0, [extra0, extra1])
      ensures Holds([extra0, extra1], [Point(0, 0), Point(width, 65535)])
    {
      extra0.x := 0;
      extra0.y := 0;
      extra0.next := extra1;
      extra1.x := ToCoord(width);
      extra1.y := 65535;
      extra1.next := null;
    }

    /** stbrp_setup_allow_out_of_mem. */
    method SetupAllowOutOfMem(allow: bool)
      requires Valid()
      modifies this`align
      ensures Valid()
      ensures align == if allow then 1 else DefaultAlign(width, numNodes)
    {
      hide Linked, Leads, Holds, NoRepeats, Apart, GoodState;
      AlignIsPositive(width, numNodes);
      if allow {
        align := 1;
      } else {
        align := (width + numNodes - 1) / numNodes;
      }
      assert GoodState(Target(), State()) by { AlignIsFree(old(Target()), Target(), State()); }
    }

    /** stbrp_setup_heuristic. */
    method SetupHeuristic(h: Heuristic)
      requires Valid()
      modifies this`heuristic
      ensures Valid() && heuristic == h
    {
      heuristic := h;
    }

    /** Lines 301-319: one segment under the window. */
    method SeeSegment(node: Node, x0: nat, w: nat, minY0: nat, waste0: int, visited0: int)
      returns (minY: nat, waste: int, visited: int)
      requires node.next != null && minY0 <= 0xffff
      ensures Scan(minY, waste, visited) == ScanSegment(Scan(minY0, waste0, visited0), node.x, node.y, node.next.x, x0, w)
      ensures minY <= 0xffff
    {
      minY, waste, visited := minY0, waste0, visited0;
      if node.y > minY {
        waste := waste + visited * (node.y - minY);
        minY := node.y;
        if node.x < x0 {
          visited := visited + node.next.x - x0;
        } else {
          visited := visited + node.next.x - node.x;
        }
      } else {
        var under := node.next.x - node.x;
        if under + visited > w {
          under := w - visited;
        }
        waste := waste + under * (minY - node.y);
        visited := visited + under;
      }
    }

    /** stbrp__skyline_find_min_y, from the node at index i of the active list. */
    method FindMinY(first: Node, x0: int, w: int, ghost i: nat) returns (minY: int, waste: int)
      requires Walkable() && i < |active| && first == active[i]
      requires 0 <= x0 && 0 < w && InSegment(sky, i, x0) && x0 + w <= width
      ensures 0 <= minY <= 0xffff
      ensures ScanFrom(sky, i, x0, w, FreshScan).minY == minY
      ensures ScanFrom(sky, i, x0, w, FreshScan).waste == waste
      ensures minY == Peak(Profile(sky), x0, w)
      ensures x0 == sky[i].x ==> minY == PeakAt(sky, Profile(sky), w, i)
      ensures GroundLast(sky) ==> waste == Gap(Profile(sky), x0, x0 + w, minY)
    {
      hide Profile, Peak, Gap, ScanFrom, ScanSegment, Linked, Leads, Holds, Walkable, IsSkyline, GroundLast;
      WalkableParts();
      var node := first;
      var x1 := x0 + w;
      ghost var k := i;
      minY, waste := 0, 0;
      var visited := 0;
      NodeAt(i);
      while node.x < x1
        invariant 0 <= minY <= 0xffff && i <= k < |active| && node == active[k] && node.x == sky[k].x
        invariant ScanFrom(sky, k, x0, w, Scan(minY, waste, visited)) == ScanFrom(sky, i, x0, w, FreshScan)
        decreases |active| - k
      {
        NodeAt(k);
        ScanStep(sky, k, x0, w, Scan(minY, waste, visited));
        minY, waste, visited := SeeSegment(node, x0, w, minY, waste, visited);
        node := node.next;
        k := k + 1;
      }
      ScanStops(sky, k, x0, w, Scan(minY, waste, visited));
      ScanFindsPeak(sky, i, x0, w);
    }

    ghost function LinkTo(at: int): Link
      requires at < |active|
      reads this
    {
      if at < 0 then NoLink else if at == 0 then ToHead else ToNext(active[at - 1])
    }

    /** The first loop of stbrp__skyline_find_best_pos: windows that start on a node. */
    method BestOnNodes(aw: int, h: int)
      returns (best: Link, bestX: nat, bestY: nat, bestWaste: int, ghost at: int)
      requires Walkable() && 0 < aw && 0 < h
      ensures -1 <= at < |active| - 1 && best == LinkTo(at)
      ensures at >= 0 ==> bestX == sky[at].x
      ensures heuristic.BottomLeftFirst? ==> at == Lowest(sky, Profile(sky), aw)
      ensures heuristic.BottomLeftFirst? ==> best == LinkTo(Lowest(sky, Profile(sky), aw))
      ensures heuristic.BottomLeftFirst? && at >= 0 ==> bestY == PeakAt(sky, Profile(sky), aw, at)
      ensures heuristic.BestFit? ==>
        BestLeft(sky, aw, h, width, height, |sky|, at, Candidate(bestX, bestY, bestWaste))
    {
      hide Profile, ScanFrom, SearchSoFar, PeakAt, Lowest, BestLeft;
      ghost var hs, bl := Profile(sky), heuristic.BottomLeftFirst?;
      ProfileLength(sky);
      best, bestX, bestY, bestWaste, at := NoLink, 0, 0x4000_0000, 0x4000_0000, -1;
      var node, prev := activeHead, ToHead;
      ghost var k := 0;
      SearchStarts(bl, sky, hs, aw, h, width, height);
      while node.x + aw <= width
        invariant 0 <= k < |active| && node == active[k] && prev == LinkTo(k)
        invariant -1 <= at < k && best == LinkTo(at)
        invariant at >= 0 ==> bestX == sky[at].x
        invariant SearchSoFar(bl, sky, hs, aw, h, width, height, k, at, Candidate(bestX, bestY, bestWaste))
        decreases |active| - k
      {
        assert k + 1 < |sky|;
        var y, waste := FindMinY(node, node.x, aw, k);
        SearchStep(bl, sky, hs, aw, h, width, height, k, at, Candidate(bestX, bestY, bestWaste), Candidate(node.x, y, waste));
        if if heuristic.BottomLeftFirst? then y < bestY
           else y + h <= height && (y < bestY || (y == bestY && waste < bestWaste)) {
          bestX, bestY, bestWaste, best, at := node.x, y, waste, prev, k;
        }
        prev := ToNext(node);
        node := node.next;
        k := k + 1;
      }
      SearchEnds(bl, sky, hs, aw, h, width, height, k, at, Candidate(bestX, bestY, bestWaste));
    }

    /** Its second loop: windows that end on a node, tried when best fit is asked for. */
    method BestBeforeNodes(aw: int, h: int, best0: Link, bestX0: nat, bestY0: nat, bestWaste0: int, ghost at0: int)
      returns (best: Link, bestX: nat, bestY: nat, bestWaste: int, ghost at: int)
      requires Walkable() && 0 < aw <= width && 0 < h && -1 <= at0 < |active| - 1 && best0 == LinkTo(at0)
      requires BestLeft(sky, aw, h, width, height, |sky|, at0, Candidate(bestX0, bestY0, bestWaste0))
      ensures -1 <= at < |active| - 1 && best == LinkTo(at)
      ensures IsBestFit(sky, aw, h, width, height, at, Candidate(bestX, bestY, bestWaste))
    {
      hide Profile, ScanFrom, BestLeft, BestRight, Linked, Leads, Holds, Walkable, IsSkyline, Ascending, RightFits;
      WalkableParts();
      best, bestX, bestY, bestWaste, at := best0, bestX0, bestY0, bestWaste0, at0;
      var tail, node, prev := activeHead, activeHead, ToHead;
      ghost var t, k := 0, 0;
      tail, t := FirstAdmissible(aw);
      BestRightStart(sky, aw, h, width, height, t, at, Candidate(bestX, bestY, bestWaste));
      while tail != null
        invariant 0 <= t <= |active| && tail == if t < |active| then active[t] else null
        invariant t < |active| ==> aw <= sky[t].x
        invariant 0 <= k < |active| - 1 && node == active[k] && prev == LinkTo(k)
        invariant t < |active| ==> sky[k].x <= sky[t].x - aw
        invariant -1 <= at < |active| - 1 && best == LinkTo(at)
        invariant BestRight(sky, aw, h, width, height, t, at, Candidate(bestX, bestY, bestWaste))
        decreases |active| - t
      {
        NodeAt(t);
        var xpos := tail.x - aw;
        node, prev, k := Advance(node, prev, xpos, k);
        var y, waste := FindMinY(node, xpos, aw, k);
        BestRightStep(sky, aw, h, width, height, t, k, at, Candidate(bestX, bestY, bestWaste));
        if y + h < height {
          if y <= bestY {
            if y < bestY || waste < bestWaste || (waste == bestWaste && xpos < bestX) {
              bestX, bestY, bestWaste, best, at := xpos, y, waste, prev, k;
            }
          }
        }
        tail := tail.next;
        t := t + 1;
      }
    }

    /** Lines 394-395: the first node a window can end on. */
    method FirstAdmissible(aw: int) returns (tail: Node, ghost t: nat)
      requires Walkable() && aw <= width
      ensures t < |active| && tail == active[t] && |active| == |sky|
      ensures aw <= sky[t].x && forall u :: 0 <= u < t ==> sky[u].x < aw
    {
      hide Linked, Leads, Holds, Walkable, IsSkyline;
      WalkableParts();
      tail, t := activeHead, 0;
      NodeAt(0);
      while tail.x < aw
        invariant 0 <= t < |active| && tail == active[t] && tail.x == sky[t].x
        invariant forall u :: 0 <= u < t ==> sky[u].x < aw
        decreases |active| - t
      {
        NodeAt(t);
        tail := tail.next;
        t := t + 1;
        NodeAt(t);
      }
    }

    /** Lines 401-404: on to the segment that holds xpos. */
    method Advance(node0: Node, prev0: Link, xpos: int, ghost k0: nat) returns (node: Node, prev: Link, ghost k: nat)
      requires Walkable() && k0 < |active| - 1 && node0 == active[k0] && prev0 == LinkTo(k0)
      requires sky[k0].x <= xpos < width
      ensures k0 <= k < |active| - 1 && node == active[k] && prev == LinkTo(k) && InSegment(sky, k, xpos)
    {
      hide Linked, Leads, Holds, Walkable, IsSkyline;
      WalkableParts();
      node, prev, k := node0, prev0, k0;
      NodeAt(k);
      while node.next.x <= xpos
        invariant k0 <= k < |active| - 1 && node == active[k] && prev == LinkTo(k)
        invariant node.next == active[k + 1] && active[k + 1].x == sky[k + 1].x
        invariant sky[k].x <= xpos
        decreases |active| - k
      {
        prev := ToNext(node);
        node := node.next;
        k := k + 1;
        NodeAt(k);
      }
    }

    /** Walking over the list is walking over the skyline. */
    lemma WalkableParts()
      requires Walkable()
      ensures |active| == |sky| >= 2 && activeHead == active[0] && sky[0].x == 0 && sky[|sky| - 1].x == width
      ensures |Profile(sky)| == width && Ascending(sky) && 1 <= width <= 0xffff && 0 <= height
      ensures LinkTo(0) == ToHead
    {
      hide Leads;
      assert Leads(activeHead, active, null);
      HeadLeads(activeHead, active);
    }

    lemma NodeAt(k: nat)
      requires Walkable() && k < |active|
      ensures |active| == |sky| && active[k].x == sky[k].x && active[k].y == sky[k].y && sky[k].x <= width
      ensures active[k].next == if k + 1 < |active| then active[k + 1] else null
      ensures k + 1 < |active| ==> active[k + 1].x == sky[k + 1].x && active[k].x < active[k + 1].x
      ensures k + 1 < |active| ==> LinkTo(k + 1) == ToNext(active[k])
    {
    }

    /** stbrp__skyline_find_best_pos. */
    method FindBestPos(w: int, h: int) returns (fr: FindResult, ghost at: int, ghost best: Candidate)
      requires Walkable() && Sized() && 0 < w && 0 < h
      requires heuristic.BestFit? ==> Aligned(w, align) <= width
      ensures -1 <= at < |active| - 1 && fr.prevLink == LinkTo(at)
      ensures at >= 0 ==> best.x == fr.x && best.y == fr.y
      ensures heuristic.BottomLeftFirst? ==> at == Lowest(sky, Profile(sky), Aligned(w, align))
      ensures heuristic.BottomLeftFirst? ==> fr.prevLink == LinkTo(Lowest(sky, Profile(sky), Aligned(w, align)))
      ensures heuristic.BottomLeftFirst? && at >= 0 ==>
        fr.x == sky[at].x && fr.y == PeakAt(sky, Profile(sky), Aligned(w, align), at)
      ensures heuristic.BestFit? ==> IsBestFit(sky, Aligned(w, align), h, width, height, at, best)
    {
      var aw := w + align - 1;
      aw := aw - aw % align;
      assert aw == Aligned(w, align);
      AlignedBounds(w, align);
      var link, x, y, waste, i := BestOnNodes(aw, h);
      best, at := Candidate(x, y, waste), i;
      if heuristic.BestFit? {
        link, x, y, waste, i := BestBeforeNodes(aw, h, link, x, y, waste, i);
        best, at := Candidate(x, y, waste), i;
      }
      fr := FindResult(x, y, link);
    }

    /** Put node where link points, or behind the node there if that one starts left of x. */
    method LinkIn(link: Link, node: Node, x: int, ghost at: nat) returns (cur: Node)
      requires Walkable() && 0 <= x && InSegment(sky, at, x) && at < |active| && link == LinkTo(at)
      requires NoRepeats(active) && node !in active
      modifies this`activeHead, active`next
      ensures Leads(activeHead, active[..Kept(sky, at, x)], node)
      ensures cur == active[Kept(sky, at, x)] && Linked(cur, active[Kept(sky, at, x)..])
      ensures Holds(active, sky)
    {
      hide *;
      ghost var ns := active;
      WalkableLists();
      LinkCases(at);
      KeptCases(sky, at, x);
      HoldsAt(ns, sky, at);
      LinkedNodes(activeHead, ns, node, at);
      cur := if link.ToHead? then activeHead else link.node.next;
      if cur.x < x {
        var next := cur.next;
        Redirect(cur, node, ns, at);
        CutBehind(activeHead, ns, at + 1, node);
        cur := next;
      } else {
        SetLink(link, node, at);
        CutBehind(activeHead, ns, at, node);
      }
    }

    /** *link = node. */
    method SetLink(link: Link, node: Node, ghost at: nat)
      requires at < |active| && link == LinkTo(at) && NoRepeats(active) && LinkedBut(active, -1, node)
      requires activeHead == active[0]
      modifies this`activeHead, active`next
      ensures LinkedBut(active, at - 1, node) && activeHead == if at == 0 then node else active[0]
    {
      hide LinkedBut, NoRepeats;
      if link.ToHead? {
        activeHead := node;
      } else {
        Redirect(link.node, node, active, at - 1);
      }
    }

    lemma LinkCases(at: nat)
      requires at < |active|
      ensures LinkTo(at) == if at == 0 then ToHead else ToNext(active[at - 1])
    {
    }

    lemma WalkableLists()
      requires Walkable()
      ensures Linked(activeHead, active) && Holds(active, sky) && |active| == |sky|
    {
    }

    /** Move the nodes that the columns before e swallow from the list at first to the free list. */
    method ReleaseCovered(first: Node, e: int, ghost rest: seq<Node>, ghost pts: seq<Point>, ghost fr: seq<Node>)
      returns (cur: Node, ghost r: nat, ghost fr': seq<Node>)
      requires 0 <= e && |rest| > 0 && Linked(first, rest) && Holds(rest, pts)
      requires Linked(freeHead, fr) && NoRepeats(rest) && NoRepeats(fr) && Apart(rest, fr)
      modifies this`freeHead, rest`next
      ensures r == SkipCovered(pts, 0, e) && cur == rest[r] && Linked(cur, rest[r..]) && Holds(rest, pts)
      ensures Linked(freeHead, fr') && NoRepeats(fr') && |fr'| == |fr| + r
      ensures Within(fr', fr, rest, r)
    {
      hide Linked, Leads, Holds, NoRepeats, SkipCovered, Apart, Within;
      cur, r, fr' := first, 0, fr;
      ListStarts(first, rest, pts, fr);
      while cur.next != null && cur.next.x <= e
        invariant r < |rest| && cur == rest[r] && Linked(cur, rest[r..]) && Holds(rest, pts)
        invariant SkipCovered(pts, r, e) == SkipCovered(pts, 0, e)
        invariant Linked(freeHead, fr') && NoRepeats(fr') && |fr'| == |fr| + r
        invariant Within(fr', fr, rest, r)
        decreases |rest| - r
      {
        NextCovered(rest, pts, r, e);
        NotReleased(rest, r, fr, fr');
        OneReleased(rest, r, fr, fr');
        cur, fr' := Release(cur, rest, r, fr');
        r := r + 1;
      }
      LastCovered(rest, pts, r, e);
    }

    /** The node leaves the list for the free list. */
    method Release(cur: Node, ghost rest: seq<Node>, ghost r: nat, ghost fr: seq<Node>) returns (next: Node, ghost fr': seq<Node>)
      requires r + 1 < |rest| && cur == rest[r] && Linked(cur, rest[r..]) && NoRepeats(rest)
      requires Linked(freeHead, fr) && NoRepeats(fr) && cur !in fr
      modifies this`freeHead, cur`next
      ensures next == rest[r + 1] && fr' == [cur] + fr
      ensures Linked(freeHead, fr') && NoRepeats(fr') && Linked(next, rest[r + 1..])
    {
      LinkedTail(cur, rest[r..]);
      assert rest[r..][1..] == rest[r + 1..];
      assert cur !in rest[r + 1..];
      next := cur.next;
      cur.next := freeHead;
      freeHead := cur;
      fr' := [cur] + fr;
      LinkedCons(cur, fr);
    }

    /** Take a free node for the rectangle and link it in at its place. */
    method Begin(link: Link, x: int, top: int, ghost at: nat, ghost keep: nat) returns (node: Node, cur: Node)
      requires Shaped() && Walkable() && |free| > 0 && 0 <= x <= 0xffff && 0 <= top <= 0xffff
      requires InSegment(sky, at, x) && at < |active| && link == LinkTo(at) && keep == Kept(sky, at, x)
      modifies this`activeHead, this`freeHead, nodes
      ensures node == free[0] && node in nodes && node.x == x && node.y == top
      ensures forall n :: n in active[..keep] || n in active[keep..] || n in free[1..] ==> n in nodes
      ensures Pieces(node, active[..keep], active[keep..], free[1..])
      ensures Leads(activeHead, active[..keep], node) && Linked(cur, active[keep..]) && Linked(freeHead, free[1..])
      ensures Holds(active[..keep], sky[..keep]) && Holds(active[keep..], sky[keep..])
    {
      hide Linked, Leads, Holds, IsSkyline, NoRepeats;
      ghost var tail := free[1..];
      SplitPieces(active, free, keep);
      node := TakeFree();
      node.x := ToCoord(x);
      node.y := ToCoord(top);
      label Taken:
      cur := LinkIn(link, node, x, at);
      assert forall n :: n in tail ==> n !in active;
      assert forall n :: n in tail ==> n.next == old@Taken(n.next);
      HoldsParts(active, sky, keep);
    }

    /** Stitch the list back in behind the new node. */
    method Finish(node: Node, cur: Node, e: int, ghost front: seq<Node>, ghost left: seq<Node>, ghost fr: seq<Node>,
                  ghost before: seq<Point>, ghost p: Point, ghost after: seq<Point>)
      requires 0 <= e <= 0xffff && left != [] && cur == left[0] && |after| == |left|
      requires p == Point(node.x, node.y)
      requires Leads(activeHead, front, node) && Linked(cur, left) && Linked(freeHead, fr)
      requires Holds(front, before) && Holds(left, after) && Joined(node, front, left, fr, nodes)
      modifies this`active, this`free, this`sky, node`next, cur`x
      ensures Shaped()
      ensures active == front + ([node] + left) && free == fr
      ensures sky == before + ([p] + Trim(after, e))
    {
      hide Linked, Leads, Holds, NoRepeats;
      Stitch(node, cur, e, left, after);
      assert forall n :: n in front ==> n.next == old(n.next) && n.x == old(n.x) && n.y == old(n.y);
      assert node in front + ([node] + left);
      assert forall n :: n in fr ==> n.next == old(n.next);
      LeadsConcat(activeHead, front, node, [node] + left);
      HoldsOne(node);
      HoldsConcat([node], [p], left, Trim(after, e));
      HoldsConcat(front, before, [node] + left, [p] + Trim(after, e));
      Relink(front + ([node] + left), fr, before + ([p] + Trim(after, e)));
    }

    /** Free the nodes behind the new one that its columns swallow. */
    method Cover(node: Node, first: Node, e: int, ghost front: seq<Node>, ghost rest: seq<Node>, ghost tail: seq<Node>,
                 ghost before: seq<Point>, ghost pts: seq<Point>)
      returns (cur: Node, ghost r: nat, ghost fr: seq<Node>)
      requires 0 <= e && rest != [] && Pieces(node, front, rest, tail)
      requires node in nodes && forall n :: n in front || n in rest || n in tail ==> n in nodes
      requires Leads(activeHead, front, node) && Linked(first, rest) && Linked(freeHead, tail)
      requires Holds(front, before) && Holds(rest, pts)
      modifies this`freeHead, rest`next
      ensures r < |rest| == |pts| && r == SkipCovered(pts, 0, e) && cur == rest[r] && |fr| == |tail| + r
      ensures Leads(activeHead, front, node) && Linked(cur, rest[r..]) && Linked(freeHead, fr)
      ensures Holds(front, before) && Holds(rest[r..], pts[r..]) && Joined(node, front, rest[r..], fr, nodes)
    {
      hide Linked, Leads, Holds, NoRepeats, SkipCovered;
      assert |rest| == |pts| by { HoldsParts(rest, pts, 0); }
      cur, r, fr := ReleaseCovered(first, e, rest, pts, tail);
      assert forall n :: n in front ==> n !in rest;
      assert forall n :: n in front ==> n.next == old(n.next);
      HoldsParts(rest, pts, r);
      JoinPieces(node, front, rest, tail, r, fr, nodes);
    }

    /** Both: what the columns before e swallow goes, and what is left comes behind the new node. */
    method CoverAndFinish(node: Node, first: Node, e: int, ghost front: seq<Node>, ghost rest: seq<Node>, ghost tail: seq<Node>,
                          ghost before: seq<Point>, ghost pts: seq<Point>)
      returns (ghost r: nat)
      requires 0 <= e <= 0xffff && rest != [] && Pieces(node, front, rest, tail)
      requires node in nodes && forall n :: n in front || n in rest || n in tail ==> n in nodes
      requires Leads(activeHead, front, node) && Linked(first, rest) && Linked(freeHead, tail)
      requires Holds(front, before) && Holds(rest, pts)
      modifies this`activeHead, this`freeHead, this`active, this`free, this`sky, nodes
      ensures Shaped() && r < |rest| == |pts| && r == SkipCovered(pts, 0, e)
      ensures |active| == |front| + 1 + |rest| - r && |free| == |tail| + r
      ensures sky == before + ([old(Point(node.x, node.y))] + Trim(pts[r..], e))
    {
      hide Linked, Leads, Holds, IsSkyline, NoRepeats, SkipCovered, Pieces, Joined, Apart, Trim, Shaped, Walkable;
      ghost var p, fr := Point(node.x, node.y), [];
      var cur;
      cur, r, fr := Cover(node, first, e, front, rest, tail, before, pts);
      Finish(node, cur, e, front, rest[r..], fr, before, p, pts[r..]);
    }

    /** The splice of stbrp__skyline_pack_rectangle: a free node takes the rectangle's place in the
        active list, the nodes it covers go to the free list, and the next one is trimmed. */
    method SpliceIn(link: Link, x: int, w: int, top: int, ghost at: nat)
      requires Shaped() && Walkable() && |free| > 0
      requires 0 <= x && InSegment(sky, at, x) && at < |active| && link == LinkTo(at)
      requires 0 < w && x + w <= width && 0 <= top <= 0xffff
      modifies this`activeHead, this`freeHead, this`active, this`free, this`sky, nodes
      ensures Shaped() && sky == Splice(old(sky), at, x, w, top)
      ensures |active| + |free| == old(|active| + |free|)
    {
      hide *;
      Lengths();
      KeptInside(sky, at, x);
      ghost var keep, S, n, f := Kept(sky, at, x), sky, |active|, |free|;
      ghost var front, rest, tail := active[..keep], active[keep..], free[1..];
      ghost var before, pts := S[..keep], S[keep..];
      var node, cur := Begin(link, x, top, at, keep);
      ghost var r := CoverAndFinish(node, cur, x + w, front, rest, tail, before, pts);
      TrimmedSplice(S, x, w, top, at, keep, r);
    }

    lemma Lengths()
      requires Shaped() && Walkable()
      ensures |active| == |sky| && width <= 0xffff
    {
    }

    /** Pop the free list; the lists keep the rest. */
    method TakeFree() returns (node: Node)
      requires Linked(freeHead, free) && |free| > 0
      modifies this`freeHead
      ensures node == free[0] && Linked(freeHead, free[1..])
    {
      node := freeHead;
      freeHead := node.next;
      LinkedTail(node, free);
    }

    /** node->next = cur, and cur gives up its columns before e. */
    method Stitch(node: Node, cur: Node, e: int, ghost rest: seq<Node>, ghost pts: seq<Point>)
      requires 0 <= e <= 0xffff && rest != [] && Linked(cur, rest) && Holds(rest, pts)
      requires node !in rest && NoRepeats(rest)
      modifies node`next, cur`x
      ensures Linked(node, [node] + rest) && node.x == old(node.x) && node.y == old(node.y)
      ensures Holds(rest, Trim(pts, e))
    {
      node.next := cur;
      if cur.x < e {
        cur.x := ToCoord(e);
      }
      LinkedCons(node, rest);
    }

    /** What the search came back with is safe to act on. */
    lemma FoundRests(w: int, h: int, at: int, best: Candidate)
      requires Valid() && 0 < w && 0 < h && -1 <= at < |active| - 1
      requires heuristic.BottomLeftFirst? ==> at == Lowest(sky, Profile(sky), Aligned(w, align))
      requires heuristic.BottomLeftFirst? && at >= 0 ==>
        best.x == sky[at].x && best.y == PeakAt(sky, Profile(sky), Aligned(w, align), at)
      requires heuristic.BestFit? ==> IsBestFit(sky, Aligned(w, align), h, width, height, at, best)
      ensures at >= 0 ==> InSegment(sky, at, best.x) && best.x + w <= width
      ensures GoodState(Target(), Outcome(Target(), State(), at, best.x, best.y, w, h))
      ensures heuristic.BottomLeftFirst? ==>
        Pack(Target(), State(), w, h) == Outcome(Target(), State(), at, best.x, best.y, w, h)
      ensures TurnOf(Target(), State(), Outcome(Target(), State(), at, best.x, best.y, w, h), w, h,
                     at >= 0 && best.y + h <= height && free != [], best.x, best.y)
    {
      hide Splice, Covers, Profile, Leads, Linked, Holds, NoRepeats, Apart, NoRoom, LowestAt, Extent, TurnOf;
      if heuristic.BottomLeftFirst? {
        ChoiceRests(Target(), sky, w, h);
        ChoiceIsLowest(Target(), sky, w, h);
      } else {
        BestFitRests(Target(), sky, w, h, at, best);
        BestFitIsLowestAt(Target(), sky, w, h, at, best);
      }
      OutcomeIsGood(Target(), State(), at, best.x, best.y, w, h);
      OutcomeTurns(Target(), State(), at, best.x, best.y, w, h);
    }

    /** freeHead is NULL for an empty free list only. */
    lemma HeadIsNull()
      requires Shaped()
      ensures freeHead == null <==> free == []
    {
    }

    lemma NoLinkIsNone(at: int)
      requires -1 <= at < |active|
      ensures LinkTo(at).NoLink? <==> at < 0
    {
    }

    /** Place the rectangle and record it. */
    method Commit(link: Link, x: nat, y: nat, w: int, h: int, ghost at: nat)
      requires Shaped() && Walkable() && Sized() && GoodTarget(Target()) && |free| > 0
      requires InSegment(sky, at, x) && at < |active| && link == LinkTo(at)
      requires 0 < w && 0 < h && x + w <= width && y + h <= height
      modifies this`activeHead, this`freeHead, this`active, this`free, this`sky, this`placed, nodes
      ensures Shaped() && State() == Outcome(Target(), old(State()), at, x, y, w, h)
      ensures placed == old(placed) + [Box(x, y, w, h)]
    {
      hide Splice, Leads, NoRepeats, Apart, IsSkyline;
      ghost var t, before := Target(), State();
      SpliceIn(link, x, w, y + h, at);
      placed := placed + [Box(x, y, w, h)];
      OutcomePlaced(t, before, at, x, y, w, h, State());
    }

    /** What the invariant comes to. */
    lemma ValidParts()
      requires Valid()
      ensures Shaped() && Walkable() && Sized() && GoodTarget(Target()) && GoodState(Target(), State())
      ensures |active| == |sky| >= 2 && sky[0].x == 0 && height >= 0 && align >= 1
      ensures |Profile(sky)| == width && Covers(Profile(sky), height, placed)
    {
      hide Linked, Leads, Covers, NoRepeats, Apart, GroundLast;
    }

    lemma StateParts()
      ensures State().placed == placed && State().sky == sky
    {
    }

    /** Act on what the search found: bail out, or place the rectangle. */
    method Act(found: FindResult, w: int, h: int, ghost at: int, ghost x: nat, ghost y: nat) returns (res: FindResult)
      requires Valid() && 0 < w && 0 < h && -1 <= at < |active| - 1 && found.prevLink == LinkTo(at)
      requires at >= 0 ==> found.x == x && found.y == y && InSegment(sky, at, x) && x + w <= width
      requires GoodState(Target(), Outcome(Target(), State(), at, x, y, w, h))
      modifies this`activeHead, this`freeHead, this`active, this`free, this`sky, this`placed, nodes
      ensures Valid() && State() == Outcome(old(Target()), old(State()), at, x, y, w, h)
      ensures res.prevLink.NoLink? <==> at < 0 || y + h > height || old(free) == []
      ensures res.x == found.x && res.y == found.y
      ensures res.prevLink.NoLink? ==> State() == old(State())
      ensures !res.prevLink.NoLink? ==> placed == old(placed) + [Box(x, y, w, h)]
    {
      hide Splice, Covers, Profile, Linked, Leads, Holds, NoRepeats, Apart, Outcome;
      ghost var t, before := Target(), State();
      HeadIsNull();
      if found.prevLink.NoLink? || found.y + h > height || freeHead == null {
        OutcomeRefused(t, before, at, x, y, w, h);
        res := found.(prevLink := NoLink);
      } else {
        Commit(found.prevLink, found.x, found.y, w, h, at);
        res := found;
      }
    }

    /** stbrp__skyline_pack_rectangle: the state becomes the outcome of the search, which under the
        default heuristic makes it the state the model of the run calls Pack. */
    method PackRectangle(w: int, h: int) returns (res: FindResult, ghost at: int, ghost best: Candidate)
      requires Valid() && 0 < w && 0 < h
      requires heuristic.BestFit? ==> Aligned(w, align) <= width
      modifies this`activeHead, this`freeHead, this`active, this`free, this`sky, this`placed, nodes
      ensures Valid() && -1 <= at < |old(sky)| - 1
      ensures State() == Outcome(Target(), old(State()), at, best.x, best.y, w, h)
      ensures res.prevLink.NoLink? <==> at < 0 || best.y + h > height || old(free) == []
      ensures at >= 0 ==> best.x == res.x && best.y == res.y
      ensures res.prevLink.NoLink? ==> State() == old(State())
      ensures !res.prevLink.NoLink? ==>
        && 0 <= res.x <= width - w && 0 <= res.y <= height - h
        && placed == old(placed) + [Box(res.x, res.y, w, h)]
      ensures heuristic.BottomLeftFirst? ==> State() == Pack(Target(), old(State()), w, h)
      ensures heuristic.BestFit? ==> IsBestFit(old(sky), Aligned(w, align), h, width, height, at, best)
      ensures TurnOf(Target(), old(State()), State(), w, h, !res.prevLink.NoLink?, res.x, res.y)
    {
      hide TurnOf, Outcome, Pack, Aligned, IsBestFit, Profile, Lowest, PeakAt, InSegment, Covers, Leads, Linked, Holds, GoodState,
        GoodTarget, Shaped, Walkable, Valid;
      ValidParts();
      res, at, best := FindBestPos(w, h);
      FoundRests(w, h, at, best);
      NoLinkIsNone(at);
      ghost var t, before, found := Target(), State(), res;
      res := Act(res, w, h, at, best.x, best.y);
      TurnIsFree(t, before, State(), w, h, !res.prevLink.NoLink?, best.x, best.y, res.x, res.y);
    }

    /** One turn of the placement loop of stbrp_pack_rects. */
    method PlaceOne(r: Rect) returns (r': Rect)
      requires Valid() && (heuristic.BestFit? && !IsEmpty(r) ==> Aligned(r.w, align) <= width)
      modifies this`activeHead, this`freeHead, this`active, this`free, this`sky, this`placed, nodes
      ensures Valid() && r' == r.(x := r'.x, y := r'.y)
      ensures IsEmpty(r) ==> State() == old(State())
      ensures heuristic.BottomLeftFirst? && !IsEmpty(r) ==> State() == Pack(Target(), old(State()), r.w, r.h)
      ensures Turn(Target(), old(State()), State(), r')
    {
      hide TurnOf, Turn, Pack, Aligned, IsBestFit, Profile, Leads, Linked, Holds, Splice, Outcome, Covers, IsSkyline, ToCoord,
        GoodState, GoodTarget, Shaped, Walkable, Valid, BoxOf;
      ValidParts();
      ghost var t, before := Target(), State();
      if r.w == 0 || r.h == 0 {
        r' := r.(x := 0, y := 0);
        EmptyTurn(t, before, r');
      } else {
        var fr, at, best := PackRectangle(r.w, r.h);
        if !fr.prevLink.NoLink? {
          TurnBounds(t);
          CoordFits(fr.x);
          CoordFits(fr.y);
          r' := r.(x := ToCoord(fr.x), y := ToCoord(fr.y));
          PackedTurn(t, before, State(), r');
        } else {
          r' := r.(x := MAXVAL, y := MAXVAL);
          RefusedTurn(t, before, State(), fr.x, fr.y, r');
        }
      }
    }

    /** The placement loop of stbrp_pack_rects. */
    method PlaceAll(rects: array<Rect>) returns (ghost trail: seq<State>)
      requires Valid() && (heuristic.BestFit? ==> Admissible(rects[..], align, width))
      modifies this`activeHead, this`freeHead, this`active, this`free, this`sky, this`placed, nodes, rects
      ensures Valid() && IsPlaced(old(rects[..]), rects[..])
      ensures Trail(Target(), old(State()), trail, State(), rects[..])
      ensures heuristic.BottomLeftFirst? ==>
        State() == RunFrom(Target(), old(State()), Requests(old(rects[..])))
    {
      hide RunFrom, Requests, Covers, Profile, IsSkyline, Leads, Holds, Splice, Aligned, Pack, Shaped, GoodState, GoodTarget, Trail, Turn, Refused, BoxOf;
      ghost var start, before := State(), rects[..];
      RunOverNothing(Target(), start, before);
      trail := [State()];
      NoTurn(Target(), State());
      var i := 0;
      while i < rects.Length
        invariant 0 <= i <= rects.Length && Valid()
        invariant unchanged(`width) && unchanged(`height) && unchanged(`align) && unchanged(`heuristic)
        invariant unchanged(`numNodes) && unchanged(`nodes)
        invariant forall j :: 0 <= j < i ==> rects[j] == before[j].(x := rects[j].x, y := rects[j].y)
        invariant forall j :: i <= j < rects.Length ==> rects[j] == before[j]
        invariant Trail(Target(), start, trail, State(), rects[..i])
        invariant heuristic.BottomLeftFirst? ==> State() == RunFrom(Target(), start, Requests(before[..i]))
      {
        var r := rects[i];
        assert r == before[i] && r in before;
        RunOverRects(Target(), start, before, i);
        ghost var here, done := State(), rects[..i];
        var r' := PlaceOne(r);
        OneTurnMore(Target(), start, trail, here, done, State(), r');
        rects[i] := r';
        assert rects[..i + 1] == done + [r'];
        trail := trail + [State()];
        i := i + 1;
      }
      assert before[..i] == before && rects[..i] == rects[..];
    }

    /** stbrp_pack_rects, for any order the first sort may leave the rectangles in, and any the
        second one may, provided that it sorts by the indices stored in wasPacked. */
    method PackRects(rects: array<Rect>, order: seq<nat>, back: seq<nat>) returns (ghost trail: seq<State>)
      requires Valid() && |back| == rects.Length && Permutes(order, |back|) && Permutes(back, |back|)
      requires SortsByTag(order, back) && (heuristic.BestFit? ==> Admissible(rects[..], align, width))
      modifies this`activeHead, this`freeHead, this`active, this`free, this`sky, this`placed, nodes, rects
      ensures Valid() && old(placed) <= placed
      ensures IsFilledIn(old(rects[..]), rects[..])
      ensures Truthful(rects[..], width, height, old(placed))
      ensures AllReported(rects[..], old(placed), placed)
      ensures |order| == rects.Length && Trail(Target(), old(State()), trail, State(), Reordered(rects[..], order))
      ensures RefusedForCause(Target(), trail, State(), rects[..], back)
      ensures heuristic.BottomLeftFirst? ==>
        State() == RunFrom(Target(), old(State()), Requests(Reordered(old(rects[..]), order)))
    {
      hide *;
      PermutesParts(order, |back|);
      PermutesParts(back, |back|);
      SortByTagIsInverse(order, back);
      ValidParts();
      StateParts();
      ghost var start := rects[..];
      Tag(rects);
      ghost var tagged := rects[..];
      SameLength(start, tagged);
      Sort(rects, order);
      SortedSizes(start, tagged, order);
      if heuristic.BestFit? {
        SortedIsAdmissible(start, tagged, order, align, width);
      }
      trail := PlaceAll(rects);
      ghost var done := rects[..];
      TagsTravel(start, tagged, order, done, back);
      SortBack(rects, back);
      SetFlags(rects);
      BackInPlace(start, tagged, order, done, back, rects[..]);
      ValidParts();
      StateParts();
      ghost var slot := TrailReports(Target(), old(State()), trail, State(), done);
      PlacedAreReported(done, slot, rects[..], order, back, old(placed), placed);
      FlagsTell(done, back, rects[..]);
      ReportsAreTruthful(done, slot, rects[..], order, back, Profile(sky), height, old(placed), placed);
      TrailOfSorted(Target(), old(State()), trail, State(), done, order, back, rects[..]);
      RefusalIsJustified(Target(), old(State()), trail, State(), order, back, rects[..]);
    }
  }
}
