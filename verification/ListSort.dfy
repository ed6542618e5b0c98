/** core_list_mergesort: merging in place, bottom up, on a NULL-terminated linked list. */
module ListSort {

  datatype Info = Info(data16: int, idx: int)

  class Node {
    var next: Node?
    const info: Info

    constructor (info: Info, next: Node?)
      ensures this.info == info && this.next == next
    {
      this.info := info;
      this.next := next;
    }
  }

  type Cmp = (Info, Info) -> int

  /** cmp_idx as a pure order: line 117. */
  function CmpIdx(a: Info, b: Info): int {
    a.idx - b.idx
  }

  /** A comparison orders all items, ties allowed. */
  ghost predicate Preorder(cmp: Cmp) {
    && (forall a, b :: cmp(a, b) <= 0 || cmp(b, a) <= 0)
    && (forall a, b, c :: cmp(a, b) <= 0 && cmp(b, c) <= 0 ==> cmp(a, c) <= 0)
  }

  // ----- the order to establish -----

  /** By cmp, and by the original place among equals. */
  ghost predicate Before(cmp: Cmp, pos: map<Node, nat>, a: Node, b: Node) {
    && a in pos && b in pos
    && cmp(a.info, b.info) <= 0 && (cmp(b.info, a.info) <= 0 ==> pos[a] < pos[b])
  }

  lemma BeforeIsTransitive(cmp: Cmp, pos: map<Node, nat>, a: Node, b: Node, c: Node)
    requires Preorder(cmp) && Before(cmp, pos, a, b) && Before(cmp, pos, b, c)
    ensures Before(cmp, pos, a, c)
  {
    if cmp(c.info, a.info) <= 0 {
      assert cmp(c.info, b.info) <= 0;
      assert cmp(b.info, a.info) <= 0;
    }
  }

  ghost predicate Sorted(cmp: Cmp, pos: map<Node, nat>, s: seq<Node>) {
    forall i, j :: 0 <= i < j < |s| ==> Before(cmp, pos, s[i], s[j])
  }

  ghost predicate AllBefore(cmp: Cmp, pos: map<Node, nat>, s: seq<Node>, t: seq<Node>) {
    forall i, j :: 0 <= i < |s| && 0 <= j < |t| ==> Before(cmp, pos, s[i], t[j])
  }

  /** All of s comes from the original places lo to hi. */
  ghost predicate Within(pos: map<Node, nat>, s: seq<Node>, lo: nat, hi: nat) {
    forall i :: 0 <= i < |s| ==> s[i] in pos && lo <= pos[s[i]] < hi
  }

  // ----- merging two runs -----

  /** m is merged, p and q remain; p comes from the places below mid. */
  ghost predicate Merging(cmp: Cmp, pos: map<Node, nat>, m: seq<Node>, p: seq<Node>, q: seq<Node>, lo: nat, mid: nat, hi: nat) {
    && Sorted(cmp, pos, m) && Sorted(cmp, pos, p) && Sorted(cmp, pos, q)
    && AllBefore(cmp, pos, m, p) && AllBefore(cmp, pos, m, q)
    && lo <= mid <= hi && Within(pos, m, lo, hi) && Within(pos, p, lo, mid) && Within(pos, q, mid, hi)
  }

  lemma TakeFirst(cmp: Cmp, pos: map<Node, nat>, m: seq<Node>, p: seq<Node>)
    requires p != [] && Sorted(cmp, pos, m) && Sorted(cmp, pos, p) && AllBefore(cmp, pos, m, p)
    ensures Sorted(cmp, pos, m + [p[0]]) && Sorted(cmp, pos, p[1..]) && AllBefore(cmp, pos, m + [p[0]], p[1..])
  {
  }

  lemma FirstBeforeAll(cmp: Cmp, pos: map<Node, nat>, m: seq<Node>, e: Node, q: seq<Node>)
    requires Preorder(cmp) && AllBefore(cmp, pos, m, q) && Sorted(cmp, pos, q)
    requires q != [] ==> Before(cmp, pos, e, q[0])
    ensures AllBefore(cmp, pos, m + [e], q)
  {
    forall j | 0 <= j < |q| ensures Before(cmp, pos, e, q[j]) {
      if j > 0 {
        BeforeIsTransitive(cmp, pos, e, q[0], q[j]);
      }
    }
  }

  /** p's first element goes next: it is lower or the same, or q has run out. */
  lemma TakeP(cmp: Cmp, pos: map<Node, nat>, m: seq<Node>, p: seq<Node>, q: seq<Node>, lo: nat, mid: nat, hi: nat)
    requires Preorder(cmp) && Merging(cmp, pos, m, p, q, lo, mid, hi) && p != []
    requires q != [] ==> cmp(p[0].info, q[0].info) <= 0
    ensures Merging(cmp, pos, m + [p[0]], p[1..], q, lo, mid, hi)
  {
    TakeFirst(cmp, pos, m, p);
    assert q != [] ==> Before(cmp, pos, p[0], q[0]);
    FirstBeforeAll(cmp, pos, m, p[0], q);
  }

  /** q's first element goes next: it is strictly lower, or p has run out. */
  lemma TakeQ(cmp: Cmp, pos: map<Node, nat>, m: seq<Node>, p: seq<Node>, q: seq<Node>, lo: nat, mid: nat, hi: nat)
    requires Preorder(cmp) && Merging(cmp, pos, m, p, q, lo, mid, hi) && q != []
    requires p != [] ==> cmp(p[0].info, q[0].info) > 0
    ensures Merging(cmp, pos, m + [q[0]], p, q[1..], lo, mid, hi)
  {
    TakeFirst(cmp, pos, m, q);
    assert p != [] ==> Before(cmp, pos, q[0], p[0]);
    FirstBeforeAll(cmp, pos, m, q[0], p);
  }

  // ----- runs of a given width -----

  /** s splits into sorted runs of width w (the last may be shorter), each from its own places. */
  ghost predicate Runs(cmp: Cmp, pos: map<Node, nat>, s: seq<Node>, base: nat, w: nat)
    requires w > 0
    decreases |s|
  {
    if |s| <= w then Sorted(cmp, pos, s) && Within(pos, s, base, base + |s|)
    else
      && Sorted(cmp, pos, s[..w]) && Within(pos, s[..w], base, base + w)
      && Runs(cmp, pos, s[w..], base + w, w)
  }

  /** A further run behind full ones. */
  lemma {:induction false} RunsAppend(cmp: Cmp, pos: map<Node, nat>, s: seq<Node>, t: seq<Node>, base: nat, w: nat, k: nat)
    requires w > 0 && |s| == k * w && Runs(cmp, pos, s, base, w)
    requires |t| <= w && Sorted(cmp, pos, t) && Within(pos, t, base + |s|, base + |s| + |t|)
    ensures Runs(cmp, pos, s + t, base, w)
    decreases k
  {
    if k == 0 {
      assert s + t == t;
    } else if t == [] {
      assert s + t == s;
    } else {
      assert |s| == w + (k - 1) * w;
      SplitFront(s, t, w);
      if k > 1 {
        assert Runs(cmp, pos, s[w..], base + w, w);
      }
      hide Sorted, Within;
      RunsAppend(cmp, pos, s[w..], t, base + w, w, k - 1);
    }
  }

  lemma SplitFront(s: seq<Node>, t: seq<Node>, w: nat)
    requires w <= |s|
    ensures (s + t)[..w] == s[..w] && (s + t)[w..] == s[w..] + t && (|s| == w ==> s[..w] == s && s[w..] == [])
  {
  }

  /** At first every element is a run. */
  lemma {:induction false} SingleRuns(cmp: Cmp, pos: map<Node, nat>, s: seq<Node>, base: nat)
    requires forall i :: 0 <= i < |s| ==> s[i] in pos && pos[s[i]] == base + i
    ensures Runs(cmp, pos, s, base, 1)
    decreases |s|
  {
    if |s| > 1 {
      SingleRuns(cmp, pos, s[1..], base + 1);
    }
  }

  /** Behind the runs up to base lies nothing from before base. */
  lemma {:induction false} RunsAreBehind(cmp: Cmp, pos: map<Node, nat>, s: seq<Node>, base: nat, w: nat)
    requires w > 0 && Runs(cmp, pos, s, base, w)
    ensures Within(pos, s, base, base + |s|)
    decreases |s|
  {
    if |s| > w {
      RunsAreBehind(cmp, pos, s[w..], base + w, w);
      forall i | 0 <= i < |s| ensures s[i] in pos && base <= pos[s[i]] < base + |s| {
        if i < w {
          assert s[i] == s[..w][i];
        } else {
          assert s[i] == s[w..][i - w];
        }
      }
    }
  }

  // ----- the list in memory -----

  ghost predicate Linked(ns: seq<Node>)
    reads ns`next
  {
    forall i {:trigger ns[i].next} :: 0 <= i < |ns| - 1 ==> ns[i].next == ns[i + 1]
  }

  /** A NULL-terminated list. */
  ghost predicate Listed(head: Node?, ns: seq<Node>)
    reads ns`next
  {
    && Linked(ns)
    && head == (if ns == [] then null else ns[0])
    && (ns != [] ==> ns[|ns| - 1].next == null)
  }

  /** The output so far: linked up to tail, whose next is not set yet. */
  ghost predicate Output(list: Node?, tail: Node?, out: seq<Node>)
    reads out`next
  {
    && Linked(out)
    && list == (if out == [] then null else out[0])
    && tail == (if out == [] then null else out[|out| - 1])
  }

  /** Lines 442-448: up to insize steps along from p. */
  method Advance(p: Node, insize: nat, ghost ns: seq<Node>) returns (q: Node?, psize: nat)
    requires insize > 0 && ns != [] && Listed(p, ns)
    ensures psize == (if insize <= |ns| then insize else |ns|)
    ensures Listed(q, ns[psize..])
  {
    q := p;
    psize := 0;
    var i := 0;
    while i < insize
      invariant i == psize <= insize && psize < |ns| && q == ns[psize]
    {
      psize := psize + 1;
      q := q.next;
      if q == null {
        break;
      }
      i := i + 1;
    }
  }

  // ----- one merge -----

  predicate Distinct(s: seq<Node>) {
    forall i, j :: 0 <= i < j < |s| ==> s[i] != s[j]
  }

  /** Everything about a merge that is not memory: out is finished, from the places below lo; m is
      merged; p and q remain of the two runs; rest is still to come, from the places from hi on. */
  ghost predicate Plan(cmp: Cmp, pos: map<Node, nat>, out: seq<Node>, m: seq<Node>, p: seq<Node>, q: seq<Node>, rest: seq<Node>,
                       lo: nat, mid: nat, hi: nat) {
    && Merging(cmp, pos, m, p, q, lo, mid, hi)
    && Within(pos, out, 0, lo) && Distinct(out)
    && (forall i :: 0 <= i < |rest| ==> rest[i] in pos && hi <= pos[rest[i]])
  }

  /** Finished and remaining nodes do not mix. */
  lemma PlanIsApart(cmp: Cmp, pos: map<Node, nat>, out: seq<Node>, m: seq<Node>, p: seq<Node>, q: seq<Node>, rest: seq<Node>,
                    lo: nat, mid: nat, hi: nat)
    requires Plan(cmp, pos, out, m, p, q, rest, lo, mid, hi)
    ensures Distinct(out + m)
    ensures forall n :: n in out + m ==> n in pos && n !in p && n !in q && n !in rest
    ensures forall n :: n in p || n in q || n in rest ==> n in pos
  {
    forall n | n in out + m ensures n in pos && n !in p && n !in q && n !in rest {
      var i :| 0 <= i < |out + m| && (out + m)[i] == n;
      if i >= |out| {
        assert n == m[i - |out|];
      } else {
        assert n == out[i];
      }
    }
    assert forall i, j :: 0 <= i < |out| && 0 <= j < |m| ==> pos[out[i]] < pos[m[j]];
  }

  /** The memory of a merge: the output so far, and the two lists that remain. */
  ghost predicate Memory(list: Node?, tail: Node?, p: Node?, q: Node?, done: seq<Node>, ps: seq<Node>, qs: seq<Node>)
    reads done`next, ps`next, qs`next
  {
    && Output(list, tail, done)
    && Linked(ps) && (ps != [] ==> p == ps[0])
    && Listed(q, qs)
  }

  lemma Heads(list: Node?, tail: Node?, p: Node?, q: Node?, done: seq<Node>, ps: seq<Node>, qs: seq<Node>)
    requires Memory(list, tail, p, q, done, ps, qs)
    ensures ps != [] ==> p == ps[0]
    ensures q == if qs == [] then null else qs[0]
    ensures Output(list, tail, done) && Listed(q, qs)
  {
  }

  /** Lines 465 and 472-477: the next element is p's. */
  method TakeFromP(list: Node?, tail: Node?, p: Node, q: Node?, ghost done: seq<Node>, ghost ps: seq<Node>, ghost qs: seq<Node>)
    returns (list': Node?, p': Node?)
    requires Memory(list, tail, p, q, done, ps, qs) && ps != [] && Distinct(done)
    requires forall n :: n in done ==> n !in ps && n !in qs
    modifies done`next
    ensures Memory(list', p, p', q, done + [p], ps[1..], qs)
  {
    p' := p.next;
    assert forall n :: n in ps || n in qs ==> n != tail;
    list' := list;
    if tail != null {
      tail.next := p;
    } else {
      list' := p;
    }
    forall i | 0 <= i < |ps| ensures ps[i].next == old(ps[i].next) {
      assert ps[i] in ps;
    }
    forall i | 0 <= i < |qs| ensures qs[i].next == old(qs[i].next) {
      assert qs[i] in qs;
    }
  }

  /** Lines 468 and 472-477: the next element is q's. */
  method TakeFromQ(list: Node?, tail: Node?, p: Node?, q: Node, ghost done: seq<Node>, ghost ps: seq<Node>, ghost qs: seq<Node>)
    returns (list': Node?, q': Node?)
    requires Memory(list, tail, p, q, done, ps, qs) && qs != [] && Distinct(done)
    requires forall n :: n in done ==> n !in ps && n !in qs
    modifies done`next
    ensures Memory(list', q, p, q', done + [q], ps, qs[1..])
  {
    q' := q.next;
    assert forall n :: n in ps || n in qs ==> n != tail;
    list' := list;
    if tail != null {
      tail.next := q;
    } else {
      list' := q;
    }
    forall i | 0 <= i < |ps| ensures ps[i].next == old(ps[i].next) {
      assert ps[i] in ps;
    }
    forall i | 0 <= i < |qs| ensures qs[i].next == old(qs[i].next) {
      assert qs[i] in qs;
    }
  }

  /** Lines 456-477: one turn of the merge. */
  method Turn(cmp: Cmp, list: Node?, tail: Node?, p: Node?, psize: nat, q: Node?, qsize: nat,
              ghost pos: map<Node, nat>, ghost out: seq<Node>, ghost m: seq<Node>, ghost ps: seq<Node>, ghost qs: seq<Node>,
              ghost rest: seq<Node>, ghost lo: nat, ghost mid: nat, ghost hi: nat)
    returns (list': Node?, e: Node, p': Node?, psize': nat, q': Node?, qsize': nat)
    requires Preorder(cmp) && Plan(cmp, pos, out, m, ps, qs, rest, lo, mid, hi)
    requires Memory(list, tail, p, q, out + m, ps, qs + rest) && psize == |ps|
    requires |qs| <= qsize && (|qs| < qsize ==> rest == []) && (psize > 0 || (qsize > 0 && q != null))
    modifies (out + m)`next
    ensures if psize' == psize then qsize' == qsize - 1 && qs != [] && e == qs[0]
      else psize' == psize - 1 && qsize' == qsize && e == ps[0]
    ensures psize' == psize ==> Memory(list', e, p', q', out + m + [e], ps, (qs + rest)[1..])
    ensures psize' == psize ==> Plan(cmp, pos, out, m + [e], ps, qs[1..], rest, lo, mid, hi)
    ensures psize' != psize ==> Memory(list', e, p', q', out + m + [e], ps[1..], qs + rest)
    ensures psize' != psize ==> Plan(cmp, pos, out, m + [e], ps[1..], qs, rest, lo, mid, hi)
  {
    PlanIsApart(cmp, pos, out, m, ps, qs, rest, lo, mid, hi);
    Heads(list, tail, p, q, out + m, ps, qs + rest);
    hide Memory, Merging, Distinct, Within, Listed, Output;
    list', p', psize', q', qsize' := list, p, psize, q, qsize;
    if psize == 0 {
      TakeQ(cmp, pos, m, ps, qs, lo, mid, hi);
      e, qsize' := q, qsize - 1;
      list', q' := TakeFromQ(list, tail, p, q, out + m, ps, qs + rest);
    } else if qsize == 0 || q == null {
      TakeP(cmp, pos, m, ps, qs, lo, mid, hi);
      e, psize' := p, psize - 1;
      list', p' := TakeFromP(list, tail, p, q, out + m, ps, qs + rest);
    } else if cmp(p.info, q.info) <= 0 {
      TakeP(cmp, pos, m, ps, qs, lo, mid, hi);
      e, psize' := p, psize - 1;
      list', p' := TakeFromP(list, tail, p, q, out + m, ps, qs + rest);
    } else {
      TakeQ(cmp, pos, m, ps, qs, lo, mid, hi);
      e, qsize' := q, qsize - 1;
      list', q' := TakeFromQ(list, tail, p, q, out + m, ps, qs + rest);
    }
  }

  /** Lines 454-478: merge a run of psize nodes from p with at most insize nodes from q behind the
      output, and leave q at what comes after. */
  method Merge(cmp: Cmp, head: Node?, last: Node?, p0: Node, psize0: nat, q0: Node?, insize: nat,
               ghost pos: map<Node, nat>, ghost out: seq<Node>, ghost pr: seq<Node>, ghost qr: seq<Node>, ghost rest: seq<Node>,
               ghost lo: nat, ghost mid: nat, ghost hi: nat)
    returns (list: Node?, tail: Node?, q: Node?, ghost m: seq<Node>)
    requires Preorder(cmp) && Plan(cmp, pos, out, [], pr, qr, rest, lo, mid, hi)
    requires Memory(head, last, p0, q0, out, pr, qr + rest) && |pr| == psize0 > 0
    requires |qr| <= insize && (|qr| < insize ==> rest == [])
    modifies pos.Keys`next
    ensures Output(list, tail, out + m) && Listed(q, rest)
    ensures Plan(cmp, pos, out, m, [], [], rest, lo, mid, hi) && |m| == |pr| + |qr|
  {
    hide *;
    list, tail, q, m := head, last, q0, [];
    var p: Node? := p0;
    var psize, qsize := psize0, insize;
    ghost var ps, qs := pr, qr;
    assert out + m == out;
    Heads(head, last, p0, q0, out, pr, qr + rest);
    while psize > 0 || (qsize > 0 && q != null)
      invariant Plan(cmp, pos, out, m, ps, qs, rest, lo, mid, hi)
      invariant Memory(list, tail, p, q, out + m, ps, qs + rest)
      invariant |ps| == psize && |qs| <= qsize && (|qs| < qsize ==> rest == [])
      invariant |m| + |ps| + |qs| == |pr| + |qr|
      decreases |ps| + |qs|
    {
      PlanIsApart(cmp, pos, out, m, ps, qs, rest, lo, mid, hi);
      ghost var psize1 := psize;
      var e;
      list, e, p, psize, q, qsize := Turn(cmp, list, tail, p, psize, q, qsize, pos, out, m, ps, qs, rest, lo, mid, hi);
      tail := e;
      if psize == psize1 {
        DropFirst(qs, rest);
        qs := qs[1..];
      } else {
        ps := ps[1..];
      }
      AddLast(out, m, e);
      m := m + [e];
    }
    Heads(list, tail, p, q, out + m, ps, qs + rest);
    assert ps == [] && qs == [];
    assert qs + rest == rest;
  }

  lemma DropFirst(s: seq<Node>, t: seq<Node>)
    requires s != []
    ensures (s + t)[1..] == s[1..] + t
  {
  }

  lemma AddLast(s: seq<Node>, t: seq<Node>, e: Node)
    ensures s + t + [e] == s + (t + [e])
  {
  }

  // ----- one pass -----

  function Min(a: nat, b: nat): nat {
    if a <= b then a else b
  }

  /** The first run, and what follows. */
  lemma FirstRun(cmp: Cmp, pos: map<Node, nat>, rs: seq<Node>, base: nat, w: nat) returns (run: seq<Node>, rest: seq<Node>)
    requires w > 0 && Runs(cmp, pos, rs, base, w)
    ensures rs == run + rest && |run| == Min(w, |rs|)
    ensures Sorted(cmp, pos, run) && Within(pos, run, base, base + |run|) && Runs(cmp, pos, rest, base + |run|, w)
  {
    if |rs| <= w {
      run, rest := rs, [];
    } else {
      run, rest := rs[..w], rs[w..];
    }
  }

  /** The first two runs of what is left, and the runs after them. */
  lemma FirstTwoRuns(cmp: Cmp, pos: map<Node, nat>, out: seq<Node>, rs: seq<Node>, w: nat)
    returns (pr: seq<Node>, qr: seq<Node>, rest: seq<Node>)
    requires w > 0 && rs != [] && Runs(cmp, pos, rs, |out|, w) && Within(pos, out, 0, |out|) && Distinct(out)
    ensures rs == pr + (qr + rest) && |pr| == Min(w, |rs|) && |qr| == Min(w, |rs| - |pr|)
    ensures Runs(cmp, pos, rest, |out| + |pr| + |qr|, w)
    ensures Plan(cmp, pos, out, [], pr, qr, rest, |out|, |out| + |pr|, |out| + |pr| + |qr|)
  {
    hide Runs, Sorted, Within, Distinct, Plan;
    var behind;
    pr, behind := FirstRun(cmp, pos, rs, |out|, w);
    qr, rest := FirstRun(cmp, pos, behind, |out| + |pr|, w);
    RunsAreBehind(cmp, pos, rest, |out| + |pr| + |qr|, w);
    Starting(cmp, pos, out, pr, qr, rest, |out|, |out| + |pr|, |out| + |pr| + |qr|);
  }

  lemma Starting(cmp: Cmp, pos: map<Node, nat>, out: seq<Node>, p: seq<Node>, q: seq<Node>, rest: seq<Node>, lo: nat, mid: nat, hi: nat)
    requires Sorted(cmp, pos, p) && Sorted(cmp, pos, q) && Within(pos, p, lo, mid) && Within(pos, q, mid, hi) && lo <= mid <= hi
    requires Within(pos, out, 0, lo) && Distinct(out) && Within(pos, rest, hi, hi + |rest|)
    ensures Plan(cmp, pos, out, [], p, q, rest, lo, mid, hi)
  {
  }

  /** How far a pass is: nmerges merges of width 2 * w are done. */
  ghost predicate Passing(cmp: Cmp, pos: map<Node, nat>, out: seq<Node>, rs: seq<Node>, w: nat, nmerges: nat) {
    && w > 0 && Runs(cmp, pos, out, 0, 2 * w) && Runs(cmp, pos, rs, |out|, w)
    && Within(pos, out, 0, |out|) && Distinct(out)
    && (rs != [] ==> |out| == nmerges * (2 * w))
    && (nmerges == 0 <==> out == []) && (nmerges <= 1 <==> |out| <= 2 * w)
  }

  /** A merge more. */
  lemma OneMergeMore(cmp: Cmp, pos: map<Node, nat>, out: seq<Node>, rs: seq<Node>, w: nat, nmerges: nat, m: seq<Node>, rest: seq<Node>)
    requires Passing(cmp, pos, out, rs, w, nmerges) && rs != []
    requires 0 < |m| <= 2 * w && (rest != [] ==> |m| == 2 * w) && Runs(cmp, pos, rest, |out| + |m|, w)
    requires Sorted(cmp, pos, m) && Within(pos, m, |out|, |out| + |m|) && Distinct(out + m)
    ensures Passing(cmp, pos, out + m, rest, w, nmerges + 1)
  {
    assert |out| == nmerges * (2 * w) && Runs(cmp, pos, out, 0, 2 * w);
    assert (nmerges + 1) * (2 * w) == nmerges * (2 * w) + 2 * w;
    if nmerges >= 1 {
      TimesAtLeast(nmerges, 2 * w);
    }
    assert Within(pos, out + m, 0, |out + m|);
    hide Runs, Sorted, Within, Distinct;
    RunsAppend(cmp, pos, out, m, 0, 2 * w, nmerges);
  }

  lemma TimesAtLeast(k: nat, x: nat)
    requires k >= 1
    ensures k * x >= x
  {
    assert k * x == (k - 1) * x + x;
  }

  /** Lines 433-484: merge the runs pairwise. */
  method Pass(cmp: Cmp, head: Node, insize: nat, ghost pos: map<Node, nat>, ghost s: seq<Node>)
    returns (list: Node?, nmerges: nat, ghost out: seq<Node>)
    requires Preorder(cmp) && insize > 0 && s != [] && Listed(head, s) && Runs(cmp, pos, s, 0, insize)
    modifies pos.Keys`next
    ensures Listed(list, out) && |out| == |s| && Distinct(out)
    ensures Runs(cmp, pos, out, 0, 2 * insize) && (nmerges <= 1 <==> |s| <= 2 * insize)
  {
    var p: Node? := head;
    var tail: Node? := null;
    list, nmerges, out := null, 0, [];
    ghost var rs := s;
    while p != null
      invariant Output(list, tail, out) && Listed(p, rs)
      invariant |out| + |rs| == |s| && Passing(cmp, pos, out, rs, insize, nmerges)
      decreases |rs|
    {
      list, tail, p, out, rs := MergePair(cmp, list, tail, p, insize, pos, out, rs, nmerges);
      nmerges := nmerges + 1;
    }
    RunsAreBehind(cmp, pos, out, 0, 2 * insize);
    tail.next := null;
  }

  /** Lines 440-481. */
  method MergePair(cmp: Cmp, list: Node?, tail: Node?, p: Node, insize: nat, ghost pos: map<Node, nat>, ghost out: seq<Node>,
                   ghost rs: seq<Node>, ghost nmerges: nat)
    returns (list': Node?, tail': Node?, q: Node?, ghost out': seq<Node>, ghost rs': seq<Node>)
    requires Preorder(cmp) && Output(list, tail, out) && Listed(p, rs) && Passing(cmp, pos, out, rs, insize, nmerges)
    modifies pos.Keys`next
    ensures Output(list', tail', out') && Listed(q, rs') && |out'| + |rs'| == |out| + |rs| && |rs'| < |rs|
    ensures Passing(cmp, pos, out', rs', insize, nmerges + 1)
  {
    hide *;
    PassingParts(cmp, pos, out, rs, insize, nmerges);
    assert rs != [] by { ListedHeads(p, rs); }
    ghost var pr, qr, rest := FirstTwoRuns(cmp, pos, out, rs, insize);
    var psize;
    q, psize := Advance(p, insize, rs);
    MinIs(insize, |rs|);
    MinIs(insize, |rs| - |pr|);
    assert psize == |pr| && |rs| == |pr| + |qr| + |rest|;
    Prefix(p, rs, pr, qr + rest);
    ghost var m;
    list', tail', q, m := MergeOnce(cmp, list, tail, p, psize, q, insize, pos, out, pr, qr, rest);
    OneMergeMore(cmp, pos, out, rs, insize, nmerges, m, rest);
    out', rs' := out + m, rest;
  }

  lemma PassingParts(cmp: Cmp, pos: map<Node, nat>, out: seq<Node>, rs: seq<Node>, w: nat, nmerges: nat)
    requires Passing(cmp, pos, out, rs, w, nmerges)
    ensures w > 0 && Runs(cmp, pos, rs, |out|, w) && Within(pos, out, 0, |out|) && Distinct(out)
  {
  }

  lemma ListedHeads(head: Node?, ns: seq<Node>)
    requires Listed(head, ns)
    ensures head == if ns == [] then null else ns[0]
  {
  }

  lemma MinIs(a: nat, b: nat)
    ensures Min(a, b) == if a <= b then a else b
  {
  }

  /** The first run of a list is linked, and starts where the list does. */
  lemma Prefix(p: Node, rs: seq<Node>, pr: seq<Node>, rest: seq<Node>)
    requires Listed(p, rs) && rs == pr + rest && pr != []
    ensures Linked(pr) && p == pr[0] && rs[|pr|..] == rest
  {
    assert forall i :: 0 <= i < |pr| ==> pr[i] == rs[i];
  }

  /** Merge, where the finished output fills the first places. */
  method MergeOnce(cmp: Cmp, list: Node?, tail: Node?, p: Node, psize: nat, q: Node?, insize: nat, ghost pos: map<Node, nat>,
                   ghost out: seq<Node>, ghost pr: seq<Node>, ghost qr: seq<Node>, ghost rest: seq<Node>)
    returns (list': Node?, tail': Node?, q': Node?, ghost m: seq<Node>)
    requires Preorder(cmp) && Output(list, tail, out) && Linked(pr) && |pr| == psize > 0 && p == pr[0] && Listed(q, qr + rest)
    requires |qr| <= insize && (|qr| < insize ==> rest == [])
    requires Plan(cmp, pos, out, [], pr, qr, rest, |out|, |out| + |pr|, |out| + |pr| + |qr|)
    modifies pos.Keys`next
    ensures Output(list', tail', out + m) && Listed(q', rest) && |m| == |pr| + |qr|
    ensures Sorted(cmp, pos, m) && Within(pos, m, |out|, |out| + |m|) && Distinct(out + m)
  {
    ghost var lo, mid, hi := |out|, |out| + |pr|, |out| + |pr| + |qr|;
    hide *;
    InMemory(list, tail, p, q, out, pr, qr + rest);
    list', tail', q', m := Merge(cmp, list, tail, p, psize, q, insize, pos, out, pr, qr, rest, lo, mid, hi);
    PlanIsApart(cmp, pos, out, m, [], [], rest, lo, mid, hi);
    MergedIsSorted(cmp, pos, out, m, rest, lo, mid, hi);
  }

  lemma InMemory(list: Node?, tail: Node?, p: Node, q: Node?, done: seq<Node>, ps: seq<Node>, qs: seq<Node>)
    requires Output(list, tail, done) && Linked(ps) && ps != [] && p == ps[0] && Listed(q, qs)
    ensures Memory(list, tail, p, q, done, ps, qs)
  {
  }

  lemma MergedIsSorted(cmp: Cmp, pos: map<Node, nat>, out: seq<Node>, m: seq<Node>, rest: seq<Node>, lo: nat, mid: nat, hi: nat)
    requires Plan(cmp, pos, out, m, [], [], rest, lo, mid, hi)
    ensures Sorted(cmp, pos, m) && Within(pos, m, lo, hi)
  {
  }

  // ----- the sort -----

  /** The original places. */
  ghost function Places(s: seq<Node>): (pos: map<Node, nat>)
    requires Distinct(s)
    ensures forall i :: 0 <= i < |s| ==> s[i] in pos && pos[s[i]] == i
    ensures forall n :: n in pos ==> n in s
  {
    map i: nat | i < |s| :: s[i] := i
  }

  /** A NULL-terminated list never comes back to a node. */
  lemma ListedIsDistinct(head: Node?, s: seq<Node>)
    requires Listed(head, s)
    ensures Distinct(s)
  {
    forall i, j | 0 <= i < j < |s| ensures s[i] != s[j] {
      assert s[i + (|s| - 1 - j)].next != null;
      if s[i] == s[j] {
        SameTail(s, i, j, |s| - 1 - j);
      }
    }
  }

  lemma {:induction false} SameTail(s: seq<Node>, i: nat, j: nat, k: nat)
    requires Linked(s) && i < j && j + k < |s| && s[i] == s[j]
    ensures s[i + k] == s[j + k]
    decreases k
  {
    if k > 0 {
      SameTail(s, i, j, k - 1);
      assert s[i + k - 1].next == s[i + k];
      assert s[j + k - 1].next == s[j + k];
    }
  }

  /** The same nodes, in order of cmp, equal elements in the order they came in. */
  ghost predicate IsStableSort(cmp: Cmp, s: seq<Node>, r: seq<Node>)
    requires Distinct(s)
  {
    multiset(r) == multiset(s) && Sorted(cmp, Places(s), r)
  }

  /** n distinct elements of a list of n are all of it. */
  lemma SameNodes(s: seq<Node>, r: seq<Node>)
    requires Distinct(s) && Distinct(r) && |r| == |s| && forall n :: n in r ==> n in s
    ensures multiset(r) == multiset(s)
  {
    hide Distinct;
    Multiplicity(s);
    Multiplicity(r);
    forall n | n in s ensures n in r {
      NoneMissing(s, r, n);
    }
  }

  lemma NoneMissing(s: seq<Node>, r: seq<Node>, n: Node)
    requires Distinct(s) && Distinct(r) && |r| == |s| && (forall m :: m in r ==> m in s) && n in s
    ensures n in r
  {
    hide Distinct;
    ElementCount(s);
    ElementCount(r);
    if n !in r {
      var es, er := set m | m in s, set m | m in r;
      assert er <= es - {n};
      SubsetIsSmaller(er, es - {n});
    }
  }

  lemma SubsetIsSmaller(a: set<Node>, b: set<Node>)
    requires a <= b
    ensures |a| <= |b|
  {
    assert b == a + (b - a);
  }

  lemma {:induction false} ElementCount(s: seq<Node>)
    requires Distinct(s)
    ensures |set n | n in s| == |s|
  {
    if s != [] {
      var t := s[..|s| - 1];
      ElementCount(t);
      assert (set n | n in s) == (set n | n in t) + {s[|s| - 1]};
    }
  }

  lemma {:induction false} Multiplicity(s: seq<Node>)
    requires Distinct(s)
    ensures forall n :: multiset(s)[n] == if n in s then 1 else 0
  {
    if s != [] {
      var t := s[..|s| - 1];
      Multiplicity(t);
      assert s == t + [s[|s| - 1]];
    }
  }

  /** core_list_mergesort: the list comes back NULL-terminated, with exactly its own nodes, sorted and
      stable. The run width only doubles below the length of the list. */
  method MergeSort(head: Node, cmp: Cmp, ghost s: seq<Node>) returns (list: Node?, ghost r: seq<Node>)
    requires Preorder(cmp) && Listed(head, s)
    modifies s`next
    ensures Distinct(s) && Listed(list, r) && IsStableSort(cmp, s, r)
  {
    ListedIsDistinct(head, s);
    ghost var pos := Places(s);
    SingleRuns(cmp, pos, s, 0);
    var insize := 1;
    list, r := head, s;
    while true
      invariant Listed(list, r) && |r| == |s| && list != null
      invariant 0 < insize && (insize == 1 || insize < |s|) && Runs(cmp, pos, r, 0, insize)
      decreases |s| - insize
    {
      var nmerges;
      list, nmerges, r := Pass(cmp, list, insize, pos, r);
      if nmerges <= 1 {
        RunsAreBehind(cmp, pos, r, 0, 2 * insize);
        SameNodes(s, r);
        return;
      }
      insize := insize * 2;
    }
  }

  /** There is only one stable sort of a list. */
  lemma {:induction false} StableSortIsUnique(cmp: Cmp, pos: map<Node, nat>, r: seq<Node>, r': seq<Node>)
    requires multiset(r) == multiset(r') && Sorted(cmp, pos, r) && Sorted(cmp, pos, r')
    ensures r == r'
    decreases |r|
  {
    assert |r| == |multiset(r)| == |multiset(r')| == |r'|;
    if r != [] {
      SameFirst(cmp, pos, r, r');
      RestOf(cmp, pos, r);
      RestOf(cmp, pos, r');
      hide Sorted;
      StableSortIsUnique(cmp, pos, r[1..], r'[1..]);
    }
  }

  lemma RestOf(cmp: Cmp, pos: map<Node, nat>, r: seq<Node>)
    requires r != [] && Sorted(cmp, pos, r)
    ensures r == [r[0]] + r[1..] && multiset(r[1..]) == multiset(r) - multiset{r[0]} && Sorted(cmp, pos, r[1..])
  {
    assert r == [r[0]] + r[1..];
  }

  lemma SameFirst(cmp: Cmp, pos: map<Node, nat>, r: seq<Node>, r': seq<Node>)
    requires multiset(r) == multiset(r') && Sorted(cmp, pos, r) && Sorted(cmp, pos, r') && r != [] && r' != []
    ensures r[0] == r'[0]
  {
    assert r[0] in multiset(r') && r'[0] in multiset(r);
    var i :| 0 <= i < |r'| && r'[i] == r[0];
    var j :| 0 <= j < |r| && r[j] == r'[0];
    Antisymmetric(cmp, pos, r[0], r'[0]);
  }

  lemma Antisymmetric(cmp: Cmp, pos: map<Node, nat>, a: Node, b: Node)
    ensures !(Before(cmp, pos, a, b) && Before(cmp, pos, b, a))
  {
  }

  /** Sorting by idx brings a list that was in order of distinct idx back to that order, whatever
      has been done to its links in between. */
  lemma SortByIdxRestores(first: seq<Node>, s: seq<Node>, r: seq<Node>)
    requires Distinct(s) && multiset(s) == multiset(first) && IsStableSort(CmpIdx, s, r)
    requires forall i, j :: 0 <= i < j < |first| ==> first[i].info.idx < first[j].info.idx
    ensures Preorder(CmpIdx)
    ensures r == first
  {
    var pos := Places(s);
    forall i | 0 <= i < |first| ensures first[i] in pos {
      assert first[i] in multiset(s);
    }
    assert Sorted(CmpIdx, pos, first);
    StableSortIsUnique(CmpIdx, pos, r, first);
  }
}
