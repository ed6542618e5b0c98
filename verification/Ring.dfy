/** The ring of waiting tasks inside a semaphore: wl, wlleft and wlright. */
module Ring {

  const NTHREAD := 40

  datatype Cell = Null | Task(id: nat)

  datatype Ring = Ring(wl: seq<Cell>, left: nat, right: nat)

  /** How far cell k lies past cell a, going around. */
  function Past(a: nat, k: nat): int {
    if k >= a then k - a else k - a + NTHREAD
  }

  predicate InBounds(r: Ring) {
    |r.wl| == NTHREAD && r.left < NTHREAD && r.right < NTHREAD
  }

  /** The occupied cells are the cyclic segment from wlleft to wlright, holding q in order. */
  predicate Represents(r: Ring, q: seq<nat>) {
    && InBounds(r) && |q| <= NTHREAD && r.right == (r.left + |q|) % NTHREAD
    && forall k :: 0 <= k < NTHREAD ==> r.wl[k] == if Past(r.left, k) < |q| then Task(q[Past(r.left, k)]) else Null
  }

  function Empty(): Ring {
    Ring(seq(NTHREAD, i => Null), 0, 0)
  }

  /** Lines 62-63 of sem.c. */
  function Push(r: Ring, t: nat): Ring
    requires InBounds(r)
  {
    Ring(r.wl[r.right := Task(t)], r.left, (r.right + 1) % NTHREAD)
  }

  /** Lines 90-91 of sem.c. */
  function Pop(r: Ring): Ring
    requires InBounds(r)
  {
    Ring(r.wl[r.left := Null], (r.left + 1) % NTHREAD, r.right)
  }

  /** There is room for one more waiter as long as the ring is not full, and it goes to the end. */
  lemma PushAppends(r: Ring, q: seq<nat>, t: nat)
    requires Represents(r, q)
    ensures r.wl[r.right] == Null <==> |q| < NTHREAD
    ensures |q| < NTHREAD ==> Represents(Push(r, t), q + [t])
  {
    assert Past(r.left, r.right) == if |q| < NTHREAD then |q| else 0;
  }

  /** The cell at wlleft is the oldest waiter; it is NULL for an empty ring only, and then the ends meet. */
  lemma PopRemovesFirst(r: Ring, q: seq<nat>)
    requires Represents(r, q)
    ensures r.wl[r.left] == if q == [] then Null else Task(q[0])
    ensures q == [] ==> r.left == r.right
    ensures q != [] ==> Represents(Pop(r), q[1..])
  {
    assert Past(r.left, r.left) == 0;
  }

  lemma EmptyRepresents()
    ensures Represents(Empty(), [])
  {
  }

  // ----- counting tasks -----

  predicate Distinct(q: seq<nat>) {
    forall i, j :: 0 <= i < j < |q| ==> q[i] != q[j]
  }

  function Elements(q: seq<nat>): set<nat> {
    set t | t in q
  }

  lemma {:induction false} DistinctSize(q: seq<nat>)
    requires Distinct(q)
    ensures |Elements(q)| == |q|
  {
    if q != [] {
      var rest := q[..|q| - 1];
      DistinctSize(rest);
      assert Elements(q) == Elements(rest) + {q[|q| - 1]};
    }
  }

  /** The first n tasks. */
  function Below(n: nat): (s: set<nat>)
    ensures |s| == n && forall t :: t in s <==> 0 <= t < n
  {
    if n == 0 then {} else Below(n - 1) + {n - 1}
  }

  lemma SubsetSize(a: set<nat>, b: set<nat>)
    requires a <= b
    ensures |a| <= |b|
  {
    assert b == a + (b - a);
  }

  /** A queue of distinct tasks that lacks one of the n tasks is shorter than n. */
  lemma QueueHasRoom(q: seq<nat>, n: nat, t: nat)
    requires Distinct(q) && t < n && t !in q
    requires forall u :: u in q ==> u < n
    ensures |q| < n
  {
    DistinctSize(q);
    SubsetSize(Elements(q) + {t}, Below(n));
  }
}
