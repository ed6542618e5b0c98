/** The stretches of sem.c that run under the semaphore's lock, on the fields they update in place. */
module SemLocked {
  import opened Ring
  import opened Tasks

  class Thread {
    const id: nat
    var status: Status

    constructor (id: nat)
      ensures this.id == id && status == Ready
    {
      this.id := id;
      status := Ready;
    }
  }

  class Semaphore {
    var value: int
    const wl: array<Thread?>
    var wlleft: nat
    var wlright: nat

    ghost predicate Valid()
      reads this
    {
      wl.Length == NTHREAD && wlleft < NTHREAD && wlright < NTHREAD
    }

    /** The ring as a value. */
    ghost function Waiters(): (r: Ring)
      requires Valid()
      reads this, wl
      ensures InBounds(r)
    {
      Ring(seq(NTHREAD, (i: nat) requires Valid() && i < NTHREAD reads this, wl => CellOf(wl[i])), wlleft, wlright)
    }

    static function CellOf(t: Thread?): Cell {
      if t == null then Null else Task(t.id)
    }

    /** seminit: lines 5-15. */
    constructor (v: int)
      ensures Valid() && fresh(wl) && value == v
      ensures Represents(Waiters(), [])
    {
      value := v;
      wlleft := 0;
      wlright := 0;
      wl := new Thread?[NTHREAD](_ => null);
      new;
      assert Waiters() == Empty();
      EmptyRepresents();
    }

    /** One turn of the loop of semwait, lines 57-67 and 74: it either takes one, or queues the task
        up behind all the others and suspends it. With room for it, the panic is not reached. */
    method TryWait(me: Thread, ghost q: seq<nat>) returns (taken: bool)
      requires Valid() && Represents(Waiters(), q) && |q| < NTHREAD
      modifies this, wl, me
      ensures Valid() && taken == (old(value) > 0)
      ensures taken ==> value == old(value) - 1 && Represents(Waiters(), q) && me.status == old(me.status)
      ensures !taken ==> value == old(value) && Represents(Waiters(), q + [me.id]) && me.status == Suspend
      ensures !taken ==> wl[old(wlright)] == me
      ensures forall k :: 0 <= k < NTHREAD && (taken || k != old(wlright)) ==> wl[k] == old(wl[k])
    {
      ghost var before := Waiters();
      PushAppends(before, q, me.id);
      if value <= 0 {
        assert before.wl[wlright] == CellOf(wl[wlright]);
        assert wl[wlright] == null;
        wl[wlright] := me;
        wlright := (wlright + 1) % NTHREAD;
        me.status := Suspend;
        assert Waiters() == Push(before, me.id);
        return false;
      }
      value := value - 1;
      assert Waiters() == before;
      return true;
    }

    /** semsignal, lines 82-95: the oldest waiter becomes _READY and leaves the ring, nobody else is
        touched, and the panic is not reached. */
    method Signal(ghost q: seq<nat>)
      requires Valid() && Represents(Waiters(), q)
      modifies this, wl, wl[wlleft]
      ensures Valid() && value == old(value) + 1
      ensures Represents(Waiters(), if q == [] then [] else q[1..])
      ensures q != [] <==> old(wl[wlleft]) != null
      ensures q != [] ==> old(wl[wlleft]).id == q[0] && old(wl[wlleft]).status == Ready && wl[old(wlleft)] == null
      ensures forall k :: 0 <= k < NTHREAD && k != old(wlleft) ==> wl[k] == old(wl[k])
    {
      ghost var before := Waiters();
      PopRemovesFirst(before, q);
      assert before.wl[wlleft] == CellOf(wl[wlleft]);
      value := value + 1;
      if wl[wlleft] != null {
        wl[wlleft].status := Ready;
        wl[wlleft] := null;
        wlleft := (wlleft + 1) % NTHREAD;
        assert Waiters() == Pop(before);
      } else {
        assert wlleft == wlright;
        assert Waiters() == before;
      }
    }
  }
}
