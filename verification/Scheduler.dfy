/** kmthread.c on its own data: tasks, the list of each CPU, and the current task. */
module Scheduler {
  import opened Tasks
  import opened Words

  const NTHREAD := 40

  class Thread {
    var id: int
    var status: Status
    var context: int
    var hasCpu: bool

    constructor Boot(context: int, hasCpu: bool)
      ensures id == -1 && this.context == context && this.hasCpu == hasCpu
    {
      id := -1;
      status := Running;
      this.context := context;
      this.hasCpu := hasCpu;
    }
  }

  /** The task list of one CPU with its current task. */
  class Cpu {
    const list: array<Thread?>
    var tasknum: nat
    var current: Thread

    constructor (boot: Thread)
      requires boot.id == -1
      ensures Valid() && fresh(list) && current == boot && tasknum == 0
    {
      list := new Thread?[NTHREAD](_ => null);
      tasknum := 0;
      current := boot;
    }

    /** A task's id is its place in the list, and the current task is in it unless it is the boot task. */
    ghost predicate Valid()
      reads this, list, Threads(), current
    {
      && list.Length == NTHREAD && tasknum <= NTHREAD
      && (forall i :: 0 <= i < tasknum ==> list[i] != null && list[i].id == i)
      && (current.id == -1 || (0 <= current.id < tasknum && list[current.id] == current))
    }

    ghost function Threads(): set<Thread>
      reads this, list
    {
      set i | 0 <= i < tasknum && i < list.Length && list[i] != null :: list[i]
    }

    ghost function Statuses(): (s: seq<Status>)
      requires Valid()
      reads this, list, Threads(), current
      ensures |s| == tasknum
    {
      seq(tasknum, (i: nat) requires Valid() && i < tasknum reads this, list, Threads(), current => list[i].status)
    }

    /** Saving the context on the way in: line 15. */
    method SaveContext(context: int)
      requires Valid()
      modifies current`context
      ensures Valid() && Statuses() == old(Statuses())
      ensures current.context == if current.id != -1 then context else old(current.context)
    {
      if current.id != -1 {
        current.context := context;
      }
    }

    /** A new task at the end of the list: lines 202-203 and 216-218. */
    method Append(task: Thread)
      requires Valid() && tasknum < NTHREAD && task !in Threads() && task != current
      modifies this`tasknum, list, task
      ensures Valid() && tasknum == old(tasknum) + 1
      ensures task.status == Ready && !task.hasCpu && task.id == old(tasknum) && list[task.id] == task
      ensures Statuses() == old(Statuses()) + [Ready]
    {
      task.hasCpu := false;
      task.status := Ready;
      task.id := tasknum;
      list[tasknum] := task;
      tasknum := tasknum + 1;
    }

    lemma NextAround(cur: int, k: nat, n: nat)
      requires -1 <= cur < n && k < n
      ensures (cur + 1) % n == Around(cur, 0, n)
      ensures k + 1 < n ==> (Around(cur, k, n) + 1) % n == Around(cur, k + 1, n)
    {
      WrapOnce(cur + 1, n);
      WrapOnce(Around(cur, k, n) + 1, n);
    }

    lemma WrapOnce(x: nat, n: nat)
      requires x <= n && n > 0
      ensures x % n == if x == n then 0 else x
    {
    }

    /** The polling loop, lines 50-73: the closest _READY task behind the current one, or -1 after
        one look at each. */
    method Poll() returns (found: int)
      requires Valid() && tasknum != 0
      ensures found == Search(Statuses(), current.id, 0)
    {
      ghost var st, cur := Statuses(), current.id;
      var findcnt := 0;
      var tn := tasknum;
      NextAround(cur, 0, tn);
      var ind := (current.id + 1) % tn;
      while true
        invariant findcnt < tn && ind == Around(cur, findcnt, tn)
        invariant Statuses() == st && current.id == cur
        invariant Search(st, cur, 0) == Search(st, cur, findcnt)
        decreases tn - findcnt
      {
        assert list[ind].status == st[ind];
        if list[ind].status == Ready {
          assert Search(st, cur, findcnt) == ind;
          return ind;
        }
        findcnt := findcnt + 1;
        if findcnt == tn {
          assert Search(st, cur, findcnt) == -1;
          return -1;
        }
        NextAround(cur, findcnt - 1, tn);
        ind := (ind + 1) % tn;
      }
    }

    /** Lines 61-67. */
    method Choose(ind: nat, ghost st: seq<Status>, ghost cur: int, ghost own: Status)
      requires Valid() && st == Statuses() && cur == current.id && own == current.status && own != Ready
      requires ind < tasknum && st[ind] == Ready && Search(st, cur, 0) == ind
      modifies `current, current`status, Threads()`status, Threads()`hasCpu
      ensures Valid() && current == list[ind] && current.hasCpu
      ensures (Statuses(), current.id, current.status) == Switch(st, cur, own)
      ensures unchanged(`tasknum) && Threads() == old(Threads())
    {
      assert cur >= 0 ==> list[cur].status == st[cur];
      if current.id != -1 {
        if current.status == Running {
          current.status := Ready;
        }
      }
      current := list[ind];
      current.hasCpu := true;
      current.status := Running;
      assert Statuses() == (if cur >= 0 && own == Running then st[cur := Ready] else st)[ind := Running];
    }

    /** kmt_context_switch. The code asserts that there are tasks, and that it does not stay on a boot
        task without a CPU. */
    method ContextSwitch() returns (context: int)
      requires Valid()
      requires current.status != Ready ==> tasknum != 0
      requires current.status != Ready && !current.hasCpu ==> exists i :: 0 <= i < tasknum && Statuses()[i] == Ready
      modifies `current, current`status, Threads()`status, Threads()`hasCpu
      ensures Valid() && context == current.context
      ensures (Statuses(), current.id, current.status) == Switch(old(Statuses()), old(current.id), old(current.status))
      ensures current != old(current) ==> current in old(Threads())
      ensures old(current.status) != Ready ==> current.hasCpu
    {
      ghost var st, cur, own := Statuses(), current.id, current.status;
      if current.status == Ready {
        current.status := Running;
        assert Statuses() == if cur >= 0 then st[cur := Running] else st;
        return current.context;
      }
      var ind := Poll();
      SearchFinds(st, cur);
      if ind >= 0 {
        Choose(ind, st, cur, own);
        assert current in Threads();
      }
      assert current.hasCpu;
      assert current.status != Ready;
      context := current.context;
    }

    lemma SearchFinds(st: seq<Status>, cur: int)
      requires -1 <= cur < |st|
      ensures var ind := Search(st, cur, 0); ind >= 0 ==> st[ind] == Ready
      ensures Search(st, cur, 0) == -1 ==> forall i :: 0 <= i < |st| ==> st[i] != Ready
    {
      forall i | 0 <= i < |st|
        ensures Search(st, cur, 0) == -1 ==> st[i] != Ready
        ensures var ind := Search(st, cur, 0); ind >= 0 ==> st[ind] == Ready
      {
        SearchFindsClosest(st, cur, 0, i);
      }
    }
  }

  // ----- kmt_create -----

  /** All CPUs, and the one that gets the next task. */
  class Kernel {
    const cpus: seq<Cpu>
    var tidcnt: nat
    ghost var created: nat

    /** Tasks are dealt out in turn: after k rounds and r more, the first r CPUs have k + 1 tasks. */
    ghost predicate Valid()
      reads this, cpus, set c | c in cpus :: c.list, set c, t | c in cpus && t in c.Threads() :: t, set c | c in cpus :: c.current
    {
      && |cpus| > 0 && tidcnt == created % |cpus|
      && (forall i :: 0 <= i < |cpus| ==> cpus[i].Valid() && cpus[i].tasknum == Share(created, i, |cpus|))
      && (forall i, j :: 0 <= i < j < |cpus| ==> cpus[i] != cpus[j] && cpus[i].list != cpus[j].list)
    }

    /** How many of the first k tasks CPU i of n gets. */
    static function Share(k: nat, i: nat, n: nat): nat
      requires n > 0
    {
      k / n + if i < k % n then 1 else 0
    }

    static lemma NextTurn(k: nat, n: nat)
      requires n > 0
      ensures (k % n + 1) % n == (k + 1) % n
      ensures Share(k, k % n, n) == k / n
      ensures forall i :: 0 <= i < n ==> Share(k + 1, i, n) == Share(k, i, n) + if i == k % n then 1 else 0
    {
      var q, r := k / n, k % n;
      DivMod(k, n);
      if r + 1 == n {
        assert k + 1 == (q + 1) * n + 0;
        DivModUnique(k + 1, n, q + 1, 0);
        DivModUnique(r + 1, n, 1, 0);
      } else {
        DivModUnique(k + 1, n, q, r + 1);
        DivModUnique(r + 1, n, 0, r + 1);
      }
    }

    ghost function Target(): Cpu
      requires tidcnt < |cpus|
      reads this
    {
      cpus[tidcnt]
    }

    /** The task goes to the CPU whose turn it is; the lists of the others stay. */
    method Deal(task: Thread)
      requires Valid() && Target().tasknum < NTHREAD
      requires forall c :: c in cpus ==> task !in c.Threads() && task != c.current
      modifies task, Target()`tasknum, Target().list
      ensures forall i :: 0 <= i < |cpus| ==>
        cpus[i].Valid() && cpus[i].tasknum == old(cpus[i].tasknum) + if i == tidcnt then 1 else 0
      ensures task.status == Ready && !task.hasCpu && task.id == old(Target().tasknum) && Target().list[task.id] == task
    {
      hide Share;
      cpus[tidcnt].Append(task);
      forall i | 0 <= i < |cpus| && i != tidcnt ensures cpus[i].Valid() && cpus[i].tasknum == old(cpus[i].tasknum) {
        assert cpus[i] != cpus[tidcnt] && cpus[i].list != cpus[tidcnt].list && task !in old(cpus[i].Threads());
      }
    }

    /** kmt_create, lines 203-238: the k-th task goes to CPU k modulo the number of CPUs, to the end of
        its list, and its id is its place there. The code does not check that the list has room: overrun
        stands for a write behind it, which comes with the task number NTHREAD times the number of CPUs. */
    method Create(task: Thread) returns (overrun: bool)
      requires Valid()
      requires forall c :: c in cpus ==> task !in c.Threads() && task != c.current
      modifies this`tidcnt, this`created, task, Target()`tasknum, Target().list
      ensures overrun <==> old(created) / |cpus| >= NTHREAD
      ensures Valid() && created == old(created) + if overrun then 0 else 1
      ensures !overrun ==> task.status == Ready && !task.hasCpu && task.id == old(created) / |cpus|
      ensures !overrun ==> cpus[old(created) % |cpus|].list[task.id] == task
      ensures forall c :: c in cpus && c != cpus[old(tidcnt)] ==> c.tasknum == old(c.tasknum)
    {
      hide Share;
      NextTurn(created, |cpus|);
      if cpus[tidcnt].tasknum >= NTHREAD {
        return true;
      }
      overrun := false;
      Deal(task);
      tidcnt := (tidcnt + 1) % |cpus|;
      created := created + 1;
    }
  }
}
