/** semwait and semsignal running interleaved on several CPUs, together with the context switches. */
module Semaphores {
  import opened Ring
  import opened Tasks

  // ----- the system -----

  datatype Lock = Free | Waiter(task: nat) | Signaller(cpu: nat)

  /** A semaphore. Beside the fields of the code it keeps the tasks that ever queued up and those woken
      again, in order. */
  datatype Sem = Sem(value: int, ring: Ring, lock: Lock, joined: seq<nat>, woken: seq<nat>)

  /** Where a task is: outside; about to test the value, for the first time or again; queued and
      suspended but still locked; unlocked but before _yield; yielded; past the test. */
  datatype Pc = Outside | Testing(sem: nat, again: bool) | Parked(sem: nat) | Window(sem: nat) | Back(sem: nat) | Done(sem: nat)

  /** What a CPU does: run its current task; scan for the next task, k of them rejected (all of them
      stands for a scan that has ended); or run semsignal, for its task or in an interrupt handler. */
  datatype Mode = Executing | Switching(k: nat) | Signalling(sem: nat, phase: nat)

  datatype State = State(status: seq<Status>, pc: seq<Pc>, cur: seq<int>, mode: seq<Mode>, sems: seq<Sem>)

  /** The task lists of the CPUs, and one task for each CPU that never waits. */
  datatype Config = Config(home: seq<nat>, slot: seq<nat>, lists: seq<seq<nat>>, idle: seq<nat>)

  ghost predicate Fits(cfg: Config) {
    && |cfg.home| == |cfg.slot| <= NTHREAD
    && (forall t :: 0 <= t < |cfg.home| ==>
      cfg.home[t] < |cfg.lists| && cfg.slot[t] < |cfg.lists[cfg.home[t]]| && cfg.lists[cfg.home[t]][cfg.slot[t]] == t)
    && (forall c, i :: 0 <= c < |cfg.lists| && 0 <= i < |cfg.lists[c]| ==>
      cfg.lists[c][i] < |cfg.home| && cfg.home[cfg.lists[c][i]] == c && cfg.slot[cfg.lists[c][i]] == i)
  }

  /** Every CPU has its task that never waits. */
  ghost predicate HasIdle(cfg: Config) {
    && |cfg.idle| == |cfg.lists|
    && (forall c :: 0 <= c < |cfg.idle| ==> cfg.idle[c] < |cfg.home| && cfg.home[cfg.idle[c]] == c)
  }

  ghost predicate Shaped(cfg: Config, st: State) {
    && |st.status| == |st.pc| == |cfg.home|
    && |st.cur| == |st.mode| == |cfg.lists|
    && (forall t :: 0 <= t < |st.pc| ==> st.pc[t].Outside? || st.pc[t].sem < |st.sems|)
    && (forall c :: 0 <= c < |st.cur| ==> st.cur[c] == -1 || (0 <= st.cur[c] < |cfg.home| && cfg.home[st.cur[c]] == c))
    && (forall c :: 0 <= c < |st.mode| ==>
      match st.mode[c]
      case Executing => true
      case Switching(k) => k <= |cfg.lists[c]|
      case Signalling(s, phase) => s < |st.sems| && phase <= 2)
    && (forall s :: 0 <= s < |st.sems| ==> InBounds(st.sems[s].ring))
  }

  predicate Holds(p: Pc, s: nat) {
    (p.Testing? || p.Parked? || p.Done?) && p.sem == s
  }

  predicate HoldsAny(p: Pc) {
    p.Testing? || p.Parked? || p.Done?
  }

  predicate Waits(p: Pc, s: nat) {
    (p.Parked? || p.Window? || p.Back?) && p.sem == s
  }

  /** Woken from semaphore s, and not yet through its test again. */
  predicate Awake(p: Pc, x: Status, s: nat) {
    p == Testing(s, true) || ((p.Window? || p.Back?) && p.sem == s && x != Suspend)
  }

  /** Task t is what its CPU runs right now. */
  ghost predicate Runs(cfg: Config, st: State, t: nat)
    requires Fits(cfg) && Shaped(cfg, st)
  {
    t < |cfg.home| && st.cur[cfg.home[t]] == t && st.mode[cfg.home[t]].Executing?
  }

  /** Interrupts are on: nothing on this CPU holds a lock. */
  ghost predicate Interruptible(cfg: Config, st: State, c: nat)
    requires Fits(cfg) && Shaped(cfg, st)
  {
    c < |cfg.lists| && st.mode[c].Executing? && (st.cur[c] >= 0 ==> !HoldsAny(st.pc[st.cur[c]]))
  }

  // ----- the steps -----

  datatype Action =
    | Acquire(t: nat, s: nat)   // semwait is called and gets the lock
    | Reacquire(t: nat)         // back from _yield, it gets the lock again
    | Test(t: nat)              // value <= 0: queue up and suspend; otherwise take one
    | Unlock(t: nat)            // queued up: release the lock
    | Yield(t: nat)             // and only then yield
    | Leave(t: nat)             // taken: release the lock and return
    | Call(c: nat, s: nat)      // semsignal is called and gets the lock
    | Add(c: nat)               // value++
    | Wake(c: nat)              // wake the oldest waiter, if any
    | Finish(c: nat)            // release the lock and return
    | Interrupt(c: nat)         // the timer, or a yield outside semwait
    | Scan(c: nat)              // one turn of the loop in kmt_context_switch, or its end

  datatype Outcome = Blocked | Panic | To(st: State)

  function SetSem(st: State, s: nat, sem: Sem): State
    requires s < |st.sems|
  {
    st.(sems := st.sems[s := sem])
  }

  function SetPc(st: State, t: nat, p: Pc): State
    requires t < |st.pc|
  {
    st.(pc := st.pc[t := p])
  }

  function SetMode(st: State, c: nat, m: Mode): State
    requires c < |st.mode|
  {
    st.(mode := st.mode[c := m])
  }

  function Locked(st: State, s: nat, l: Lock): State
    requires s < |st.sems|
  {
    SetSem(st, s, st.sems[s].(lock := l))
  }

  /** Lines 62-65 of sem.c. */
  function Suspended(st: State, t: nat, s: nat): State
    requires s < |st.sems| && t < |st.pc| == |st.status| && InBounds(st.sems[s].ring)
  {
    var sem := st.sems[s];
    SetSem(st, s, sem.(ring := Push(sem.ring, t), joined := sem.joined + [t]))
      .(status := st.status[t := Suspend], pc := st.pc[t := Parked(s)])
  }

  /** Line 74. */
  function Taken(st: State, t: nat, s: nat): State
    requires s < |st.sems| && t < |st.pc|
  {
    var sem := st.sems[s];
    SetPc(SetSem(st, s, sem.(value := sem.value - 1)), t, Done(s))
  }

  /** Line 82. */
  function Added(st: State, c: nat, s: nat): State
    requires s < |st.sems| && c < |st.mode|
  {
    var sem := st.sems[s];
    SetMode(SetSem(st, s, sem.(value := sem.value + 1)), c, Signalling(s, 1))
  }

  /** Lines 89-91. */
  function Woke(st: State, c: nat, s: nat): State
    requires s < |st.sems| && c < |st.mode| && InBounds(st.sems[s].ring)
    requires st.sems[s].ring.wl[st.sems[s].ring.left] != Null
    requires st.sems[s].ring.wl[st.sems[s].ring.left].id < |st.status|
  {
    var sem := st.sems[s];
    var w := sem.ring.wl[sem.ring.left].id;
    SetMode(SetSem(st, s, sem.(ring := Pop(sem.ring), woken := sem.woken + [w])), c, Signalling(s, 2))
      .(status := st.status[w := Ready])
  }

  /** Lines 29-36 of kmthread.c: a task woken meanwhile just goes on. */
  function EnterSwitch(st: State, c: nat): State
    requires c < |st.cur| == |st.mode| && st.cur[c] < |st.status|
  {
    if st.cur[c] >= 0 && st.status[st.cur[c]] == Ready then st.(status := st.status[st.cur[c] := Running])
    else SetMode(st, c, Switching(0))
  }

  /** Lines 61-68: task u is chosen from a list of n. */
  function Chosen(st: State, c: nat, u: nat, n: nat): State
    requires c < |st.cur| == |st.mode| && st.cur[c] < |st.status| && u < |st.status|
  {
    var status := if st.cur[c] >= 0 && st.status[st.cur[c]] == Running then st.status[st.cur[c] := Ready] else st.status;
    SetMode(st, c, Switching(n)).(status := status[u := Running], cur := st.cur[c := u])
  }

  ghost function Slot(cfg: Config, t: int): (i: int)
    requires Fits(cfg) && t < |cfg.home|
    ensures -1 <= i && (t >= 0 ==> 0 <= i < |cfg.lists[cfg.home[t]]|)
  {
    if t < 0 then -1 else cfg.slot[t]
  }

  /** The task looked at next. */
  ghost function Looked(cfg: Config, st: State, c: nat): (u: nat)
    requires Fits(cfg) && Shaped(cfg, st) && c < |cfg.lists| && st.mode[c].Switching? && st.mode[c].k < |cfg.lists[c]|
    ensures u < |cfg.home| && cfg.home[u] == c
  {
    cfg.lists[c][Around(Slot(cfg, st.cur[c]), st.mode[c].k, |cfg.lists[c]|)]
  }

  /** One turn of the loop; behind it, the assertion of line 77 on the task that goes on. */
  ghost function Scanned(cfg: Config, st: State, c: nat): Outcome
    requires Fits(cfg) && Shaped(cfg, st) && c < |cfg.lists| && st.mode[c].Switching?
  {
    if st.mode[c].k == |cfg.lists[c]| then
      if st.cur[c] >= 0 && st.status[st.cur[c]] == Ready then Panic else To(SetMode(st, c, Executing))
    else
      var u := Looked(cfg, st, c);
      if st.status[u] == Ready then To(Chosen(st, c, u, |cfg.lists[c]|))
      else To(SetMode(st, c, Switching(st.mode[c].k + 1)))
  }

  ghost function Step(cfg: Config, st: State, a: Action): Outcome
    requires Fits(cfg) && Shaped(cfg, st)
  {
    match a
    case Acquire(t, s) =>
      if Runs(cfg, st, t) && st.pc[t].Outside? && t !in cfg.idle && s < |st.sems| && st.sems[s].lock.Free?
      then To(Locked(SetPc(st, t, Testing(s, false)), s, Waiter(t)))
      else Blocked
    case Reacquire(t) =>
      if Runs(cfg, st, t) && st.pc[t].Back? && st.sems[st.pc[t].sem].lock.Free?
      then To(Locked(SetPc(st, t, Testing(st.pc[t].sem, true)), st.pc[t].sem, Waiter(t)))
      else Blocked
    case Test(t) =>
      if Runs(cfg, st, t) && st.pc[t].Testing? then
        var s := st.pc[t].sem;
        if st.sems[s].value > 0 then To(Taken(st, t, s))
        else if st.sems[s].ring.wl[st.sems[s].ring.right] != Null then Panic
        else To(Suspended(st, t, s))
      else Blocked
    case Unlock(t) =>
      if Runs(cfg, st, t) && st.pc[t].Parked?
      then To(Locked(SetPc(st, t, Window(st.pc[t].sem)), st.pc[t].sem, Free))
      else Blocked
    case Yield(t) =>
      if Runs(cfg, st, t) && st.pc[t].Window?
      then To(EnterSwitch(SetPc(st, t, Back(st.pc[t].sem)), cfg.home[t]))
      else Blocked
    case Leave(t) =>
      if Runs(cfg, st, t) && st.pc[t].Done?
      then To(Locked(SetPc(st, t, Outside), st.pc[t].sem, Free))
      else Blocked
    case Call(c, s) =>
      if Interruptible(cfg, st, c) && s < |st.sems| && st.sems[s].lock.Free?
      then To(Locked(SetMode(st, c, Signalling(s, 0)), s, Signaller(c)))
      else Blocked
    case Add(c) =>
      if c < |st.mode| && st.mode[c].Signalling? && st.mode[c].phase == 0
      then To(Added(st, c, st.mode[c].sem))
      else Blocked
    case Wake(c) =>
      if c < |st.mode| && st.mode[c].Signalling? && st.mode[c].phase == 1 then
        var s := st.mode[c].sem;
        var r := st.sems[s].ring;
        if r.wl[r.left] != Null then
          if r.wl[r.left].id < |st.status| then To(Woke(st, c, s)) else Panic
        else if r.left != r.right then Panic
        else To(SetMode(st, c, Signalling(s, 2)))
      else Blocked
    case Finish(c) =>
      if c < |st.mode| && st.mode[c].Signalling? && st.mode[c].phase == 2
      then To(Locked(SetMode(st, c, Executing), st.mode[c].sem, Free))
      else Blocked
    case Interrupt(c) =>
      // line 52 asserts that there is a task
      if Interruptible(cfg, st, c) then if cfg.lists[c] == [] then Panic else To(EnterSwitch(st, c)) else Blocked
    case Scan(c) =>
      if c < |st.mode| && st.mode[c].Switching? then Scanned(cfg, st, c) else Blocked
  }

  // ----- what every step keeps -----

  function Queue(sem: Sem): seq<nat>
    requires |sem.woken| <= |sem.joined|
  {
    sem.joined[|sem.woken|..]
  }

  /** The value is not negative, and the ring holds those who joined and are not woken yet, oldest first and
      nobody twice. */
  ghost predicate SemOk(sem: Sem) {
    && sem.value >= 0
    && sem.woken <= sem.joined
    && Represents(sem.ring, Queue(sem)) && Distinct(Queue(sem))
  }

  /** The lock of semaphore s names its owner. */
  ghost predicate LockOk(pc: seq<Pc>, mode: seq<Mode>, lock: Lock, s: nat) {
    && (lock.Waiter? ==> lock.task < |pc|) && (lock.Signaller? ==> lock.cpu < |mode|)
    && (forall t :: 0 <= t < |pc| ==> (lock == Waiter(t) <==> Holds(pc[t], s)))
    && (forall c :: 0 <= c < |mode| ==> (lock == Signaller(c) <==> mode[c].Signalling? && mode[c].sem == s))
  }

  /** Queued are exactly the suspended tasks that wait for semaphore s. */
  ghost predicate QueueOk(pc: seq<Pc>, status: seq<Status>, q: seq<nat>, s: nat)
    requires |pc| == |status|
  {
    && (forall t :: t in q ==> t < |pc|)
    && (forall t :: 0 <= t < |pc| ==> (t in q <==> Waits(pc[t], s) && status[t] == Suspend))
  }

  function Woken(pc: seq<Pc>, status: seq<Status>, s: nat): set<nat>
    requires |pc| == |status|
  {
    set t: nat | t < |pc| && Awake(pc[t], status[t], s)
  }

  /** A signal that has raised the value and not yet looked for a waiter. */
  ghost function Pending(mode: seq<Mode>, s: nat): nat {
    if exists c :: 0 <= c < |mode| && mode[c] == Signalling(s, 1) then 1 else 0
  }

  /** No lost wakeup: while somebody waits, every unit of the value belongs to a task on its way. */
  ghost predicate NoneLost(pc: seq<Pc>, status: seq<Status>, mode: seq<Mode>, q: seq<nat>, value: int, s: nat)
    requires |pc| == |status|
  {
    q != [] ==> value <= |Woken(pc, status, s)| + Pending(mode, s)
  }

  ghost predicate SemInv(pc: seq<Pc>, status: seq<Status>, mode: seq<Mode>, sem: Sem, s: nat)
    requires |pc| == |status|
  {
    && SemOk(sem)
    && LockOk(pc, mode, sem.lock, s)
    && QueueOk(pc, status, Queue(sem), s)
    && NoneLost(pc, status, mode, Queue(sem), sem.value, s)
  }

  /** Whoever holds a lock runs with interrupts off; only a current task is _RUNNING; suspended is
      only who has queued up. */
  ghost predicate TaskOk(p: Pc, x: Status, current: bool, executing: bool) {
    && (HoldsAny(p) ==> current && executing)
    && (x == Running ==> current)
    && (x == Suspend ==> p.Parked? || p.Window? || p.Back?)
    && (p.Parked? ==> x == Suspend)
  }

  /** What a CPU runs is _RUNNING unless it is on its way to _yield; a scan on behalf of a task that
      is not has the task that never waits still ahead of it. */
  ghost predicate CpuOk(p: Pc, x: Status, m: Mode, ahead: nat) {
    if m.Switching? then x != Running ==> m.k <= ahead
    else x == Running || p.Parked? || p.Window?
  }

  ghost predicate TasksOk(cfg: Config, st: State)
    requires Fits(cfg) && Shaped(cfg, st)
  {
    forall t :: 0 <= t < |st.pc| ==>
      TaskOk(st.pc[t], st.status[t], st.cur[cfg.home[t]] == t, st.mode[cfg.home[t]].Executing?)
  }

  ghost function IdleAhead(cfg: Config, cur: int, c: nat): nat
    requires Fits(cfg) && HasIdle(cfg) && c < |cfg.lists| && cur < |cfg.home| && (cur >= 0 ==> cfg.home[cur] == c)
  {
    Offset(Slot(cfg, cur), cfg.slot[cfg.idle[c]], |cfg.lists[c]|)
  }

  ghost predicate CpusOk(cfg: Config, st: State)
    requires Fits(cfg) && HasIdle(cfg) && Shaped(cfg, st)
  {
    && (forall c :: 0 <= c < |st.cur| && st.cur[c] >= 0 ==>
      CpuOk(st.pc[st.cur[c]], st.status[st.cur[c]], st.mode[c], IdleAhead(cfg, st.cur[c], c)))
    && (forall c :: 0 <= c < |cfg.idle| ==> st.pc[cfg.idle[c]].Outside?)
  }

  ghost predicate SemsOk(st: State)
    requires |st.pc| == |st.status|
  {
    forall s :: 0 <= s < |st.sems| ==> SemInv(st.pc, st.status, st.mode, st.sems[s], s)
  }

  ghost predicate Inv(cfg: Config, st: State) {
    Fits(cfg) && HasIdle(cfg) && Shaped(cfg, st) && TasksOk(cfg, st) && CpusOk(cfg, st) && SemsOk(st)
  }

  // ----- semaphores that a step does not touch -----

  /** Nothing about task or CPU that semaphore s could see has changed. */
  predicate SameTask(p: Pc, x: Status, p': Pc, x': Status, s: nat) {
    && Holds(p, s) == Holds(p', s) && Waits(p, s) == Waits(p', s) && Awake(p, x, s) == Awake(p', x', s)
    && (Waits(p, s) ==> (x == Suspend) == (x' == Suspend))
  }

  predicate SameMode(m: Mode, m': Mode, s: nat) {
    && (m.Signalling? && m.sem == s) == (m'.Signalling? && m'.sem == s)
    && (m == Signalling(s, 1)) == (m' == Signalling(s, 1))
  }

  lemma Untouched(pc: seq<Pc>, status: seq<Status>, mode: seq<Mode>, pc': seq<Pc>, status': seq<Status>, mode': seq<Mode>,
                  sem: Sem, s: nat)
    requires |pc| == |status| == |pc'| == |status'| && |mode| == |mode'|
    requires SemInv(pc, status, mode, sem, s)
    requires forall t :: 0 <= t < |pc| ==> SameTask(pc[t], status[t], pc'[t], status'[t], s)
    requires forall c :: 0 <= c < |mode| ==> SameMode(mode[c], mode'[c], s)
    ensures SemInv(pc', status', mode', sem, s)
  {
    var q := Queue(sem);
    hide SemOk;
    forall t | 0 <= t < |pc|
      ensures (sem.lock == Waiter(t) <==> Holds(pc'[t], s)) && Awake(pc[t], status[t], s) == Awake(pc'[t], status'[t], s)
      ensures t in q <==> Waits(pc'[t], s) && status'[t] == Suspend
    {
      assert SameTask(pc[t], status[t], pc'[t], status'[t], s);
    }
    forall c | 0 <= c < |mode|
      ensures sem.lock == Signaller(c) <==> mode'[c].Signalling? && mode'[c].sem == s
      ensures mode[c] == Signalling(s, 1) <==> mode'[c] == Signalling(s, 1)
    {
      assert SameMode(mode[c], mode'[c], s);
    }
    assert Woken(pc', status', s) == Woken(pc, status, s);
  }

  // ----- steps inside semwait -----

  predicate About(p: Pc, s: nat) {
    p.Outside? || p.sem == s
  }

  /** Task t goes from one place in semwait(s) to another. */
  function Moved(st: State, t: nat, p: Pc, x: Status, s: nat, sem: Sem): State
    requires t < |st.pc| == |st.status| && s < |st.sems|
  {
    st.(status := st.status[t := x], pc := st.pc[t := p], sems := st.sems[s := sem])
  }

  lemma MoveKeeps(cfg: Config, st: State, t: nat, p: Pc, x: Status, s: nat, sem: Sem)
    requires Inv(cfg, st) && Runs(cfg, st, t) && s < |st.sems|
    requires About(st.pc[t], s) && About(p, s) && t !in cfg.idle
    requires SemInv(st.pc[t := p], st.status[t := x], st.mode, sem, s)
    requires TaskOk(p, x, true, true) && (x == Running || p.Parked? || p.Window?)
    ensures Inv(cfg, Moved(st, t, p, x, s, sem))
  {
    assert InBounds(sem.ring);
    hide SemInv;
    MoveTouchesOne(st, t, p, x, s, sem);
    MoveIsOrderly(cfg, st, t, p, x, s, sem);
  }

  lemma MoveTouchesOne(st: State, t: nat, p: Pc, x: Status, s: nat, sem: Sem)
    requires |st.pc| == |st.status| && t < |st.pc| && SemsOk(st) && s < |st.sems|
    requires About(st.pc[t], s) && About(p, s)
    requires SemInv(st.pc[t := p], st.status[t := x], st.mode, sem, s)
    ensures SemsOk(Moved(st, t, p, x, s, sem))
  {
    var st' := Moved(st, t, p, x, s, sem);
    hide SemInv;
    forall s' | 0 <= s' < |st.sems| ensures SemInv(st'.pc, st'.status, st'.mode, st'.sems[s'], s') {
      if s' != s {
        Untouched(st.pc, st.status, st.mode, st'.pc, st'.status, st'.mode, st.sems[s'], s');
      }
    }
  }

  lemma MoveIsOrderly(cfg: Config, st: State, t: nat, p: Pc, x: Status, s: nat, sem: Sem)
    requires Fits(cfg) && HasIdle(cfg) && Shaped(cfg, st) && TasksOk(cfg, st) && CpusOk(cfg, st)
    requires Runs(cfg, st, t) && s < |st.sems| && About(p, s) && t !in cfg.idle && InBounds(sem.ring)
    requires TaskOk(p, x, true, true) && (x == Running || p.Parked? || p.Window?)
    ensures var st' := Moved(st, t, p, x, s, sem); Shaped(cfg, st') && TasksOk(cfg, st') && CpusOk(cfg, st')
  {
  }

  /** Locking and unlocking: the owner of the lock changes, and nothing else does. */
  lemma LockStep(pc: seq<Pc>, status: seq<Status>, mode: seq<Mode>, sem: Sem, s: nat, t: nat, p: Pc)
    requires |pc| == |status| && t < |pc| && SemInv(pc, status, mode, sem, s)
    requires Waits(pc[t], s) && status[t] == Suspend <==> Waits(p, s) && status[t] == Suspend
    requires Awake(pc[t], status[t], s) == Awake(p, status[t], s)
    requires Holds(pc[t], s) != Holds(p, s) && (Holds(p, s) ==> sem.lock.Free?)
    ensures SemInv(pc[t := p], status, mode, sem.(lock := if Holds(p, s) then Waiter(t) else Free), s)
  {
    var pc', sem' := pc[t := p], sem.(lock := if Holds(p, s) then Waiter(t) else Free);
    assert SemOk(sem') && Queue(sem') == Queue(sem);
    assert Woken(pc', status, s) == Woken(pc, status, s);
    assert LockOk(pc', mode, sem'.lock, s);
  }

  /** One is taken: a newcomer finds more than the woken tasks need, and a woken task takes its own. */
  lemma TakeStep(pc: seq<Pc>, status: seq<Status>, mode: seq<Mode>, sem: Sem, s: nat, t: nat)
    requires |pc| == |status| && t < |pc| && SemInv(pc, status, mode, sem, s)
    requires pc[t].Testing? && pc[t].sem == s && sem.value > 0 && status[t] != Suspend
    ensures SemInv(pc[t := Done(s)], status, mode, sem.(value := sem.value - 1), s)
  {
    var pc', sem' := pc[t := Done(s)], sem.(value := sem.value - 1);
    assert SemOk(sem') && Queue(sem') == Queue(sem);
    assert LockOk(pc', mode, sem'.lock, s);
    assert Woken(pc', status, s) == Woken(pc, status, s) - {t};
  }

  /** A task that queues up finds room in the ring: the cell at wlright is NULL. */
  lemma SuspendStep(pc: seq<Pc>, status: seq<Status>, mode: seq<Mode>, sem: Sem, s: nat, t: nat)
    requires |pc| == |status| <= NTHREAD && t < |pc| && SemInv(pc, status, mode, sem, s)
    requires pc[t].Testing? && pc[t].sem == s && sem.value <= 0 && status[t] != Suspend
    ensures sem.ring.wl[sem.ring.right] == Null
    ensures SemInv(pc[t := Parked(s)], status[t := Suspend], mode,
                   sem.(ring := Push(sem.ring, t), joined := sem.joined + [t]), s)
  {
    hide Represents, Distinct, LockOk, QueueOk, Woken, Pending, Push;
    JoinRing(sem, |pc|, t, pc, status, s);
    JoinTasks(pc, status, mode, sem.lock, Queue(sem), s, t);
  }

  lemma JoinRing(sem: Sem, n: nat, t: nat, pc: seq<Pc>, status: seq<Status>, s: nat)
    requires SemOk(sem) && |pc| == |status| == n <= NTHREAD && t < n && QueueOk(pc, status, Queue(sem), s) && status[t] != Suspend
    ensures sem.ring.wl[sem.ring.right] == Null
    ensures var sem' := sem.(ring := Push(sem.ring, t), joined := sem.joined + [t]);
      SemOk(sem') && Queue(sem') == Queue(sem) + [t]
  {
    assert InBounds(sem.ring);
    hide Represents, Push;
    var q := Queue(sem);
    QueueHasRoom(q, n, t);
    PushAppends(sem.ring, q, t);
    assert Queue(sem.(ring := Push(sem.ring, t), joined := sem.joined + [t])) == q + [t];
  }

  lemma JoinTasks(pc: seq<Pc>, status: seq<Status>, mode: seq<Mode>, lock: Lock, q: seq<nat>, s: nat, t: nat)
    requires |pc| == |status| && t < |pc| && LockOk(pc, mode, lock, s) && QueueOk(pc, status, q, s)
    requires pc[t].Testing? && pc[t].sem == s && status[t] != Suspend
    ensures LockOk(pc[t := Parked(s)], mode, lock, s)
    ensures QueueOk(pc[t := Parked(s)], status[t := Suspend], q + [t], s)
  {
  }

  // ----- steps inside semsignal -----

  /** CPU c goes from one place in semsignal(s) to another. */
  function Signalled(st: State, c: nat, m: Mode, status: seq<Status>, s: nat, sem: Sem): State
    requires c < |st.mode| && s < |st.sems|
  {
    st.(status := status, mode := st.mode[c := m], sems := st.sems[s := sem])
  }

  predicate Idles(m: Mode, s: nat) {
    m.Executing? || (m.Signalling? && m.sem == s && m.phase <= 2)
  }

  lemma SignalKeeps(cfg: Config, st: State, c: nat, m: Mode, status: seq<Status>, s: nat, sem: Sem)
    requires Inv(cfg, st) && c < |st.mode| && s < |st.sems| && |status| == |st.status|
    requires Idles(st.mode[c], s) && Idles(m, s) && (st.mode[c].Executing? ==> Interruptible(cfg, st, c))
    requires forall t :: 0 <= t < |status| ==> (
      status[t] == st.status[t] ||
      (Waits(st.pc[t], s) && !st.pc[t].Parked? && st.status[t] == Suspend && status[t] == Ready))
    requires SemInv(st.pc, status, st.mode[c := m], sem, s)
    ensures Inv(cfg, Signalled(st, c, m, status, s, sem))
  {
    assert InBounds(sem.ring);
    hide SemInv;
    SignalTouchesOne(st, c, m, status, s, sem);
    SignalIsOrderly(cfg, st, c, m, status, s, sem);
  }

  lemma SignalTouchesOne(st: State, c: nat, m: Mode, status: seq<Status>, s: nat, sem: Sem)
    requires |st.pc| == |st.status| && c < |st.mode| && s < |st.sems| && |status| == |st.status| && SemsOk(st)
    requires Idles(st.mode[c], s) && Idles(m, s)
    requires forall t :: 0 <= t < |status| ==> (
      status[t] == st.status[t] ||
      (Waits(st.pc[t], s) && !st.pc[t].Parked? && st.status[t] == Suspend && status[t] == Ready))
    requires SemInv(st.pc, status, st.mode[c := m], sem, s)
    ensures SemsOk(Signalled(st, c, m, status, s, sem))
  {
    var st' := Signalled(st, c, m, status, s, sem);
    hide SemInv;
    forall s' | 0 <= s' < |st.sems| ensures SemInv(st'.pc, st'.status, st'.mode, st'.sems[s'], s') {
      if s' != s {
        Untouched(st.pc, st.status, st.mode, st'.pc, st'.status, st'.mode, st.sems[s'], s');
      }
    }
  }

  lemma SignalIsOrderly(cfg: Config, st: State, c: nat, m: Mode, status: seq<Status>, s: nat, sem: Sem)
    requires Fits(cfg) && HasIdle(cfg) && Shaped(cfg, st) && TasksOk(cfg, st) && CpusOk(cfg, st)
    requires c < |st.mode| && s < |st.sems| && |status| == |st.status| && InBounds(sem.ring)
    requires Idles(st.mode[c], s) && Idles(m, s) && (st.mode[c].Executing? ==> Interruptible(cfg, st, c))
    requires forall t :: 0 <= t < |status| ==> (
      status[t] == st.status[t] ||
      (Waits(st.pc[t], s) && !st.pc[t].Parked? && st.status[t] == Suspend && status[t] == Ready))
    ensures var st' := Signalled(st, c, m, status, s, sem); Shaped(cfg, st') && TasksOk(cfg, st') && CpusOk(cfg, st')
  {
    hide TasksOk, CpusOk;
    SignalTasks(cfg, st, c, m, status, s, sem);
    SignalCpus(cfg, st, c, m, status, s, sem);
  }

  lemma SignalTasks(cfg: Config, st: State, c: nat, m: Mode, status: seq<Status>, s: nat, sem: Sem)
    requires Fits(cfg) && HasIdle(cfg) && Shaped(cfg, st) && TasksOk(cfg, st) && CpusOk(cfg, st)
    requires c < |st.mode| && s < |st.sems| && |status| == |st.status| && InBounds(sem.ring)
    requires Idles(st.mode[c], s) && Idles(m, s) && (st.mode[c].Executing? ==> Interruptible(cfg, st, c))
    requires forall t :: 0 <= t < |status| ==> (
      status[t] == st.status[t] ||
      (Waits(st.pc[t], s) && !st.pc[t].Parked? && st.status[t] == Suspend && status[t] == Ready))
    ensures var st' := Signalled(st, c, m, status, s, sem); Shaped(cfg, st') && TasksOk(cfg, st')
  {
    var st' := Signalled(st, c, m, status, s, sem);
    assert Shaped(cfg, st');
    hide Fits, HasIdle, Shaped, CpusOk;
    forall t | 0 <= t < |st.pc|
      ensures TaskOk(st'.pc[t], st'.status[t], st'.cur[cfg.home[t]] == t, st'.mode[cfg.home[t]].Executing?)
    {
      assert TaskOk(st.pc[t], st.status[t], st.cur[cfg.home[t]] == t, st.mode[cfg.home[t]].Executing?);
    }
  }

  lemma SignalCpus(cfg: Config, st: State, c: nat, m: Mode, status: seq<Status>, s: nat, sem: Sem)
    requires Fits(cfg) && HasIdle(cfg) && Shaped(cfg, st) && TasksOk(cfg, st) && CpusOk(cfg, st)
    requires c < |st.mode| && s < |st.sems| && |status| == |st.status| && InBounds(sem.ring)
    requires Idles(st.mode[c], s) && Idles(m, s) && (st.mode[c].Executing? ==> Interruptible(cfg, st, c))
    requires forall t :: 0 <= t < |status| ==> (
      status[t] == st.status[t] ||
      (Waits(st.pc[t], s) && !st.pc[t].Parked? && st.status[t] == Suspend && status[t] == Ready))
    ensures var st' := Signalled(st, c, m, status, s, sem); Shaped(cfg, st') && CpusOk(cfg, st')
  {
    var st' := Signalled(st, c, m, status, s, sem);
    assert Shaped(cfg, st');
    forall b | 0 <= b < |st.cur| && st.cur[b] >= 0
      ensures CpuOk(st'.pc[st'.cur[b]], st'.status[st'.cur[b]], st'.mode[b], IdleAhead(cfg, st'.cur[b], b))
    {
      assert CpuOk(st.pc[st.cur[b]], st.status[st.cur[b]], st.mode[b], IdleAhead(cfg, st.cur[b], b));
    }
  }

  /** Locking and unlocking in semsignal. */
  lemma CallStep(pc: seq<Pc>, status: seq<Status>, mode: seq<Mode>, sem: Sem, s: nat, c: nat, m: Mode)
    requires |pc| == |status| && c < |mode| && SemInv(pc, status, mode, sem, s)
    requires (m == Signalling(s, 0) && mode[c].Executing? && sem.lock.Free?) || (m == Executing && mode[c] == Signalling(s, 2))
    ensures SemInv(pc, status, mode[c := m], sem.(lock := if m.Signalling? then Signaller(c) else Free), s)
  {
    var mode', sem' := mode[c := m], sem.(lock := if m.Signalling? then Signaller(c) else Free);
    assert SemOk(sem') && Queue(sem') == Queue(sem);
    assert LockOk(pc, mode', sem'.lock, s);
    forall i | 0 <= i < |mode| ensures mode[i] == Signalling(s, 1) <==> mode'[i] == Signalling(s, 1) {
    }
    assert Pending(mode', s) == Pending(mode, s);
  }

  /** The new unit of the value is pending until a waiter has been looked for. */
  lemma AddStep(pc: seq<Pc>, status: seq<Status>, mode: seq<Mode>, sem: Sem, s: nat, c: nat)
    requires |pc| == |status| && c < |mode| && SemInv(pc, status, mode, sem, s)
    requires mode[c] == Signalling(s, 0)
    ensures SemInv(pc, status, mode[c := Signalling(s, 1)], sem.(value := sem.value + 1), s)
  {
    var mode', sem' := mode[c := Signalling(s, 1)], sem.(value := sem.value + 1);
    assert SemOk(sem') && Queue(sem') == Queue(sem);
    assert LockOk(pc, mode', sem'.lock, s);
    assert mode'[c] == Signalling(s, 1);
    assert Pending(mode', s) == 1;
    forall i | 0 <= i < |mode| ensures mode[i] != Signalling(s, 1) {
      assert i != c ==> sem.lock != Signaller(i);
    }
  }

  /** Only the owner of the lock is inside, so nothing is pending behind its back. */
  lemma PendingSettled(pc: seq<Pc>, mode: seq<Mode>, lock: Lock, s: nat, c: nat)
    requires c < |mode| && LockOk(pc, mode, lock, s) && mode[c] == Signalling(s, 1)
    ensures LockOk(pc, mode[c := Signalling(s, 2)], lock, s)
    ensures Pending(mode, s) == 1 && Pending(mode[c := Signalling(s, 2)], s) == 0
  {
    var mode' := mode[c := Signalling(s, 2)];
    forall i | 0 <= i < |mode| ensures mode'[i] != Signalling(s, 1) {
      assert i != c ==> lock != Signaller(i);
    }
  }

  /** The queue without its first task, who is ready now. */
  lemma WakeFirst(pc: seq<Pc>, status: seq<Status>, q: seq<nat>, s: nat)
    requires |pc| == |status| && q != [] && q[0] < |pc| && Distinct(q) && QueueOk(pc, status, q, s) && !pc[q[0]].Parked?
    ensures Distinct(q[1..]) && QueueOk(pc, status[q[0] := Ready], q[1..], s)
    ensures |Woken(pc, status[q[0] := Ready], s)| == |Woken(pc, status, s)| + 1
  {
    var w, status' := q[0], status[q[0] := Ready];
    assert q == [w] + q[1..];
    assert forall t :: t in q[1..] ==> t in q;
    forall t | 0 <= t < |pc| ensures t in q[1..] <==> Waits(pc[t], s) && status'[t] == Suspend {
      assert t in q <==> t == w || t in q[1..];
    }
    assert w in q;
    assert Woken(pc, status', s) == Woken(pc, status, s) + {w};
  }

  /** The oldest waiter, if there is one, gets it; otherwise the ends of the ring meet. */
  lemma WakeStep(pc: seq<Pc>, status: seq<Status>, mode: seq<Mode>, sem: Sem, s: nat, c: nat)
    requires |pc| == |status| && c < |mode| && SemInv(pc, status, mode, sem, s)
    requires mode[c] == Signalling(s, 1)
    ensures sem.ring.wl[sem.ring.left] == Null ==>
      sem.ring.left == sem.ring.right && SemInv(pc, status, mode[c := Signalling(s, 2)], sem, s)
    ensures sem.ring.wl[sem.ring.left] != Null ==>
      var w := sem.ring.wl[sem.ring.left].id;
      && w < |pc| && Waits(pc[w], s) && !pc[w].Parked? && status[w] == Suspend
      && SemInv(pc, status[w := Ready], mode[c := Signalling(s, 2)],
                sem.(ring := Pop(sem.ring), woken := sem.woken + [w]), s)
  {
    var q := Queue(sem);
    PopRemovesFirst(sem.ring, q);
    PendingSettled(pc, mode, sem.lock, s, c);
    if q != [] {
      var w := q[0];
      assert w in q && !Holds(pc[w], s);
      WakeFirst(pc, status, q, s);
      var sem' := sem.(ring := Pop(sem.ring), woken := sem.woken + [w]);
      hide Represents, LockOk, QueueOk, Woken, Pending;
      assert sem.joined == sem.woken + q;
      assert Queue(sem') == q[1..];
    }
  }

  // ----- context switches -----

  /** Statuses go between _READY and _RUNNING only, so that no semaphore notices. */
  lemma SwitchKeeps(cfg: Config, st: State, st': State)
    requires Inv(cfg, st) && Shaped(cfg, st') && st'.sems == st.sems
    requires forall t :: 0 <= t < |st.pc| ==>
      (st'.pc[t] == st.pc[t] || (st.pc[t].Window? && st'.pc[t] == Back(st.pc[t].sem))) &&
      (st.status[t] == Suspend <==> st'.status[t] == Suspend)
    requires forall c :: 0 <= c < |st.mode| ==> st'.mode[c] == st.mode[c] || !(st.mode[c].Signalling? || st'.mode[c].Signalling?)
    requires TasksOk(cfg, st') && CpusOk(cfg, st')
    ensures Inv(cfg, st')
  {
    hide SemInv;
    forall s | 0 <= s < |st.sems| ensures SemInv(st'.pc, st'.status, st'.mode, st'.sems[s], s) {
      Untouched(st.pc, st.status, st.mode, st'.pc, st'.status, st'.mode, st.sems[s], s);
    }
  }

  /** The current task of c moves on to p, which is where it is or behind its _yield. */
  predicate Yields(st: State, c: nat, p: Pc)
    requires c < |st.cur| && st.cur[c] < |st.pc|
  {
    if st.cur[c] < 0 then p == Outside
    else p == st.pc[st.cur[c]] || (st.pc[st.cur[c]].Window? && p == Back(st.pc[st.cur[c]].sem))
  }

  function Yielded(st: State, c: nat, p: Pc): State
    requires c < |st.cur| && st.cur[c] < |st.pc|
  {
    if st.cur[c] < 0 then st else SetPc(st, st.cur[c], p)
  }

  /** A task woken before it yields goes straight on. */
  lemma StaysKeeps(cfg: Config, st: State, c: nat, p: Pc)
    requires Inv(cfg, st) && Interruptible(cfg, st, c) && Yields(st, c, p)
    requires st.cur[c] >= 0 && st.status[st.cur[c]] == Ready
    ensures Inv(cfg, EnterSwitch(Yielded(st, c, p), c))
  {
    var st' := EnterSwitch(Yielded(st, c, p), c);
    hide SemInv;
    assert Shaped(cfg, st');
    assert TasksOk(cfg, st');
    assert CpusOk(cfg, st');
    SwitchKeeps(cfg, st, st');
  }

  /** Otherwise the scan starts, with the whole list ahead of it. */
  lemma ScanStarts(cfg: Config, st: State, c: nat, p: Pc)
    requires Inv(cfg, st) && Interruptible(cfg, st, c) && Yields(st, c, p)
    requires st.cur[c] < 0 || st.status[st.cur[c]] != Ready
    ensures Inv(cfg, EnterSwitch(Yielded(st, c, p), c))
  {
    hide SemInv, SemsOk, IdleAhead, CpusOk, TasksOk;
    var st' := EnterSwitch(Yielded(st, c, p), c);
    assert Shaped(cfg, st');
    StartedTasks(cfg, st, st', c, p);
    StartedCpus(cfg, st, st', c, p);
    SwitchKeeps(cfg, st, st');
  }

  lemma StartedTasks(cfg: Config, st: State, st': State, c: nat, p: Pc)
    requires Inv(cfg, st) && Interruptible(cfg, st, c) && Yields(st, c, p) && Shaped(cfg, st')
    requires st' == SetMode(Yielded(st, c, p), c, Switching(0))
    ensures TasksOk(cfg, st')
  {
    hide SemInv, SemsOk, CpusOk, HasIdle, SemOk;
    forall t | 0 <= t < |st.pc|
      ensures TaskOk(st'.pc[t], st'.status[t], st'.cur[cfg.home[t]] == t, st'.mode[cfg.home[t]].Executing?)
    {
      assert TaskOk(st.pc[t], st.status[t], st.cur[cfg.home[t]] == t, st.mode[cfg.home[t]].Executing?);
    }
  }

  lemma StartedCpus(cfg: Config, st: State, st': State, c: nat, p: Pc)
    requires Inv(cfg, st) && Interruptible(cfg, st, c) && Yields(st, c, p) && Shaped(cfg, st')
    requires st' == SetMode(Yielded(st, c, p), c, Switching(0))
    ensures CpusOk(cfg, st')
  {
    hide SemInv, SemsOk, IdleAhead;
    forall b | 0 <= b < |st.cur| && st.cur[b] >= 0
      ensures CpuOk(st'.pc[st'.cur[b]], st'.status[st'.cur[b]], st'.mode[b], IdleAhead(cfg, st'.cur[b], b))
    {
      assert CpuOk(st.pc[st.cur[b]], st.status[st.cur[b]], st.mode[b], IdleAhead(cfg, st.cur[b], b));
    }
  }

  lemma EnterKeeps(cfg: Config, st: State, c: nat, p: Pc)
    requires Inv(cfg, st) && Interruptible(cfg, st, c) && Yields(st, c, p)
    ensures Inv(cfg, EnterSwitch(Yielded(st, c, p), c))
  {
    if st.cur[c] >= 0 && st.status[st.cur[c]] == Ready {
      StaysKeeps(cfg, st, c, p);
    } else {
      ScanStarts(cfg, st, c, p);
    }
  }

  lemma ChosenKeeps(cfg: Config, st: State, c: nat, u: nat)
    requires Inv(cfg, st) && c < |st.mode| && st.mode[c].Switching?
    requires u < |cfg.home| && cfg.home[u] == c && st.status[u] == Ready
    ensures Inv(cfg, Chosen(st, c, u, |cfg.lists[c]|))
  {
    hide SemInv, SemsOk, IdleAhead, CpusOk, TasksOk;
    var st' := Chosen(st, c, u, |cfg.lists[c]|);
    assert Shaped(cfg, st');
    ChosenTasks(cfg, st, c, u);
    ChosenCpus(cfg, st, c, u);
    SwitchKeeps(cfg, st, st');
  }

  lemma ChosenTasks(cfg: Config, st: State, c: nat, u: nat)
    requires Inv(cfg, st) && c < |st.mode| && st.mode[c].Switching?
    requires u < |cfg.home| && cfg.home[u] == c && st.status[u] == Ready
    ensures var st' := Chosen(st, c, u, |cfg.lists[c]|); Shaped(cfg, st') && TasksOk(cfg, st')
  {
    hide SemInv, SemsOk, CpusOk, HasIdle;
    var st' := Chosen(st, c, u, |cfg.lists[c]|);
    assert Shaped(cfg, st');
    forall t | 0 <= t < |st.pc|
      ensures TaskOk(st'.pc[t], st'.status[t], st'.cur[cfg.home[t]] == t, st'.mode[cfg.home[t]].Executing?)
    {
      assert TaskOk(st.pc[t], st.status[t], st.cur[cfg.home[t]] == t, st.mode[cfg.home[t]].Executing?);
    }
  }

  lemma ChosenCpus(cfg: Config, st: State, c: nat, u: nat)
    requires Inv(cfg, st) && c < |st.mode| && st.mode[c].Switching?
    requires u < |cfg.home| && cfg.home[u] == c && st.status[u] == Ready
    ensures var st' := Chosen(st, c, u, |cfg.lists[c]|); Shaped(cfg, st') && CpusOk(cfg, st')
  {
    hide SemInv, SemsOk, IdleAhead, TasksOk;
    var st' := Chosen(st, c, u, |cfg.lists[c]|);
    assert Shaped(cfg, st');
    forall b | 0 <= b < |st.cur| && st'.cur[b] >= 0
      ensures CpuOk(st'.pc[st'.cur[b]], st'.status[st'.cur[b]], st'.mode[b], IdleAhead(cfg, st'.cur[b], b))
    {
      if b != c {
        assert CpuOk(st.pc[st.cur[b]], st.status[st.cur[b]], st.mode[b], IdleAhead(cfg, st.cur[b], b));
      }
    }
  }

  /** The task that never waits is _READY unless it is the one running. */
  lemma IdleIsReady(cfg: Config, st: State, c: nat)
    requires Inv(cfg, st) && c < |st.mode| && st.cur[c] >= 0 && st.status[st.cur[c]] != Running
    ensures st.status[cfg.idle[c]] == Ready
  {
    var i := cfg.idle[c];
    assert TaskOk(st.pc[i], st.status[i], st.cur[cfg.home[i]] == i, st.mode[cfg.home[i]].Executing?);
  }

  /** A rejected task leaves the task that never waits ahead; so a scan for a suspended task succeeds. */
  lemma RejectedKeeps(cfg: Config, st: State, c: nat)
    requires Inv(cfg, st) && c < |st.mode| && st.mode[c].Switching? && st.mode[c].k < |cfg.lists[c]|
    requires st.status[Looked(cfg, st, c)] != Ready
    ensures Inv(cfg, SetMode(st, c, Switching(st.mode[c].k + 1)))
  {
    var st', k, n := SetMode(st, c, Switching(st.mode[c].k + 1)), st.mode[c].k, |cfg.lists[c]|;
    if st.cur[c] >= 0 && st.status[st.cur[c]] != Running {
      IdleIsReady(cfg, st, c);
      EveryIndexIsLookedAt(Slot(cfg, st.cur[c]), k, cfg.slot[cfg.idle[c]], n);
      assert CpuOk(st.pc[st.cur[c]], st.status[st.cur[c]], st.mode[c], IdleAhead(cfg, st.cur[c], c));
      assert k < IdleAhead(cfg, st.cur[c], c) < n;
    }
    hide SemInv, SemsOk, Around, Offset;
    assert Shaped(cfg, st');
    assert TasksOk(cfg, st');
    assert CpusOk(cfg, st');
    SwitchKeeps(cfg, st, st');
  }

  /** The scan ends with a task that is _RUNNING, even if others have been woken since the last look. */
  lemma ScanEnds(cfg: Config, st: State, c: nat)
    requires Inv(cfg, st) && c < |st.mode| && st.mode[c] == Switching(|cfg.lists[c]|)
    ensures st.cur[c] >= 0 ==> st.status[st.cur[c]] == Running
    ensures Inv(cfg, SetMode(st, c, Executing))
  {
    var st' := SetMode(st, c, Executing);
    if st.cur[c] >= 0 {
      assert CpuOk(st.pc[st.cur[c]], st.status[st.cur[c]], st.mode[c], IdleAhead(cfg, st.cur[c], c));
    }
    hide SemInv, SemsOk;
    assert Shaped(cfg, st');
    assert TasksOk(cfg, st');
    assert CpusOk(cfg, st');
    SwitchKeeps(cfg, st, st');
  }

  // ----- every step, every run -----

  /** What runs inside semwait is _RUNNING again by the time it asks for the lock. */
  lemma RunsIsRunning(cfg: Config, st: State, t: nat)
    requires Inv(cfg, st) && Runs(cfg, st, t)
    ensures st.pc[t].Parked? || st.pc[t].Window? || st.status[t] == Running
    ensures st.pc[t].Parked? ==> st.status[t] == Suspend
    ensures t in cfg.idle ==> st.pc[t].Outside?
    ensures st.status[t := st.status[t]] == st.status
  {
    var c := cfg.home[t];
    assert CpuOk(st.pc[st.cur[c]], st.status[st.cur[c]], st.mode[c], IdleAhead(cfg, st.cur[c], c));
    assert TaskOk(st.pc[t], st.status[t], true, true);
  }

  lemma TakeKeeps(cfg: Config, st: State, t: nat, s: nat)
    requires Inv(cfg, st) && Runs(cfg, st, t) && s < |st.sems|
    requires st.pc[t].Testing? && st.pc[t].sem == s && st.sems[s].value > 0
    ensures Inv(cfg, Taken(st, t, s))
  {
    hide Inv, SemInv, CpusOk, TasksOk, SemsOk, Push;
    InvParts(cfg, st);
    var sem := st.sems[s];
    RunsIsRunning(cfg, st, t);
    SemAt(cfg, st, s);
    TakeStep(st.pc, st.status, st.mode, sem, s, t);
    MoveKeeps(cfg, st, t, Done(s), Running, s, sem.(value := sem.value - 1));
  }

  lemma SuspendKeeps(cfg: Config, st: State, t: nat, s: nat)
    requires Inv(cfg, st) && Runs(cfg, st, t) && s < |st.sems|
    requires st.pc[t].Testing? && st.pc[t].sem == s && st.sems[s].value <= 0
    ensures st.sems[s].ring.wl[st.sems[s].ring.right] == Null && Inv(cfg, Suspended(st, t, s))
  {
    hide Inv, SemInv, CpusOk, TasksOk, SemsOk, Push;
    InvParts(cfg, st);
    var sem := st.sems[s];
    RunsIsRunning(cfg, st, t);
    SemAt(cfg, st, s);
    SuspendStep(st.pc, st.status, st.mode, sem, s, t);
    MoveKeeps(cfg, st, t, Parked(s), Suspend, s, sem.(ring := Push(sem.ring, t), joined := sem.joined + [t]));
  }

  /** Taking and releasing the lock in semwait. */
  lemma LockKeeps(cfg: Config, st: State, t: nat, p: Pc, s: nat)
    requires Inv(cfg, st) && Runs(cfg, st, t) && s < |st.sems| && About(st.pc[t], s) && About(p, s) && t !in cfg.idle
    requires (p == Testing(s, false) && st.pc[t].Outside?) || (p == Testing(s, true) && st.pc[t].Back?) ||
      (p == Window(s) && st.pc[t].Parked?) || (p == Outside && st.pc[t].Done?)
    requires p.Testing? ==> st.sems[s].lock.Free?
    ensures Inv(cfg, Locked(SetPc(st, t, p), s, if p.Testing? then Waiter(t) else Free))
  {
    hide Inv, SemInv, CpusOk, TasksOk, SemsOk, Push;
    InvParts(cfg, st);
    var sem := st.sems[s];
    RunsIsRunning(cfg, st, t);
    SemAt(cfg, st, s);
    LockStep(st.pc, st.status, st.mode, sem, s, t, p);
    MoveKeeps(cfg, st, t, p, st.status[t], s, sem.(lock := if p.Testing? then Waiter(t) else Free));
  }

  /** No panic, and the invariant again. */
  ghost predicate Fine(cfg: Config, st: State, a: Action)
    requires Fits(cfg) && Shaped(cfg, st)
  {
    Step(cfg, st, a) != Panic && (Step(cfg, st, a).To? ==> Inv(cfg, Step(cfg, st, a).st))
  }

  lemma InvParts(cfg: Config, st: State)
    requires Inv(cfg, st)
    ensures Fits(cfg) && Shaped(cfg, st)
  {
  }

  lemma SemAt(cfg: Config, st: State, s: nat)
    requires Inv(cfg, st) && s < |st.sems|
    ensures SemInv(st.pc, st.status, st.mode, st.sems[s], s)
  {
  }

  lemma WakeKeeps(cfg: Config, st: State, c: nat)
    requires Inv(cfg, st)
    ensures Fine(cfg, st, Wake(c))
  {
    if c < |st.mode| && st.mode[c].Signalling? && st.mode[c].phase == 1 {
      var s := st.mode[c].sem;
      var sem := st.sems[s];
      SemAt(cfg, st, s);
      WakeStep(st.pc, st.status, st.mode, sem, s, c);
      hide Inv, SemInv, CpusOk, TasksOk, SemsOk;
      if sem.ring.wl[sem.ring.left] == Null {
        assert st.sems[s := sem] == st.sems;
        SignalKeeps(cfg, st, c, Signalling(s, 2), st.status, s, sem);
      } else {
        var w := sem.ring.wl[sem.ring.left].id;
        SignalKeeps(cfg, st, c, Signalling(s, 2), st.status[w := Ready], s,
                    sem.(ring := Pop(sem.ring), woken := sem.woken + [w]));
      }
    }
  }

  lemma CallKeeps(cfg: Config, st: State, c: nat, s: nat)
    requires Inv(cfg, st)
    ensures Fine(cfg, st, Call(c, s))
  {
    hide Inv, SemInv, CpusOk, TasksOk, SemsOk;
    InvParts(cfg, st);
    if Step(cfg, st, Call(c, s)).To? {
      SemAt(cfg, st, s);
      CallStep(st.pc, st.status, st.mode, st.sems[s], s, c, Signalling(s, 0));
      SignalKeeps(cfg, st, c, Signalling(s, 0), st.status, s, st.sems[s].(lock := Signaller(c)));
    }
  }

  lemma AddKeeps(cfg: Config, st: State, c: nat)
    requires Inv(cfg, st)
    ensures Fine(cfg, st, Add(c))
  {
    hide Inv, SemInv, CpusOk, TasksOk, SemsOk;
    InvParts(cfg, st);
    if Step(cfg, st, Add(c)).To? {
      var s := st.mode[c].sem;
      var sem := st.sems[s];
      SemAt(cfg, st, s);
      AddStep(st.pc, st.status, st.mode, sem, s, c);
      SignalKeeps(cfg, st, c, Signalling(s, 1), st.status, s, sem.(value := sem.value + 1));
    }
  }

  lemma FinishKeeps(cfg: Config, st: State, c: nat)
    requires Inv(cfg, st)
    ensures Fine(cfg, st, Finish(c))
  {
    hide Inv, SemInv, CpusOk, TasksOk, SemsOk;
    InvParts(cfg, st);
    if Step(cfg, st, Finish(c)).To? {
      var s := st.mode[c].sem;
      SemAt(cfg, st, s);
      CallStep(st.pc, st.status, st.mode, st.sems[s], s, c, Executing);
      SignalKeeps(cfg, st, c, Executing, st.status, s, st.sems[s].(lock := Free));
    }
  }

  lemma TestKeeps(cfg: Config, st: State, t: nat)
    requires Inv(cfg, st)
    ensures Fine(cfg, st, Test(t))
  {
    hide Inv, SemInv, CpusOk, TasksOk, SemsOk;
    InvParts(cfg, st);
    if Runs(cfg, st, t) && st.pc[t].Testing? {
      if st.sems[st.pc[t].sem].value > 0 {
        TakeKeeps(cfg, st, t, st.pc[t].sem);
      } else {
        SuspendKeeps(cfg, st, t, st.pc[t].sem);
      }
    }
  }

  /** The steps that take or release the lock. */
  lemma LockStepsKeep(cfg: Config, st: State, a: Action)
    requires Inv(cfg, st) && (a.Acquire? || a.Reacquire? || a.Unlock? || a.Leave?)
    ensures Fine(cfg, st, a)
  {
    hide Inv, SemInv, CpusOk, TasksOk, SemsOk;
    InvParts(cfg, st);
    if Step(cfg, st, a).To? {
      RunsIsRunning(cfg, st, a.t);
      match a
      case Acquire(t, s) => LockKeeps(cfg, st, t, Testing(s, false), s);
      case Reacquire(t) => LockKeeps(cfg, st, t, Testing(st.pc[t].sem, true), st.pc[t].sem);
      case Unlock(t) => LockKeeps(cfg, st, t, Window(st.pc[t].sem), st.pc[t].sem);
      case Leave(t) => LockKeeps(cfg, st, t, Outside, st.pc[t].sem);
    }
  }

  lemma YieldKeeps(cfg: Config, st: State, t: nat)
    requires Inv(cfg, st)
    ensures Fine(cfg, st, Yield(t))
  {
    hide Inv, SemInv, CpusOk, TasksOk, SemsOk, EnterSwitch;
    InvParts(cfg, st);
    if Step(cfg, st, Yield(t)).To? {
      EnterKeeps(cfg, st, cfg.home[t], Back(st.pc[t].sem));
    }
  }

  lemma InterruptKeeps(cfg: Config, st: State, c: nat)
    requires Inv(cfg, st)
    ensures Fine(cfg, st, Interrupt(c))
  {
    hide Inv, SemInv, CpusOk, TasksOk, SemsOk, EnterSwitch;
    InvParts(cfg, st);
    if Interruptible(cfg, st, c) {
      ListIsNotEmpty(cfg, st, c);
      EnterKeeps(cfg, st, c, if st.cur[c] < 0 then Outside else st.pc[st.cur[c]]);
      assert st.cur[c] >= 0 ==> st.pc[st.cur[c] := st.pc[st.cur[c]]] == st.pc;
    }
  }

  lemma ListIsNotEmpty(cfg: Config, st: State, c: nat)
    requires Inv(cfg, st) && c < |cfg.lists|
    ensures cfg.lists[c] != []
  {
    assert cfg.slot[cfg.idle[c]] < |cfg.lists[c]|;
  }

  lemma ScanKeeps(cfg: Config, st: State, c: nat)
    requires Inv(cfg, st)
    ensures Fine(cfg, st, Scan(c))
  {
    hide Inv, SemInv, CpusOk, TasksOk, SemsOk, Chosen;
    InvParts(cfg, st);
    if c < |st.mode| && st.mode[c].Switching? {
      if st.mode[c].k == |cfg.lists[c]| {
        ScanEnds(cfg, st, c);
      } else if st.status[Looked(cfg, st, c)] == Ready {
        ChosenKeeps(cfg, st, c, Looked(cfg, st, c));
      } else {
        RejectedKeeps(cfg, st, c);
      }
    }
  }

  /** Neither panic of sem.c is reached, nor a failed assertion of the context switch, and the invariant
      is kept, by every step of every task and CPU. */
  lemma StepKeepsInv(cfg: Config, st: State, a: Action)
    requires Inv(cfg, st)
    ensures Step(cfg, st, a) != Panic
    ensures Step(cfg, st, a).To? ==> Inv(cfg, Step(cfg, st, a).st)
  {
    hide Inv, Step;
    InvParts(cfg, st);
    match a
    case Test(t) => TestKeeps(cfg, st, t);
    case Wake(c) => WakeKeeps(cfg, st, c);
    case Call(c, s) => CallKeeps(cfg, st, c, s);
    case Add(c) => AddKeeps(cfg, st, c);
    case Finish(c) => FinishKeeps(cfg, st, c);
    case Yield(t) => YieldKeeps(cfg, st, t);
    case Interrupt(c) => InterruptKeeps(cfg, st, c);
    case Scan(c) => ScanKeeps(cfg, st, c);
    case _ => LockStepsKeep(cfg, st, a);
  }

  // ----- whole runs -----

  /** Everything released: every semaphore just initialised, no task inside semwait or suspended. */
  ghost predicate Begins(cfg: Config, st: State) {
    && Fits(cfg) && Shaped(cfg, st)
    && (forall s :: 0 <= s < |st.sems| ==> st.sems[s].value >= 0 && st.sems[s] == NewSem(st.sems[s].value))
    && (forall t :: 0 <= t < |st.pc| ==>
      st.pc[t].Outside? && st.status[t] == if st.cur[cfg.home[t]] == t then Running else Ready)
    && (forall c :: 0 <= c < |st.mode| ==> st.mode[c].Executing?)
  }

  ghost predicate Initial(cfg: Config, st: State) {
    HasIdle(cfg) && Begins(cfg, st)
  }

  /** seminit: lines 5-15. */
  function NewSem(v: nat): Sem {
    Sem(v, Empty(), Free, [], [])
  }

  lemma InitialInv(cfg: Config, st: State)
    requires Initial(cfg, st)
    ensures Inv(cfg, st)
  {
    EmptyRepresents();
    forall s | 0 <= s < |st.sems| ensures SemInv(st.pc, st.status, st.mode, st.sems[s], s) {
      assert Queue(st.sems[s]) == [];
    }
  }

  /** A run: actions that cannot happen yet are skipped. */
  ghost function Run(cfg: Config, st: State, actions: seq<Action>): (out: Outcome)
    requires Inv(cfg, st)
    ensures out.To? && Inv(cfg, out.st)
    decreases |actions|
  {
    if actions == [] then To(st)
    else
      StepKeepsInv(cfg, st, actions[0]);
      match Step(cfg, st, actions[0])
      case Blocked => Run(cfg, st, actions[1..])
      case To(next) => Run(cfg, next, actions[1..])
  }

  // ----- what that means -----

  /** The action is semsignal's value++ on semaphore s. */
  predicate IsAdd(st: State, a: Action, s: nat) {
    a.Add? && a.c < |st.mode| && st.mode[a.c] == Signalling(s, 0)
  }

  /** The action is a test of semaphore s that finds it positive. */
  predicate IsTake(st: State, a: Action, s: nat) {
    && a.Test? && a.t < |st.pc| && st.pc[a.t].Testing? && st.pc[a.t].sem == s
    && s < |st.sems| && st.sems[s].value > 0
  }

  /** How many of the actions of a run that happen satisfy what is asked. */
  ghost function Count(cfg: Config, st: State, actions: seq<Action>, asked: (State, Action) -> bool): nat
    requires Inv(cfg, st)
    decreases |actions|
  {
    if actions == [] then 0
    else
      StepKeepsInv(cfg, st, actions[0]);
      match Step(cfg, st, actions[0])
      case Blocked => Count(cfg, st, actions[1..], asked)
      case To(next) => (if asked(st, actions[0]) then 1 else 0) + Count(cfg, next, actions[1..], asked)
  }

  ghost function Adds(cfg: Config, st: State, actions: seq<Action>, s: nat): nat
    requires Inv(cfg, st)
  {
    Count(cfg, st, actions, (x, a) => IsAdd(x, a, s))
  }

  ghost function Takes(cfg: Config, st: State, actions: seq<Action>, s: nat): nat
    requires Inv(cfg, st)
  {
    Count(cfg, st, actions, (x, a) => IsTake(x, a, s))
  }

  /** The value counts: in every run it is what it was, plus the signals made, less the waits completed,
      and never below zero. */
  lemma {:induction false} ValueCounts(cfg: Config, st: State, actions: seq<Action>, s: nat)
    requires Inv(cfg, st) && s < |st.sems|
    ensures var end := Run(cfg, st, actions).st;
      && s < |end.sems| && end.sems[s].value >= 0
      && end.sems[s].value == st.sems[s].value + Adds(cfg, st, actions, s) - Takes(cfg, st, actions, s)
    decreases |actions|
  {
    hide Inv, Step;
    if actions == [] {
      ValueIsCount(cfg, st, s);
    } else {
      StepKeepsInv(cfg, st, actions[0]);
      InvParts(cfg, st);
      match Step(cfg, st, actions[0])
      case Blocked => ValueCounts(cfg, st, actions[1..], s);
      case To(next) =>
        OneStepCounts(cfg, st, actions[0], s);
        ValueCounts(cfg, next, actions[1..], s);
    }
  }

  lemma ValueIsCount(cfg: Config, st: State, s: nat)
    requires Inv(cfg, st) && s < |st.sems|
    ensures st.sems[s].value >= 0
  {
    SemAt(cfg, st, s);
  }

  lemma OneStepCounts(cfg: Config, st: State, a: Action, s: nat)
    requires Fits(cfg) && Shaped(cfg, st) && s < |st.sems| && Step(cfg, st, a).To?
    ensures var next := Step(cfg, st, a).st;
      && s < |next.sems|
      && next.sems[s].value == st.sems[s].value + (if IsAdd(st, a, s) then 1 else 0) - (if IsTake(st, a, s) then 1 else 0)
  {
    hide Push, Pop, Around, Slot, Fits;
  }

  // ----- who slept and who was woken -----

  /** The task that an action sends to sleep on semaphore s, if any. */
  function Slept(st: State, a: Action, s: nat): seq<nat> {
    if a.Test? && a.t < |st.pc| && st.pc[a.t].Testing? && st.pc[a.t].sem == s && s < |st.sems| && st.sems[s].value <= 0
    then [a.t] else []
  }

  /** The task in the cell at wlleft, if the action is semsignal's look at it. */
  function Roused(st: State, a: Action, s: nat): seq<nat> {
    if a.Wake? && a.c < |st.mode| && st.mode[a.c] == Signalling(s, 1) && s < |st.sems| && InBounds(st.sems[s].ring)
      && st.sems[s].ring.wl[st.sems[s].ring.left] != Null
    then [st.sems[s].ring.wl[st.sems[s].ring.left].id] else []
  }

  /** What is picked from the actions of a run that happen, one after the other. */
  ghost function Trace(cfg: Config, st: State, actions: seq<Action>, pick: (State, Action) -> seq<nat>): seq<nat>
    requires Inv(cfg, st)
    decreases |actions|
  {
    if actions == [] then []
    else
      StepKeepsInv(cfg, st, actions[0]);
      match Step(cfg, st, actions[0])
      case Blocked => Trace(cfg, st, actions[1..], pick)
      case To(next) => pick(st, actions[0]) + Trace(cfg, next, actions[1..], pick)
  }

  ghost function Sleepers(cfg: Config, st: State, actions: seq<Action>, s: nat): seq<nat>
    requires Inv(cfg, st)
  {
    Trace(cfg, st, actions, (x, a) => Slept(x, a, s))
  }

  ghost function Wakened(cfg: Config, st: State, actions: seq<Action>, s: nat): seq<nat>
    requires Inv(cfg, st)
  {
    Trace(cfg, st, actions, (x, a) => Roused(x, a, s))
  }

  /** Wakeups come in the order of going to sleep: in every run the tasks woken, together with those woken
      before, are the first of those that went to sleep. */
  lemma FirstAsleepFirstWoken(cfg: Config, st: State, actions: seq<Action>, s: nat)
    requires Initial(cfg, st) && s < |st.sems|
    ensures Inv(cfg, st)
    ensures Wakened(cfg, st, actions, s) <= Sleepers(cfg, st, actions, s)
  {
    InitialInv(cfg, st);
    hide Inv, Sleepers, Wakened, Run;
    assert st.sems[s].joined == [] && st.sems[s].woken == [];
    QueueHistory(cfg, st, actions, s);
    var end := Run(cfg, st, actions).st;
    WokenIsPrefix(cfg, end, s);
    assert [] + Sleepers(cfg, st, actions, s) == Sleepers(cfg, st, actions, s);
    assert [] + Wakened(cfg, st, actions, s) == Wakened(cfg, st, actions, s);
  }

  lemma WokenIsPrefix(cfg: Config, st: State, s: nat)
    requires Inv(cfg, st) && s < |st.sems|
    ensures st.sems[s].woken <= st.sems[s].joined
  {
    SemAt(cfg, st, s);
  }

  lemma {:induction false} QueueHistory(cfg: Config, st: State, actions: seq<Action>, s: nat)
    requires Inv(cfg, st) && s < |st.sems|
    ensures var end := Run(cfg, st, actions).st;
      && s < |end.sems|
      && end.sems[s].joined == st.sems[s].joined + Sleepers(cfg, st, actions, s)
      && end.sems[s].woken == st.sems[s].woken + Wakened(cfg, st, actions, s)
    decreases |actions|
  {
    hide Inv, Step, Slept, Roused;
    if actions != [] {
      StepKeepsInv(cfg, st, actions[0]);
      InvParts(cfg, st);
      match Step(cfg, st, actions[0])
      case Blocked => QueueHistory(cfg, st, actions[1..], s);
      case To(next) =>
        OneStepHistory(cfg, st, actions[0], s);
        QueueHistory(cfg, next, actions[1..], s);
    }
  }

  lemma OneStepHistory(cfg: Config, st: State, a: Action, s: nat)
    requires Fits(cfg) && Shaped(cfg, st) && s < |st.sems| && Step(cfg, st, a).To?
    ensures var next := Step(cfg, st, a).st;
      && s < |next.sems|
      && next.sems[s].joined == st.sems[s].joined + Slept(st, a, s)
      && next.sems[s].woken == st.sems[s].woken + Roused(st, a, s)
  {
    hide Push, Pop, Around, Slot, Fits;
  }

  /** No lost wakeup: while somebody waits and no signal is under way, a positive value means that
      at least as many woken tasks are on their way to take it, all of them runnable. */
  lemma NoLostWakeup(cfg: Config, st: State, actions: seq<Action>, s: nat)
    requires Inv(cfg, st)
    ensures var end := Run(cfg, st, actions).st;
      s < |end.sems| && end.sems[s].ring.wl[end.sems[s].ring.left] != Null && !end.sems[s].lock.Signaller? ==>
        && end.sems[s].value <= |Woken(end.pc, end.status, s)|
        && forall t :: t in Woken(end.pc, end.status, s) ==> end.status[t] != Suspend
  {
    var end := Run(cfg, st, actions).st;
    if s < |end.sems| {
      var sem := end.sems[s];
      assert SemInv(end.pc, end.status, end.mode, sem, s);
      PopRemovesFirst(sem.ring, Queue(sem));
      if !sem.lock.Signaller? {
        assert forall c :: 0 <= c < |end.mode| ==> sem.lock != Signaller(c);
      }
      forall t | t in Woken(end.pc, end.status, s) ensures end.status[t] != Suspend {
        assert TaskOk(end.pc[t], end.status[t], end.cur[cfg.home[t]] == t, end.mode[cfg.home[t]].Executing?);
      }
    }
  }

  /** Cell k of the ring of semaphore s. */
  function CellOf(st: State, s: nat, k: nat): Cell
    requires s < |st.sems| && |st.sems[s].ring.wl| == NTHREAD && k < NTHREAD
  {
    st.sems[s].ring.wl[k]
  }

  /** A suspended task sits in exactly one cell of exactly one ring, that of the semaphore it waits
      for; any other task sits in none. */
  lemma SuspendedSitsOnce(cfg: Config, st: State, s: nat, k: nat, s': nat, k': nat, t: nat)
    requires Inv(cfg, st) && s < |st.sems| && k < NTHREAD && s' < |st.sems| && k' < NTHREAD && t < |st.status|
    ensures CellOf(st, s, k) == Task(t) ==> st.status[t] == Suspend
    ensures CellOf(st, s, k) == CellOf(st, s', k') == Task(t) ==> s == s' && k == k'
    ensures st.status[t] == Suspend ==>
      !st.pc[t].Outside? && exists i :: 0 <= i < NTHREAD && CellOf(st, st.pc[t].sem, i) == Task(t)
  {
    assert SemInv(st.pc, st.status, st.mode, st.sems[s], s);
    assert SemInv(st.pc, st.status, st.mode, st.sems[s'], s');
    if CellOf(st, s, k) == Task(t) { CellsHoldQueue(st.sems[s], k, t); }
    if CellOf(st, s', k') == Task(t) { CellsHoldQueue(st.sems[s'], k', t); }
    if st.status[t] == Suspend {
      assert TaskOk(st.pc[t], st.status[t], st.cur[cfg.home[t]] == t, st.mode[cfg.home[t]].Executing?);
      var home := st.pc[t].sem;
      assert SemInv(st.pc, st.status, st.mode, st.sems[home], home);
      var i := QueuedHasCell(st.sems[home], t);
      assert CellOf(st, home, i) == Task(t);
    }
  }

  lemma CellsHoldQueue(sem: Sem, k: nat, t: nat)
    requires SemOk(sem) && k < NTHREAD && sem.ring.wl[k] == Task(t)
    ensures t in Queue(sem)
    ensures Past(sem.ring.left, k) < |Queue(sem)| && Queue(sem)[Past(sem.ring.left, k)] == t
  {
  }

  lemma QueuedHasCell(sem: Sem, t: nat) returns (k: nat)
    requires SemOk(sem) && t in Queue(sem)
    ensures k < NTHREAD && sem.ring.wl[k] == Task(t)
  {
    var i :| 0 <= i < |Queue(sem)| && Queue(sem)[i] == t;
    k := if sem.ring.left + i < NTHREAD then sem.ring.left + i else sem.ring.left + i - NTHREAD;
    assert Past(sem.ring.left, k) == i;
  }

  /** Wakeups come in the order of queueing: those woken so far, followed by the ring from wlleft to
      wlright, are those who queued up. */
  lemma WokenInOrder(cfg: Config, st: State, s: nat, k: nat)
    requires Inv(cfg, st) && s < |st.sems| && k < NTHREAD
    ensures var sem := st.sems[s];
      && sem.woken <= sem.joined
      && CellOf(st, s, k) == (
        if Past(sem.ring.left, k) < |sem.joined| - |sem.woken| then Task(sem.joined[|sem.woken| + Past(sem.ring.left, k)])
        else Null)
  {
    assert SemInv(st.pc, st.status, st.mode, st.sems[s], s);
  }
}
