/** Semaphores go on: what every CPU can do next, that locks are released, and what semwait and semsignal
    come to when nobody interferes. */
module SemProgress {
  import opened Ring
  import opened Tasks
  import opened Semaphores

  // ----- nobody gets stuck -----

  /** What CPU c can do next. */
  ghost function NextOf(cfg: Config, st: State, c: nat): Action
    requires Fits(cfg) && Shaped(cfg, st) && c < |cfg.lists|
  {
    match st.mode[c]
    case Switching(_) => Scan(c)
    case Signalling(_, phase) => if phase == 0 then Add(c) else if phase == 1 then Wake(c) else Finish(c)
    case Executing =>
      if st.cur[c] < 0 then Interrupt(c)
      else
        var t := st.cur[c];
        match st.pc[t]
        case Outside => Interrupt(c)
        case Testing(_, _) => Test(t)
        case Parked(_) => Unlock(t)
        case Window(_) => Yield(t)
        case Back(s) => if st.sems[s].lock.Free? then Reacquire(t) else Interrupt(c)
        case Done(_) => Leave(t)
  }

  /** In every reachable state every CPU can go on. */
  lemma NobodyIsStuck(cfg: Config, st: State, c: nat)
    requires Inv(cfg, st) && c < |cfg.lists|
    ensures Fits(cfg) && Shaped(cfg, st) && Step(cfg, st, NextOf(cfg, st, c)).To?
  {
    StepKeepsInv(cfg, st, NextOf(cfg, st, c));
    hide TasksOk, CpusOk, SemsOk, EnterSwitch, Chosen, Suspended, Taken, Added, Woke;
  }

  /** What the owner of the lock of s still has to do before it releases it. */
  function ReleasePath(st: State, s: nat): seq<Action>
    requires s < |st.sems| && |st.pc| == |st.status|
  {
    match st.sems[s].lock
    case Free => []
    case Waiter(t) =>
      if t >= |st.pc| then []
      else if st.pc[t].Testing? then [Test(t), if st.sems[s].value > 0 then Leave(t) else Unlock(t)]
      else if st.pc[t].Parked? then [Unlock(t)]
      else [Leave(t)]
    case Signaller(c) =>
      if c >= |st.mode| || !st.mode[c].Signalling? then []
      else if st.mode[c].phase == 0 then [Add(c), Wake(c), Finish(c)]
      else if st.mode[c].phase == 1 then [Wake(c), Finish(c)]
      else [Finish(c)]
  }

  /** A run that starts with a step that can happen. */
  lemma RunStep(cfg: Config, st: State, a: Action, rest: seq<Action>, next: State)
    requires Inv(cfg, st) && Fits(cfg) && Shaped(cfg, st) && Step(cfg, st, a) == To(next)
    ensures Inv(cfg, next) && Run(cfg, st, [a] + rest) == Run(cfg, next, rest)
  {
    hide Inv, Step;
    StepKeepsInv(cfg, st, a);
    assert ([a] + rest)[1..] == rest;
  }

  lemma RunNothing(cfg: Config, st: State)
    requires Inv(cfg, st)
    ensures Run(cfg, st, []) == To(st)
  {
    hide Inv;
  }

  lemma RunOneStep(cfg: Config, st: State, a: Action, next: State)
    requires Inv(cfg, st) && Fits(cfg) && Shaped(cfg, st) && Step(cfg, st, a) == To(next)
    ensures Inv(cfg, next) && Run(cfg, st, [a]) == To(next)
  {
    hide Inv, Step;
    RunStep(cfg, st, a, [], next);
    RunNothing(cfg, next);
    assert [a] + [] == [a];
  }

  // ----- semsignal, undisturbed -----

  /** A semaphore after a signal: one more, and the oldest waiter is let go. */
  ghost function Raised(sem: Sem): Sem
    requires |sem.woken| <= |sem.joined| && InBounds(sem.ring)
  {
    if Queue(sem) == [] then sem.(value := sem.value + 1)
    else sem.(value := sem.value + 1, ring := Pop(sem.ring), woken := sem.woken + [Queue(sem)[0]])
  }

  ghost predicate CanSignal(cfg: Config, st: State, c: nat, s: nat) {
    && Inv(cfg, st) && Fits(cfg) && Shaped(cfg, st) && Interruptible(cfg, st, c)
    && s < |st.sems| && st.sems[s].lock.Free?
  }

  lemma QueueParts(cfg: Config, st: State, s: nat)
    requires Inv(cfg, st) && s < |st.sems|
    ensures var sem := st.sems[s];
      && |sem.woken| <= |sem.joined| && InBounds(sem.ring) && |st.status| == |st.pc|
      && sem.ring.wl[sem.ring.left] == (if Queue(sem) == [] then Null else Task(Queue(sem)[0]))
      && (Queue(sem) == [] ==> sem.ring.left == sem.ring.right)
      && (Queue(sem) != [] ==> Queue(sem)[0] < |st.status|)
  {
    SemAt(cfg, st, s);
    PopRemovesFirst(st.sems[s].ring, Queue(st.sems[s]));
    assert Queue(st.sems[s]) != [] ==> Queue(st.sems[s])[0] in Queue(st.sems[s]);
  }

  /** Called on any CPU with interrupts on, it raises the value by one, makes the oldest waiter _READY and
      takes it off the ring, releases the lock, and changes nothing else. */
  lemma SignalCompletes(cfg: Config, st: State, c: nat, s: nat)
    requires CanSignal(cfg, st, c, s)
    ensures |st.sems[s].woken| <= |st.sems[s].joined| && InBounds(st.sems[s].ring)
    ensures Queue(st.sems[s]) != [] ==> Queue(st.sems[s])[0] < |st.status|
    ensures Run(cfg, st, [Call(c, s), Add(c), Wake(c), Finish(c)]) == To(
      st.(status := if Queue(st.sems[s]) == [] then st.status else st.status[Queue(st.sems[s])[0] := Ready],
          sems := st.sems[s := Raised(st.sems[s])]))
  {
    hide Inv, Run, Queue, Pop, Push, Fits, Shaped, Step;
    QueueParts(cfg, st, s);
    var rest1, rest2, rest3 := [Add(c), Wake(c), Finish(c)], [Wake(c), Finish(c)], [Finish(c)];
    assert [Call(c, s), Add(c), Wake(c), Finish(c)] == [Call(c, s)] + rest1;
    assert rest1 == [Add(c)] + rest2 && rest2 == [Wake(c)] + rest3;
    var st1 := CallStep1(cfg, st, c, s);
    RunStep(cfg, st, Call(c, s), rest1, st1);
    InvParts(cfg, st1);
    var st2 := AddStep1(cfg, st1, c, s);
    RunStep(cfg, st1, Add(c), rest2, st2);
    InvParts(cfg, st2);
    QueueParts(cfg, st2, s);
    SameQueue(st.sems[s], st2.sems[s]);
    var st3 := WakeStep1(cfg, st2, c, s);
    RunStep(cfg, st2, Wake(c), rest3, st3);
    InvParts(cfg, st3);
    var st4 := FinishStep1(cfg, st3, c, s);
    RunOneStep(cfg, st3, Finish(c), st4);
    assert st4.mode == st.mode;
    assert st4.sems == st.sems[s := Raised(st.sems[s])];
  }

  lemma SameQueue(sem: Sem, sem': Sem)
    requires sem.joined == sem'.joined && sem.woken == sem'.woken && |sem.woken| <= |sem.joined|
    ensures Queue(sem) == Queue(sem')
  {
  }

  lemma CallStep1(cfg: Config, st: State, c: nat, s: nat) returns (next: State)
    requires CanSignal(cfg, st, c, s)
    ensures st.mode[c].Executing? && c < |st.mode|
    ensures next == Locked(SetMode(st, c, Signalling(s, 0)), s, Signaller(c)) && Step(cfg, st, Call(c, s)) == To(next)
  {
    hide Inv, Fits;
    next := Locked(SetMode(st, c, Signalling(s, 0)), s, Signaller(c));
  }

  lemma AddStep1(cfg: Config, st: State, c: nat, s: nat) returns (next: State)
    requires Fits(cfg) && Shaped(cfg, st) && c < |st.mode| && s < |st.sems| && st.mode[c] == Signalling(s, 0)
    ensures next == SetMode(SetSem(st, s, st.sems[s].(value := st.sems[s].value + 1)), c, Signalling(s, 1))
    ensures Step(cfg, st, Add(c)) == To(next)
  {
    hide Fits;
    next := SetMode(SetSem(st, s, st.sems[s].(value := st.sems[s].value + 1)), c, Signalling(s, 1));
  }

  lemma WakeStep1(cfg: Config, st: State, c: nat, s: nat) returns (next: State)
    requires Fits(cfg) && Shaped(cfg, st) && c < |st.mode| && s < |st.sems| && st.mode[c] == Signalling(s, 1)
    requires var sem := st.sems[s];
      && |sem.woken| <= |sem.joined| && InBounds(sem.ring)
      && sem.ring.wl[sem.ring.left] == (if Queue(sem) == [] then Null else Task(Queue(sem)[0]))
      && (Queue(sem) == [] ==> sem.ring.left == sem.ring.right)
      && (Queue(sem) != [] ==> Queue(sem)[0] < |st.status|)
    ensures var sem := st.sems[s]; var q := Queue(sem);
      next == if q == [] then SetMode(st, c, Signalling(s, 2))
        else SetMode(SetSem(st, s, sem.(ring := Pop(sem.ring), woken := sem.woken + [q[0]])), c, Signalling(s, 2))
          .(status := st.status[q[0] := Ready])
    ensures Step(cfg, st, Wake(c)) == To(next)
  {
    hide Fits, Queue, Pop;
    var sem := st.sems[s];
    var q := Queue(sem);
    next := if q == [] then SetMode(st, c, Signalling(s, 2))
      else SetMode(SetSem(st, s, sem.(ring := Pop(sem.ring), woken := sem.woken + [q[0]])), c, Signalling(s, 2))
        .(status := st.status[q[0] := Ready]);
  }

  lemma FinishStep1(cfg: Config, st: State, c: nat, s: nat) returns (next: State)
    requires Fits(cfg) && Shaped(cfg, st) && c < |st.mode| && s < |st.sems| && st.mode[c] == Signalling(s, 2)
    ensures next == Locked(SetMode(st, c, Executing), s, Free) && Step(cfg, st, Finish(c)) == To(next)
  {
    hide Fits;
    next := Locked(SetMode(st, c, Executing), s, Free);
  }

  // ----- semwait, undisturbed -----

  /** Task t runs and is about to get the lock of s, for the first time or again. */
  ghost predicate CanWait(cfg: Config, st: State, t: nat, s: nat) {
    && Inv(cfg, st) && Fits(cfg) && Shaped(cfg, st) && Runs(cfg, st, t)
    && s < |st.sems| && st.sems[s].lock.Free? && t < |st.pc|
    && (st.pc[t] == Back(s) || (st.pc[t].Outside? && t !in cfg.idle))
  }

  function Enter(st: State, t: nat, s: nat): Action
    requires t < |st.pc|
  {
    if st.pc[t].Back? then Reacquire(t) else Acquire(t, s)
  }

  lemma EnterStep1(cfg: Config, st: State, t: nat, s: nat) returns (next: State)
    requires CanWait(cfg, st, t, s)
    ensures next == Locked(SetPc(st, t, Testing(s, st.pc[t].Back?)), s, Waiter(t)) && Step(cfg, st, Enter(st, t, s)) == To(next)
  {
    hide Inv, Fits;
    next := Locked(SetPc(st, t, Testing(s, st.pc[t].Back?)), s, Waiter(t));
  }

  /** On a positive value it takes one and returns, and changes nothing else. */
  lemma WaitTakes(cfg: Config, st: State, t: nat, s: nat)
    requires CanWait(cfg, st, t, s) && st.sems[s].value > 0
    ensures Run(cfg, st, [Enter(st, t, s), Test(t), Leave(t)]) == To(
      st.(pc := st.pc[t := Outside], sems := st.sems[s := st.sems[s].(value := st.sems[s].value - 1)]))
  {
    hide Inv, Run, Fits, Shaped, Step;
    var rest1, rest2 := [Test(t), Leave(t)], [Leave(t)];
    assert [Enter(st, t, s), Test(t), Leave(t)] == [Enter(st, t, s)] + rest1 && rest1 == [Test(t)] + rest2;
    var st1 := EnterStep1(cfg, st, t, s);
    RunStep(cfg, st, Enter(st, t, s), rest1, st1);
    InvParts(cfg, st1);
    var st2 := TakeStep1(cfg, st1, t, s);
    RunStep(cfg, st1, Test(t), rest2, st2);
    InvParts(cfg, st2);
    var st3 := LeaveStep1(cfg, st2, t, s);
    RunOneStep(cfg, st2, Leave(t), st3);
    assert st3.pc == st.pc[t := Outside];
    assert st3.sems == st.sems[s := st.sems[s].(value := st.sems[s].value - 1)];
  }

  lemma TakeStep1(cfg: Config, st: State, t: nat, s: nat) returns (next: State)
    requires Fits(cfg) && Shaped(cfg, st) && Runs(cfg, st, t) && s < |st.sems| && st.sems[s].value > 0
    requires st.pc[t].Testing? && st.pc[t].sem == s
    ensures next == SetPc(SetSem(st, s, st.sems[s].(value := st.sems[s].value - 1)), t, Done(s))
    ensures Step(cfg, st, Test(t)) == To(next) && Fits(cfg) && (Shaped(cfg, next) ==> Runs(cfg, next, t))
  {
    hide Fits;
    next := SetPc(SetSem(st, s, st.sems[s].(value := st.sems[s].value - 1)), t, Done(s));
  }

  lemma LeaveStep1(cfg: Config, st: State, t: nat, s: nat) returns (next: State)
    requires Fits(cfg) && Shaped(cfg, st) && Runs(cfg, st, t) && s < |st.sems| && st.pc[t] == Done(s)
    ensures next == Locked(SetPc(st, t, Outside), s, Free) && Step(cfg, st, Leave(t)) == To(next)
  {
    hide Fits;
    next := Locked(SetPc(st, t, Outside), s, Free);
  }

  /** On a value of zero it queues up as the last waiter, sleeps, releases the lock and yields. */
  lemma WaitSleeps(cfg: Config, st: State, t: nat, s: nat)
    requires CanWait(cfg, st, t, s) && st.sems[s].value == 0
    ensures InBounds(st.sems[s].ring) && |st.status| == |st.pc| && cfg.home[t] < |st.mode|
    ensures Run(cfg, st, [Enter(st, t, s), Test(t), Unlock(t), Yield(t)]) == To(
      State(st.status[t := Suspend], st.pc[t := Back(s)], st.cur, st.mode[cfg.home[t] := Switching(0)],
            st.sems[s := st.sems[s].(ring := Push(st.sems[s].ring, t), joined := st.sems[s].joined + [t])]))
  {
    hide Inv, Run, Fits, Shaped, Step, Push;
    var rest1, rest2, rest3 := [Test(t), Unlock(t), Yield(t)], [Unlock(t), Yield(t)], [Yield(t)];
    assert [Enter(st, t, s), Test(t), Unlock(t), Yield(t)] == [Enter(st, t, s)] + rest1;
    assert rest1 == [Test(t)] + rest2 && rest2 == [Unlock(t)] + rest3;
    QueueParts(cfg, st, s);
    var st1 := EnterStep1(cfg, st, t, s);
    RunStep(cfg, st, Enter(st, t, s), rest1, st1);
    InvParts(cfg, st1);
    StepKeepsInv(cfg, st1, Test(t));
    var st2 := SuspendStep1(cfg, st1, t, s);
    RunStep(cfg, st1, Test(t), rest2, st2);
    InvParts(cfg, st2);
    var st3 := UnlockStep1(cfg, st2, t, s);
    RunStep(cfg, st2, Unlock(t), rest3, st3);
    InvParts(cfg, st3);
    var st4 := YieldStep1(cfg, st3, t, s);
    RunOneStep(cfg, st3, Yield(t), st4);
    assert st4.pc == st.pc[t := Back(s)];
    assert st4.sems == st.sems[s := st.sems[s].(ring := Push(st.sems[s].ring, t), joined := st.sems[s].joined + [t])];
  }

  lemma SuspendStep1(cfg: Config, st: State, t: nat, s: nat) returns (next: State)
    requires Fits(cfg) && Shaped(cfg, st) && Runs(cfg, st, t) && s < |st.sems| && st.sems[s].value == 0
    requires st.pc[t].Testing? && st.pc[t].sem == s && Step(cfg, st, Test(t)) != Panic
    ensures next == SetSem(st, s, st.sems[s].(ring := Push(st.sems[s].ring, t), joined := st.sems[s].joined + [t]))
      .(status := st.status[t := Suspend], pc := st.pc[t := Parked(s)])
    ensures Step(cfg, st, Test(t)) == To(next) && (Shaped(cfg, next) ==> Runs(cfg, next, t))
  {
    hide Fits, Push;
    next := SetSem(st, s, st.sems[s].(ring := Push(st.sems[s].ring, t), joined := st.sems[s].joined + [t]))
      .(status := st.status[t := Suspend], pc := st.pc[t := Parked(s)]);
  }

  lemma UnlockStep1(cfg: Config, st: State, t: nat, s: nat) returns (next: State)
    requires Fits(cfg) && Shaped(cfg, st) && Runs(cfg, st, t) && s < |st.sems| && st.pc[t] == Parked(s)
    ensures next == Locked(SetPc(st, t, Window(s)), s, Free)
    ensures Step(cfg, st, Unlock(t)) == To(next) && (Shaped(cfg, next) ==> Runs(cfg, next, t))
  {
    hide Fits;
    next := Locked(SetPc(st, t, Window(s)), s, Free);
  }

  lemma YieldStep1(cfg: Config, st: State, t: nat, s: nat) returns (next: State)
    requires Fits(cfg) && Shaped(cfg, st) && Runs(cfg, st, t) && s < |st.sems| && st.pc[t] == Window(s) && st.status[t] == Suspend
    ensures next == st.(pc := st.pc[t := Back(s)], mode := st.mode[cfg.home[t] := Switching(0)])
    ensures Step(cfg, st, Yield(t)) == To(next)
  {
    next := st.(pc := st.pc[t := Back(s)], mode := st.mode[cfg.home[t] := Switching(0)]);
  }

  /** A task that is woken between its unlock and its _yield goes on at once, to test the value again. */
  lemma WokenGoesOn(cfg: Config, st: State, t: nat, s: nat)
    requires Inv(cfg, st) && Fits(cfg) && Shaped(cfg, st) && Runs(cfg, st, t) && t < |st.pc| == |st.status|
    requires st.pc[t] == Window(s) && st.status[t] == Ready
    ensures Run(cfg, st, [Yield(t)]) == To(st.(pc := st.pc[t := Back(s)], status := st.status[t := Running]))
  {
    var next := st.(pc := st.pc[t := Back(s)], status := st.status[t := Running]);
    assert Step(cfg, st, Yield(t)) == To(next);
    hide *;
    RunOneStep(cfg, st, Yield(t), next);
  }

  // ----- locks are released -----

  /** Whoever has the lock of a semaphore has released it after at most three steps of its own, and none
      of them waits for anybody. */
  lemma LockIsReleased(cfg: Config, st: State, s: nat)
    requires Inv(cfg, st) && s < |st.sems|
    ensures |st.pc| == |st.status|
    ensures var path, out := ReleasePath(st, s), Run(cfg, st, ReleasePath(st, s));
      |path| <= 3 && s < |out.st.sems| && out.st.sems[s].lock.Free?
  {
    hide Inv, Run, Step, Fits, Shaped;
    InvParts(cfg, st);
    StatusSize(cfg, st);
    match st.sems[s].lock
    case Free => RunNothing(cfg, st);
    case Waiter(t) => WaiterReleases(cfg, st, t, s);
    case Signaller(c) => SignallerReleases(cfg, st, c, s);
  }

  lemma StatusSize(cfg: Config, st: State)
    requires Fits(cfg) && Shaped(cfg, st)
    ensures |st.pc| == |st.status|
  {
  }

  lemma OwnerIsInside(cfg: Config, st: State, s: nat)
    requires Inv(cfg, st) && s < |st.sems|
    ensures st.sems[s].lock.Waiter? ==>
      var t := st.sems[s].lock.task; t < |st.pc| && Holds(st.pc[t], s) && Fits(cfg) && Shaped(cfg, st) && Runs(cfg, st, t)
    ensures st.sems[s].lock.Signaller? ==>
      var c := st.sems[s].lock.cpu; c < |st.mode| && st.mode[c].Signalling? && st.mode[c].sem == s && st.mode[c].phase <= 2
  {
    SemAt(cfg, st, s);
  }

  lemma WaiterReleases(cfg: Config, st: State, t: nat, s: nat)
    requires Inv(cfg, st) && s < |st.sems| && st.sems[s].lock == Waiter(t) && |st.pc| == |st.status|
    ensures var path, out := ReleasePath(st, s), Run(cfg, st, ReleasePath(st, s));
      |path| <= 3 && s < |out.st.sems| && out.st.sems[s].lock.Free?
  {
    hide Inv, Run, Step, Fits, Shaped, Push;
    OwnerIsInside(cfg, st, s);
    ValueIsCount(cfg, st, s);
    if st.pc[t].Testing? {
      var last := if st.sems[s].value > 0 then Leave(t) else Unlock(t);
      assert ReleasePath(st, s) == [Test(t)] + [last];
      StepKeepsInv(cfg, st, Test(t));
      QueueParts(cfg, st, s);
      var next, end;
      if st.sems[s].value > 0 {
        next := TakeStep1(cfg, st, t, s);
        InvParts(cfg, next);
        end := LeaveStep1(cfg, next, t, s);
      } else {
        next := SuspendStep1(cfg, st, t, s);
        InvParts(cfg, next);
        end := UnlockStep1(cfg, next, t, s);
      }
      RunStep(cfg, st, Test(t), [last], next);
      RunOneStep(cfg, next, last, end);
    } else if st.pc[t].Parked? {
      var end := UnlockStep1(cfg, st, t, s);
      RunOneStep(cfg, st, Unlock(t), end);
    } else {
      var end := LeaveStep1(cfg, st, t, s);
      RunOneStep(cfg, st, Leave(t), end);
    }
  }

  lemma SignallerReleases(cfg: Config, st: State, c: nat, s: nat)
    requires Inv(cfg, st) && s < |st.sems| && st.sems[s].lock == Signaller(c) && |st.pc| == |st.status|
    ensures var path, out := ReleasePath(st, s), Run(cfg, st, ReleasePath(st, s));
      |path| <= 3 && s < |out.st.sems| && out.st.sems[s].lock.Free?
  {
    hide Inv, Run, Step, Fits, Shaped, Pop, Queue;
    OwnerIsInside(cfg, st, s);
    InvParts(cfg, st);
    if st.mode[c].phase == 0 {
      var next := AddStep1(cfg, st, c, s);
      assert ReleasePath(st, s) == [Add(c)] + [Wake(c), Finish(c)];
      RunStep(cfg, st, Add(c), [Wake(c), Finish(c)], next);
      WakeReleases(cfg, next, c, s);
    } else if st.mode[c].phase == 1 {
      WakeReleases(cfg, st, c, s);
    } else {
      var end := FinishStep1(cfg, st, c, s);
      RunOneStep(cfg, st, Finish(c), end);
    }
  }

  lemma WakeReleases(cfg: Config, st: State, c: nat, s: nat)
    requires Inv(cfg, st) && s < |st.sems| && c < |st.mode| && st.mode[c] == Signalling(s, 1)
    ensures var out := Run(cfg, st, [Wake(c), Finish(c)]); s < |out.st.sems| && out.st.sems[s].lock.Free?
  {
    hide Inv, Run, Step, Fits, Shaped, Pop, Queue;
    InvParts(cfg, st);
    QueueParts(cfg, st, s);
    var next := WakeStep1(cfg, st, c, s);
    assert [Wake(c), Finish(c)] == [Wake(c)] + [Finish(c)];
    RunStep(cfg, st, Wake(c), [Finish(c)], next);
    InvParts(cfg, next);
    var end := FinishStep1(cfg, next, c, s);
    RunOneStep(cfg, next, Finish(c), end);
  }

  // ----- a context switch, undisturbed -----

  /** The statuses of the tasks of CPU c, in the order of its list. */
  ghost function Local(cfg: Config, status: seq<Status>, c: nat): (l: seq<Status>)
    requires Fits(cfg) && c < |cfg.lists| && |status| == |cfg.home|
    ensures |l| == |cfg.lists[c]|
  {
    seq(|cfg.lists[c]|, i requires 0 <= i < |cfg.lists[c]| => status[cfg.lists[c][i]])
  }

  function Scans(c: nat, m: nat): seq<Action> {
    if m == 0 then [] else [Scan(c)] + Scans(c, m - 1)
  }

  /** CPU c scans for a task. */
  ghost predicate IsScanning(cfg: Config, st: State, c: nat) {
    Inv(cfg, st) && Fits(cfg) && Shaped(cfg, st) && c < |cfg.lists| && st.mode[c].Switching?
  }

  ghost predicate IsDone(cfg: Config, st: State, c: nat) {
    Inv(cfg, st) && Fits(cfg) && Shaped(cfg, st) && c < |st.mode| && st.mode[c].Executing?
  }

  /** Tasks that the scan can still look at. */
  ghost function Left(cfg: Config, st: State, c: nat): nat
    requires IsScanning(cfg, st, c)
  {
    |cfg.lists[c]| - st.mode[c].k
  }

  lemma SlotInList(cfg: Config, st: State, c: nat)
    requires Fits(cfg) && Shaped(cfg, st) && c < |cfg.lists|
    ensures -1 <= Slot(cfg, st.cur[c]) < |cfg.lists[c]| && |st.status| == |cfg.home|
    ensures st.cur[c] >= 0 ==> cfg.lists[c][Slot(cfg, st.cur[c])] == st.cur[c]
  {
  }

  /** The place in the list of the task that the scan will find, or -1. */
  ghost function Target(cfg: Config, st: State, c: nat): (ind: int)
    requires IsScanning(cfg, st, c)
    ensures -1 <= ind < |cfg.lists[c]|
  {
    SlotInList(cfg, st, c);
    Search(Local(cfg, st.status, c), Slot(cfg, st.cur[c]), st.mode[c].k)
  }

  /** Where the scan leads. */
  ghost function Landed(cfg: Config, st: State, c: nat): State
    requires IsScanning(cfg, st, c)
  {
    var ind := Target(cfg, st, c);
    if ind < 0 then SetMode(st, c, Executing)
    else SetMode(Chosen(st, c, cfg.lists[c][ind], |cfg.lists[c]|), c, Executing)
  }

  /** What one turn does to where the scan leads: nothing. */
  lemma OneTurn(cfg: Config, st: State, c: nat) returns (next: State)
    requires IsScanning(cfg, st, c)
    ensures Fits(cfg) && Shaped(cfg, st) && Step(cfg, st, Scan(c)) == To(next)
    ensures if Left(cfg, st, c) == 0 then next == Landed(cfg, st, c) && IsDone(cfg, next, c)
      else IsScanning(cfg, next, c) && Left(cfg, next, c) < Left(cfg, st, c) && Landed(cfg, next, c) == Landed(cfg, st, c)
  {
    hide Inv, Fits, Slot;
    StepKeepsInv(cfg, st, Scan(c));
    SlotInList(cfg, st, c);
    var n, k, cur := |cfg.lists[c]|, st.mode[c].k, Slot(cfg, st.cur[c]);
    if k == n {
      next := SetMode(st, c, Executing);
    } else {
      var u := Looked(cfg, st, c);
      if st.status[u] == Ready {
        next := Chosen(st, c, u, n);
        assert Target(cfg, st, c) == Around(cur, k, n);
      } else {
        next := SetMode(st, c, Switching(k + 1));
      }
    }
  }

  lemma ScanningParts(cfg: Config, st: State, c: nat)
    requires IsScanning(cfg, st, c)
    ensures Inv(cfg, st) && Fits(cfg) && Shaped(cfg, st)
  {
  }

  lemma NextScan(c: nat, m: nat)
    requires m > 0
    ensures Scans(c, m) == [Scan(c)] + Scans(c, m - 1)
  {
  }

  lemma {:induction false} ScansBlocked(cfg: Config, st: State, c: nat, m: nat)
    requires IsDone(cfg, st, c)
    ensures Inv(cfg, st) && Run(cfg, st, Scans(c, m)) == To(st)
  {
    hide Inv, Fits, Shaped;
    if m > 0 {
      assert Scans(c, m)[1..] == Scans(c, m - 1);
      ScansBlocked(cfg, st, c, m - 1);
    }
  }

  lemma {:induction false} ScanLands(cfg: Config, st: State, c: nat, m: nat)
    requires IsScanning(cfg, st, c) && m > Left(cfg, st, c)
    ensures Inv(cfg, st) && Run(cfg, st, Scans(c, m)) == To(Landed(cfg, st, c))
    decreases m
  {
    hide *;
    ScanningParts(cfg, st, c);
    NextScan(c, m);
    var next := OneTurn(cfg, st, c);
    RunStep(cfg, st, Scan(c), Scans(c, m - 1), next);
    if Left(cfg, st, c) == 0 {
      ScansBlocked(cfg, next, c, m - 1);
    } else {
      ScanLands(cfg, next, c, m - 1);
    }
  }

  /** The status of what CPU c runs, boot being that of its boot task. */
  ghost function OwnStatus(cfg: Config, st: State, c: nat, boot: Status): Status
    requires Fits(cfg) && Shaped(cfg, st) && c < |cfg.lists|
  {
    if st.cur[c] >= 0 then st.status[st.cur[c]] else boot
  }

  /** CPU c has done what kmt_context_switch does on its own list, and everything else is as it was. */
  ghost predicate IsSwitched(cfg: Config, st: State, c: nat, boot: Status, end: State)
    requires Fits(cfg) && Shaped(cfg, st) && c < |cfg.lists|
  {
    SlotInList(cfg, st, c);
    var (l, ind, _) := Switch(Local(cfg, st.status, c), Slot(cfg, st.cur[c]), OwnStatus(cfg, st, c, boot));
    && |end.status| == |cfg.home| && Local(cfg, end.status, c) == l
    && (forall t :: 0 <= t < |cfg.home| && cfg.home[t] != c ==> end.status[t] == st.status[t])
    && end == State(end.status, st.pc, st.cur[c := if ind >= 0 then cfg.lists[c][ind] else -1], st.mode[c := Executing], st.sems)
  }

  /** The scan of a CPU whose current task is not _READY comes to that. */
  lemma SwitchCompletes(cfg: Config, st: State, c: nat, boot: Status)
    requires IsScanning(cfg, st, c) && st.mode[c].k == 0 && OwnStatus(cfg, st, c, boot) != Ready
    ensures Run(cfg, st, Scans(c, |cfg.lists[c]| + 1)) == To(Landed(cfg, st, c))
    ensures IsSwitched(cfg, st, c, boot, Landed(cfg, st, c))
  {
    hide Inv, Run;
    ScanLands(cfg, st, c, |cfg.lists[c]| + 1);
    SlotInList(cfg, st, c);
    LandedCurrent(cfg, st, c);
    LandedStatuses(cfg, st, c);
  }

  /** So does an interrupt, whether the current task goes on at once or the CPU scans for another. */
  lemma InterruptSwitches(cfg: Config, st: State, c: nat, boot: Status) returns (end: State)
    requires Inv(cfg, st) && Fits(cfg) && Shaped(cfg, st) && Interruptible(cfg, st, c) && boot != Ready
    ensures Run(cfg, st, [Interrupt(c)] + Scans(c, |cfg.lists[c]| + 1)) == To(end)
    ensures IsSwitched(cfg, st, c, boot, end)
  {
    hide Inv, Run, Slot, Fits, IsSwitched, Landed;
    ListIsNotEmpty(cfg, st, c);
    var next := EnterSwitch(st, c);
    RunStep(cfg, st, Interrupt(c), Scans(c, |cfg.lists[c]| + 1), next);
    InvParts(cfg, next);
    if OwnStatus(cfg, st, c, boot) == Ready {
      ScansBlocked(cfg, next, c, |cfg.lists[c]| + 1);
      ReadyGoesOn(cfg, st, c, boot);
      end := next;
    } else {
      SwitchCompletes(cfg, next, c, boot);
      end := Landed(cfg, next, c);
      SameSwitch(cfg, st, next, c, boot, end);
    }
  }

  lemma SameSwitch(cfg: Config, st: State, next: State, c: nat, boot: Status, end: State)
    requires Fits(cfg) && Shaped(cfg, st) && Shaped(cfg, next) && c < |cfg.lists|
    requires next == SetMode(st, c, Switching(0)) && IsSwitched(cfg, next, c, boot, end)
    ensures IsSwitched(cfg, st, c, boot, end)
  {
    hide Fits, Slot;
    assert next.mode[c := Executing] == st.mode[c := Executing];
  }

  lemma ReadyGoesOn(cfg: Config, st: State, c: nat, boot: Status)
    requires Fits(cfg) && Shaped(cfg, st) && c < |cfg.lists| && st.mode[c].Executing?
    requires OwnStatus(cfg, st, c, boot) == Ready && boot != Ready
    ensures IsSwitched(cfg, st, c, boot, EnterSwitch(st, c))
  {
    SlotInList(cfg, st, c);
    var cur, end := st.cur[c], EnterSwitch(st, c);
    assert st.mode[c := Executing] == st.mode && st.cur[c := cur] == st.cur;
    assert Local(cfg, end.status, c) == Local(cfg, st.status, c)[Slot(cfg, cur) := Running];
  }

  lemma LandedCurrent(cfg: Config, st: State, c: nat)
    requires IsScanning(cfg, st, c)
    ensures var end, ind := Landed(cfg, st, c), Target(cfg, st, c);
      end == st.(status := end.status, cur := st.cur[c := if ind >= 0 then cfg.lists[c][ind] else st.cur[c]], mode := st.mode[c := Executing])
  {
    hide Inv, Fits, Target;
    assert st.mode[c := Switching(|cfg.lists[c]|)][c := Executing] == st.mode[c := Executing];
    assert st.cur == st.cur[c := st.cur[c]];
  }

  lemma LandedStatuses(cfg: Config, st: State, c: nat)
    requires IsScanning(cfg, st, c)
    ensures var end, ind, cur := Landed(cfg, st, c), Target(cfg, st, c), st.cur[c];
      && |end.status| == |st.status| == |cfg.home|
      && (forall t :: 0 <= t < |cfg.home| && cfg.home[t] != c ==> end.status[t] == st.status[t])
      && Local(cfg, end.status, c) == if ind < 0 then Local(cfg, st.status, c) else
        (if cur >= 0 && st.status[cur] == Running then Local(cfg, st.status, c)[Slot(cfg, cur) := Ready]
         else Local(cfg, st.status, c))[ind := Running]
  {
    hide Inv, Target;
    SlotInList(cfg, st, c);
    var end, ind, cur := Landed(cfg, st, c), Target(cfg, st, c), st.cur[c];
    if ind >= 0 {
      var l := if cur >= 0 && st.status[cur] == Running then Local(cfg, st.status, c)[Slot(cfg, cur) := Ready]
        else Local(cfg, st.status, c);
      assert Local(cfg, end.status, c) == l[ind := Running];
    }
  }
}
