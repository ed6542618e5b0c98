/** Why every CPU needs a task that never waits: where one has none, the tasks of its list can all go to
    sleep, and the one that yields last runs on although it is suspended. */
module NoIdle {
  import opened Ring
  import opened Tasks
  import opened Semaphores

  ghost predicate Reaches(cfg: Config, st: State, actions: seq<Action>, end: State)
    requires Fits(cfg)
    decreases |actions|
  {
    if actions == [] then st == end
    else Shaped(cfg, st) && Step(cfg, st, actions[0]).To? && Reaches(cfg, Step(cfg, st, actions[0]).st, actions[1..], end)
  }

  /** Two cells of a ring hold the same task. */
  ghost predicate TwoCells(st: State, s: nat, i: nat, j: nat, t: nat) {
    && s < |st.sems| && |st.sems[s].ring.wl| == NTHREAD && i < NTHREAD && j < NTHREAD && i != j
    && CellOf(st, s, i) == CellOf(st, s, j) == Task(t) && t < |st.status|
  }

  /** A panic or a failed assertion is next, or a task sits in two cells. */
  ghost predicate Wrong(cfg: Config, st: State)
    requires Fits(cfg)
  {
    Shaped(cfg, st) && ((exists a :: Step(cfg, st, a) == Panic) || exists s, i, j, t :: TwoCells(st, s, i, j, t))
  }

  ghost predicate CanGoWrong(cfg: Config, st: State)
    requires Fits(cfg)
  {
    exists actions, end :: Reaches(cfg, st, actions, end) && Wrong(cfg, end)
  }

  lemma WrongAtOnce(cfg: Config, st: State)
    requires Fits(cfg) && Wrong(cfg, st)
    ensures CanGoWrong(cfg, st)
  {
    hide Wrong;
    assert Reaches(cfg, st, [], st);
  }

  lemma OneStepBefore(cfg: Config, st: State, a: Action, next: State)
    requires Fits(cfg) && Shaped(cfg, st) && Step(cfg, st, a) == To(next) && CanGoWrong(cfg, next)
    ensures CanGoWrong(cfg, st)
  {
    hide Wrong, Shaped, Step, Fits;
    var actions, end :| Reaches(cfg, next, actions, end) && Wrong(cfg, end);
    assert ([a] + actions)[1..] == actions;
    assert Reaches(cfg, st, [a] + actions, end);
  }

  // ----- the scan -----

  /** Task u goes on, and the scan is over. */
  function Settled(st: State, c: nat, u: nat): State
    requires c < |st.cur| == |st.mode| && u < |st.status|
  {
    SetMode(st, c, Executing).(status := st.status[u := Running], cur := st.cur[c := u])
  }

  ghost predicate ScanOf(cfg: Config, st: State, c: nat) {
    && Fits(cfg) && Shaped(cfg, st) && c < |cfg.lists| && st.mode[c].Switching?
    && (st.cur[c] >= 0 ==> st.status[st.cur[c]] == Suspend)
  }

  lemma ChosenSettles(cfg: Config, st: State, c: nat, u: nat)
    requires ScanOf(cfg, st, c) && st.mode[c].k < |cfg.lists[c]| && u == Looked(cfg, st, c) && st.status[u] == Ready
    requires CanGoWrong(cfg, Settled(st, c, u))
    ensures CanGoWrong(cfg, st)
  {
    var n := |cfg.lists[c]|;
    var st' := Chosen(st, c, u, n);
    assert Shaped(cfg, st');
    assert SetMode(st', c, Executing) == Settled(st, c, u) by {
      assert st.mode[c := Switching(n)][c := Executing] == st.mode[c := Executing];
    }
    hide CanGoWrong, Shaped, Fits;
    OneStepBefore(cfg, st', Scan(c), Settled(st, c, u));
    OneStepBefore(cfg, st, Scan(c), st');
  }

  /** The scan ends with some ready task of the list, or with none if there is none. */
  lemma {:induction false} ScanLeads(cfg: Config, st: State, c: nat)
    requires ScanOf(cfg, st, c)
    requires forall i :: 0 <= i < |cfg.lists[c]| && st.status[cfg.lists[c][i]] == Ready ==>
      Offset(Slot(cfg, st.cur[c]), i, |cfg.lists[c]|) >= st.mode[c].k && CanGoWrong(cfg, Settled(st, c, cfg.lists[c][i]))
    requires (forall i :: 0 <= i < |cfg.lists[c]| ==> st.status[cfg.lists[c][i]] != Ready) ==>
      CanGoWrong(cfg, SetMode(st, c, Executing))
    ensures CanGoWrong(cfg, st)
    decreases |cfg.lists[c]| - st.mode[c].k
  {
    hide CanGoWrong;
    var n, k := |cfg.lists[c]|, st.mode[c].k;
    if k == n {
      OneStepBefore(cfg, st, Scan(c), SetMode(st, c, Executing));
    } else {
      var u := Looked(cfg, st, c);
      if st.status[u] == Ready {
        ChosenSettles(cfg, st, c, u);
      } else {
        var st' := SetMode(st, c, Switching(k + 1));
        assert ScanOf(cfg, st', c);
        assert st'.mode[c := Executing] == st.mode[c := Executing];
        forall i | 0 <= i < n && st'.status[cfg.lists[c][i]] == Ready
          ensures Offset(Slot(cfg, st.cur[c]), i, n) >= k + 1 && CanGoWrong(cfg, Settled(st', c, cfg.lists[c][i]))
        {
          EveryIndexIsLookedAt(Slot(cfg, st.cur[c]), k, i, n);
          assert Settled(st', c, cfg.lists[c][i]) == Settled(st, c, cfg.lists[c][i]);
        }
        assert SetMode(st', c, Executing) == SetMode(st, c, Executing);
        ScanLeads(cfg, st', c);
        OneStepBefore(cfg, st, Scan(c), st');
      }
    }
  }

  // ----- one task after the other queues up -----

  /** A semaphore at 0 that nobody is inside of, and in whose ring the tasks of q sit. */
  ghost predicate Quiet(sem: Sem) {
    && sem.lock.Free? && sem.value == 0 && sem.woken == [] && Represents(sem.ring, sem.joined) && Distinct(sem.joined)
  }

  /** The current task of c is about to wait for s; the others of its list are ready to, or do. */
  ghost predicate Filling(cfg: Config, st: State, c: nat, s: nat) {
    && Fits(cfg) && Shaped(cfg, st) && c < |cfg.lists| && s < |st.sems| && Quiet(st.sems[s])
    && st.mode[c].Executing? && st.cur[c] >= 0 && st.pc[st.cur[c]].Outside? && st.status[st.cur[c]] == Running
    && st.cur[c] !in st.sems[s].joined
    && (forall t :: t in st.sems[s].joined ==> t < |cfg.home|)
    && (forall t :: 0 <= t < |cfg.home| && cfg.home[t] == c ==> t !in cfg.idle)
    && (forall t :: 0 <= t < |cfg.home| && cfg.home[t] == c && t != st.cur[c] ==>
      if t in st.sems[s].joined then st.status[t] == Suspend else st.status[t] == Ready && st.pc[t].Outside?)
  }

  /** After lines 58-67 of sem.c: queued up, suspended, unlocked and yielded. */
  function Asleep(st: State, c: nat, t: nat, s: nat): State
    requires c < |st.mode| && t < |st.pc| == |st.status| && s < |st.sems| && InBounds(st.sems[s].ring)
  {
    var sem := st.sems[s];
    State(st.status[t := Suspend], st.pc[t := Back(s)], st.cur, st.mode[c := Switching(0)],
          st.sems[s := sem.(ring := Push(sem.ring, t), joined := sem.joined + [t])])
  }

  /** A task on its way to the test of s, whose lock is free. */
  ghost predicate AtTest(cfg: Config, st: State, t: nat, s: nat) {
    && Fits(cfg) && Shaped(cfg, st) && Runs(cfg, st, t) && s < |st.sems| && st.sems[s].lock.Free? && st.sems[s].value == 0
    && (st.pc[t] == Back(s) || (st.pc[t].Outside? && t !in cfg.idle))
  }

  /** It gets the lock and tests the value. */
  lemma TestsValue(cfg: Config, st: State, t: nat, s: nat)
    requires AtTest(cfg, st, t, s)
    ensures var st1 := Locked(SetPc(st, t, Testing(s, st.pc[t].Back?)), s, Waiter(t));
      && Shaped(cfg, st1) && (CanGoWrong(cfg, st1) ==> CanGoWrong(cfg, st))
      && Step(cfg, st1, Test(t)) ==
           if st.sems[s].ring.wl[st.sems[s].ring.right] != Null then Panic else To(Suspended(st1, t, s))
  {
    hide CanGoWrong;
    var st1 := Locked(SetPc(st, t, Testing(s, st.pc[t].Back?)), s, Waiter(t));
    assert Shaped(cfg, st1) && Runs(cfg, st1, t);
    if CanGoWrong(cfg, st1) {
      if st.pc[t].Back? {
        OneStepBefore(cfg, st, Reacquire(t), st1);
      } else {
        OneStepBefore(cfg, st, Acquire(t, s), st1);
      }
    }
  }

  /** From the ring it goes to sleep. */
  lemma Yields(cfg: Config, st: State, c: nat, t: nat, s: nat)
    requires AtTest(cfg, st, t, s) && c == cfg.home[t]
    requires st.sems[s].ring.wl[st.sems[s].ring.right] == Null
    requires CanGoWrong(cfg, Asleep(st, c, t, s))
    ensures CanGoWrong(cfg, st)
  {
    hide CanGoWrong;
    TestsValue(cfg, st, t, s);
    var st1 := Locked(SetPc(st, t, Testing(s, st.pc[t].Back?)), s, Waiter(t));
    var st2 := Suspended(st1, t, s);
    var st3 := Locked(SetPc(st2, t, Window(s)), s, Free);
    var st4 := Asleep(st, c, t, s);
    assert Shaped(cfg, st2) && Runs(cfg, st2, t);
    assert Shaped(cfg, st3) && Runs(cfg, st3, t);
    assert st4.sems == st3.sems;
    assert st4.pc == st3.pc[t := Back(s)];
    assert st4.status == st3.status;
    hide Shaped, Runs, Suspended;
    assert Step(cfg, st3, Yield(t)) == To(st4);
    OneStepBefore(cfg, st3, Yield(t), st4);
    assert Step(cfg, st2, Unlock(t)) == To(st3);
    OneStepBefore(cfg, st2, Unlock(t), st3);
    OneStepBefore(cfg, st1, Test(t), st2);
  }

  function ReadySlots(cfg: Config, st: State, c: nat): set<nat>
    requires c < |cfg.lists| && forall i :: 0 <= i < |cfg.lists[c]| ==> cfg.lists[c][i] < |st.status|
  {
    set i: nat | i < |cfg.lists[c]| && st.status[cfg.lists[c][i]] == Ready
  }

  lemma FallsAsleep(cfg: Config, st: State, c: nat, s: nat)
    requires Filling(cfg, st, c, s)
    ensures var t, sem := st.cur[c], st.sems[s]; var st4 := Asleep(st, c, t, s);
      && AtTest(cfg, st, t, s) && sem.ring.wl[sem.ring.right] == Null
      && ScanOf(cfg, st4, c) && Quiet(st4.sems[s]) && st4.sems[s].joined == sem.joined + [t]
      && ReadySlots(cfg, st4, c) == ReadySlots(cfg, st, c)
  {
    var t, sem := st.cur[c], st.sems[s];
    QueueHasRoom(sem.joined, |cfg.home|, t);
    PushAppends(sem.ring, sem.joined, t);
    assert ScanOf(cfg, Asleep(st, c, t, s), c);
  }

  lemma NextFilling(cfg: Config, st: State, c: nat, s: nat, i: nat)
    requires Filling(cfg, st, c, s) && i < |cfg.lists[c]| && st.status[cfg.lists[c][i]] == Ready
    ensures var st' := Settled(Asleep(st, c, st.cur[c], s), c, cfg.lists[c][i]);
      Filling(cfg, st', c, s) && ReadySlots(cfg, st', c) == ReadySlots(cfg, st, c) - {i} && i in ReadySlots(cfg, st, c)
  {
    FallsAsleep(cfg, st, c, s);
    var t, u := st.cur[c], cfg.lists[c][i];
    var st' := Settled(Asleep(st, c, t, s), c, u);
    assert Shaped(cfg, st');
    hide Quiet;
    forall v | 0 <= v < |cfg.home| && cfg.home[v] == c && v != u
      ensures if v in st'.sems[s].joined then st'.status[v] == Suspend else st'.status[v] == Ready && st'.pc[v].Outside?
    {
    }
    forall j | 0 <= j < |cfg.lists[c]| ensures j in ReadySlots(cfg, st', c) <==> j in ReadySlots(cfg, st, c) && j != i {
      assert cfg.lists[c][j] == u ==> j == i;
    }
  }

  /** The last one: its scan finds nobody, it runs on while suspended, and queues up a second time or
      finds the ring full. */
  lemma LastGoesWrong(cfg: Config, st: State, c: nat, t: nat, s: nat)
    requires AtTest(cfg, st, t, s) && st.pc[t].Back? && st.sems[s].woken == []
    requires Represents(st.sems[s].ring, st.sems[s].joined) && t in st.sems[s].joined
    ensures CanGoWrong(cfg, st)
  {
    TestsValue(cfg, st, t, s);
    var sem := st.sems[s];
    var st1 := Locked(SetPc(st, t, Testing(s, true)), s, Waiter(t));
    if sem.ring.wl[sem.ring.right] != Null {
      assert Step(cfg, st1, Test(t)) == Panic;
      assert Wrong(cfg, st1);
      WrongAtOnce(cfg, st1);
    } else {
      var st2 := Suspended(st1, t, s);
      var q :| 0 <= q < |sem.joined| && sem.joined[q] == t;
      var i := if sem.ring.left + q < NTHREAD then sem.ring.left + q else sem.ring.left + q - NTHREAD;
      assert Past(sem.ring.left, i) == q;
      assert TwoCells(st2, s, i, sem.ring.right, t);
      assert Shaped(cfg, st2);
      assert Wrong(cfg, st2);
      WrongAtOnce(cfg, st2);
      OneStepBefore(cfg, st1, Test(t), st2);
    }
  }

  lemma {:induction false} FillingGoesWrong(cfg: Config, st: State, c: nat, s: nat)
    requires Filling(cfg, st, c, s)
    ensures CanGoWrong(cfg, st)
    decreases ReadySlots(cfg, st, c)
  {
    hide CanGoWrong, Quiet;
    FallsAsleep(cfg, st, c, s);
    var t := st.cur[c];
    var st4 := Asleep(st, c, t, s);
    forall i | 0 <= i < |cfg.lists[c]| && st4.status[cfg.lists[c][i]] == Ready
      ensures CanGoWrong(cfg, Settled(st4, c, cfg.lists[c][i]))
    {
      NextFilling(cfg, st, c, s, i);
      FillingGoesWrong(cfg, Settled(st4, c, cfg.lists[c][i]), c, s);
    }
    if forall i :: 0 <= i < |cfg.lists[c]| ==> st4.status[cfg.lists[c][i]] != Ready {
      var st5 := SetMode(st4, c, Executing);
      assert AtTest(cfg, st5, t, s) && st5.sems[s].joined == st.sems[s].joined + [t];
      assert st5.sems[s].woken == [] && Represents(st5.sems[s].ring, st5.sems[s].joined) by { QuietParts(st4.sems[s]); }
      LastGoesWrong(cfg, st5, c, t, s);
    }
    ScanLeads(cfg, st4, c);
    Yields(cfg, st, c, t, s);
  }

  lemma QuietParts(sem: Sem)
    requires Quiet(sem)
    ensures sem.woken == [] && Represents(sem.ring, sem.joined)
  {
  }

  // ----- exactly then -----

  /** A CPU all of whose tasks may wait, and a semaphore that starts at 0: the system can go wrong. */
  lemma WithoutIdleGoesWrong(cfg: Config, st: State, c: nat, s: nat)
    requires Begins(cfg, st) && c < |cfg.lists| && s < |st.sems| && st.sems[s].value == 0
    requires forall t :: 0 <= t < |cfg.home| && cfg.home[t] == c ==> t !in cfg.idle
    ensures CanGoWrong(cfg, st)
  {
    EmptyRepresents();
    assert Quiet(st.sems[s]);
    hide Quiet;
    if cfg.lists[c] == [] {
      assert Step(cfg, st, Interrupt(c)) == Panic;
      assert Wrong(cfg, st);
      WrongAtOnce(cfg, st);
    } else if st.cur[c] >= 0 {
      assert Filling(cfg, st, c, s);
      FillingGoesWrong(cfg, st, c, s);
    } else {
      var st' := SetMode(st, c, Switching(0));
      assert ScanOf(cfg, st', c);
      forall i | 0 <= i < |cfg.lists[c]| ensures CanGoWrong(cfg, Settled(st', c, cfg.lists[c][i])) {
        assert Shaped(cfg, Settled(st', c, cfg.lists[c][i]));
        assert Filling(cfg, Settled(st', c, cfg.lists[c][i]), c, s);
        FillingGoesWrong(cfg, Settled(st', c, cfg.lists[c][i]), c, s);
      }
      assert cfg.home[cfg.lists[c][0]] == c;
      ScanLeads(cfg, st', c);
      OneStepBefore(cfg, st, Interrupt(c), st');
    }
  }

  lemma InvIsNotWrong(cfg: Config, st: State)
    requires Inv(cfg, st)
    ensures !Wrong(cfg, st)
  {
    assert Fits(cfg) && Shaped(cfg, st);
    hide Inv, Step, Shaped;
    forall a ensures Step(cfg, st, a) != Panic {
      StepKeepsInv(cfg, st, a);
    }
    forall s: nat, i: nat, j: nat, t: nat ensures !TwoCells(st, s, i, j, t) {
      if TwoCells(st, s, i, j, t) {
        SuspendedSitsOnce(cfg, st, s, i, s, j, t);
      }
    }
  }

  lemma {:induction false} InvStaysRight(cfg: Config, st: State, actions: seq<Action>, end: State)
    requires Inv(cfg, st) && Reaches(cfg, st, actions, end)
    ensures Inv(cfg, end)
    decreases |actions|
  {
    if actions != [] {
      StepKeepsInv(cfg, st, actions[0]);
      hide Inv, Step, Shaped, Fits;
      InvStaysRight(cfg, Step(cfg, st, actions[0]).st, actions[1..], end);
    }
  }

  /** With never-waiting tasks on the first |idle| CPUs, one each, nothing can go wrong if and only if
      those are all CPUs. */
  lemma IdleIsExact(cfg: Config, st: State, s: nat)
    requires Begins(cfg, st) && s < |st.sems| && st.sems[s].value == 0 && |cfg.idle| <= |cfg.lists|
    requires forall c :: 0 <= c < |cfg.idle| ==> cfg.idle[c] < |cfg.home| && cfg.home[cfg.idle[c]] == c
    ensures HasIdle(cfg) <==> !CanGoWrong(cfg, st)
  {
    hide CanGoWrong, Shaped, Fits;
    if HasIdle(cfg) {
      assert Initial(cfg, st);
      InitialInv(cfg, st);
      InvNeverGoesWrong(cfg, st);
    } else {
      forall t | 0 <= t < |cfg.home| && cfg.home[t] == |cfg.idle| ensures t !in cfg.idle {
      }
      WithoutIdleGoesWrong(cfg, st, |cfg.idle|, s);
    }
  }

  lemma InvNeverGoesWrong(cfg: Config, st: State)
    requires Inv(cfg, st)
    ensures !CanGoWrong(cfg, st)
  {
    assert Fits(cfg);
    hide Inv, Shaped, Fits, Wrong, HasIdle;
    forall actions, end | Reaches(cfg, st, actions, end) ensures !Wrong(cfg, end) {
      InvStaysRight(cfg, st, actions, end);
      InvIsNotWrong(cfg, end);
    }
  }
}
