/** Spinlocks go on: a free lock is won, how many steps the functions take at most, and what they come
    to when nobody interferes. */
module SpinProgress {
  import opened Spinlock

  // ----- the exchange -----

  /** The exchange leaves a taken lock alone and wins a free one; nothing else changes. */
  lemma SpinWinsIff(st: State, c: nat, l: nat)
    requires c < |st.cpus| && l < |st.locks| && st.cpus[c].pc == Spin(l)
    ensures st.locks[l].locked ==> Step(st, c, Continue) == st
    ensures !st.locks[l].locked ==>
      Step(st, c, Continue) == State(
        st.locks[l := Lock(true, st.locks[l].owner)],
        st.cpus[c := st.cpus[c].(pc := Own(l), held := st.cpus[c].held + {l})])
  {
  }

  /** A lock is free exactly when no CPU has it, and then cpu is NULL. */
  lemma FreeLock(st: State, l: nat)
    requires Inv(st) && l < |st.locks|
    ensures (forall c :: 0 <= c < |st.cpus| ==> l !in st.cpus[c].held) <==> !st.locks[l].locked
    ensures !st.locks[l].locked ==> st.locks[l] == Lock(false, -1)
  {
    var k := st.locks[l];
    assert LockOk(st.cpus, k, l);
    assert 0 <= k.owner ==> (Names(st.cpus[k.owner], l) ==> k.locked);
  }

  // ----- how far a CPU has to go -----

  /** The steps of its own that a CPU is away from the end of the function it is in. */
  function Distance(p: Pc): nat {
    match p
    case Idle => 0
    case Halted(_) => 0
    case Enter(_) => 4
    case EnterOwner(_) => 3
    case Spin(_) => 2
    case Own(_) => 1
    case LeaveOwner(_) => 4
    case Clear(_) => 3
    case Release(_) => 2
    case Pop => 1
    case AskOwner(_) => 1
  }

  /** The exchange finds the lock taken. */
  predicate Stalls(st: State, c: nat)
    requires c < |st.cpus|
  {
    st.cpus[c].pc.Spin? && st.cpus[c].pc.l < |st.locks| && st.locks[st.cpus[c].pc.l].locked
  }

  /** The steps that CPU c makes inside a function, but for the exchanges that find the lock taken. */
  function Advances(st: State, moves: seq<Move>, c: nat): nat
    requires c < |st.cpus|
    decreases |moves|
  {
    if moves == [] then 0
    else
      var m := moves[0];
      if m.c >= |st.cpus| then Advances(st, moves[1..], c)
      else
        var rest := if c < |Step(st, m.c, m.a).cpus| then Advances(Step(st, m.c, m.a), moves[1..], c) else 0;
        if m == Move(c, Continue) && !Stalls(st, c) then 1 + rest else rest
  }

  /** All along the run CPU c is inside of a function, until the very last state. */
  predicate Inside(st: State, moves: seq<Move>, c: nat)
    requires c < |st.cpus|
    decreases |moves|
  {
    moves == [] ||
    (!st.cpus[c].pc.Idle? && !st.cpus[c].pc.Halted? &&
     var next := if moves[0].c < |st.cpus| then Step(st, moves[0].c, moves[0].a) else st;
     c < |next.cpus| && Inside(next, moves[1..], c))
  }

  /** A step of CPU c inside a function brings it closer to the end, unless the lock it spins on is
      taken; no step of another CPU takes it further away. */
  lemma StepComesCloser(st: State, m: Move, c: nat)
    requires Inv(st) && c < |st.cpus| && m.c < |st.cpus|
    requires !st.cpus[c].pc.Idle? && !st.cpus[c].pc.Halted?
    ensures Inv(Step(st, m.c, m.a)) && |Step(st, m.c, m.a).cpus| == |st.cpus|
    ensures var p, p' := st.cpus[c].pc, Step(st, m.c, m.a).cpus[c].pc;
      if m == Move(c, Continue) && !Stalls(st, c) then Distance(p') < Distance(p) else p' == p
  {
    hide CpuOk, LockOk, Step, Distance;
    StepKeepsInv(st, m.c, m.a);
    if m.c != c {
      OthersKeepTheirs(st, m, c);
    } else {
      OwnStepComesCloser(st, m.a, c);
    }
  }

  lemma OwnStepComesCloser(st: State, a: Action, c: nat)
    requires c < |st.cpus| && InRange(st.cpus[c].pc, |st.locks|) && |Step(st, c, a).cpus| == |st.cpus|
    requires !st.cpus[c].pc.Idle? && !st.cpus[c].pc.Halted?
    ensures var p, p' := st.cpus[c].pc, Step(st, c, a).cpus[c].pc;
      if a.Continue? && !Stalls(st, c) then Distance(p') < Distance(p) else p' == p
  {
  }

  /** However the CPUs interleave, a function is over after at most four steps of its own CPU, not
      counting the exchanges that find the lock taken. */
  lemma {:induction false} FunctionsEnd(st: State, moves: seq<Move>, c: nat)
    requires Inv(st) && c < |st.cpus| && Inside(st, moves, c)
    ensures |Run(st, moves).cpus| == |st.cpus|
    ensures Advances(st, moves, c) + Distance(Run(st, moves).cpus[c].pc) <= Distance(st.cpus[c].pc) <= 4
    decreases |moves|
  {
    if moves != [] {
      var m := moves[0];
      if m.c < |st.cpus| {
        StepComesCloser(st, m, c);
        hide Step, Inv;
        FunctionsEnd(Step(st, m.c, m.a), moves[1..], c);
      } else {
        FunctionsEnd(st, moves[1..], c);
      }
    }
  }

  // ----- a function called by one CPU, and nobody else moving -----

  function Alone(c: nat, actions: seq<Action>): (moves: seq<Move>)
    ensures |moves| == |actions|
    ensures forall i :: 0 <= i < |moves| ==> moves[i] == Move(c, actions[i])
  {
    seq(|actions|, i requires 0 <= i < |actions| => Move(c, actions[i]))
  }

  lemma RunAlone(st: State, c: nat, a: Action, rest: seq<Action>, next: State)
    requires c < |st.cpus| && Step(st, c, a) == next
    ensures Run(st, Alone(c, [a] + rest)) == Run(next, Alone(c, rest))
  {
    hide Step;
    assert Alone(c, [a] + rest)[0] == Move(c, a);
    assert Alone(c, [a] + rest)[1..] == Alone(c, rest);
  }

  /** CPU c makes n more steps. */
  function Goes(n: nat): seq<Action> {
    if n == 0 then [] else [Continue] + Goes(n - 1)
  }

  lemma RunNothing(st: State, c: nat)
    ensures Run(st, Alone(c, Goes(0))) == st
  {
  }

  /** st, but for CPU c and lock l. */
  function At(st: State, c: nat, l: nat, u: Cpu, k: Lock): State
    requires c < |st.cpus| && l < |st.locks|
  {
    State(st.locks[l := k], st.cpus[c := u])
  }

  lemma GoesOn(st: State, c: nat, l: nat, u: Cpu, k: Lock, u': Cpu, k': Lock, n: nat)
    requires c < |st.cpus| && l < |st.locks| && Step(At(st, c, l, u, k), c, Continue) == At(st, c, l, u', k')
    ensures Run(At(st, c, l, u, k), Alone(c, Goes(n + 1))) == Run(At(st, c, l, u', k'), Alone(c, Goes(n)))
  {
    hide Step, Run, Alone;
    RunAlone(At(st, c, l, u, k), c, Continue, Goes(n), At(st, c, l, u', k'));
  }

  lemma Entered(st: State, c: nat, l: nat, u: Cpu, k: Lock)
    requires c < |st.cpus| && l < |st.locks| && u.pc == Enter(l) && !k.locked && u.ncli > 0 && !u.flag
    ensures Step(At(st, c, l, u, k), c, Continue) == At(st, c, l, u.(pc := Spin(l)), k)
  {
    assert At(st, c, l, u.(pc := Spin(l)), k).cpus == At(st, c, l, u, k).cpus[c := u.(pc := Spin(l))];
  }

  lemma Won(st: State, c: nat, l: nat, u: Cpu, k: Lock)
    requires c < |st.cpus| && l < |st.locks| && u.pc == Spin(l) && !k.locked
    ensures Step(At(st, c, l, u, k), c, Continue) == At(st, c, l, u.(pc := Own(l), held := u.held + {l}), k.(locked := true))
  {
    SpinWinsIff(At(st, c, l, u, k), c, l);
  }

  lemma Owns(st: State, c: nat, l: nat, u: Cpu, k: Lock)
    requires c < |st.cpus| && l < |st.locks| && u.pc == Own(l)
    ensures Step(At(st, c, l, u, k), c, Continue) == At(st, c, l, u.(pc := Idle), k.(owner := c))
  {
    assert At(st, c, l, u.(pc := Idle), k).cpus == At(st, c, l, u, k).cpus[c := u.(pc := Idle)];
  }

  lemma Leaves(st: State, c: nat, l: nat, u: Cpu, k: Lock)
    requires c < |st.cpus| && l < |st.locks| && u.pc == LeaveOwner(l) && k.owner == c && u.ncli > 1 && !u.flag
    ensures Step(At(st, c, l, u, k), c, Continue) == At(st, c, l, u.(pc := Clear(l), ncli := u.ncli - 1), k)
  {
    var v := u.(pc := Clear(l), ncli := u.ncli - 1);
    assert At(st, c, l, v, k).cpus == At(st, c, l, u, k).cpus[c := v];
  }

  lemma Clears(st: State, c: nat, l: nat, u: Cpu, k: Lock)
    requires c < |st.cpus| && l < |st.locks| && u.pc == Clear(l)
    ensures Step(At(st, c, l, u, k), c, Continue) == At(st, c, l, u.(pc := Release(l)), k.(owner := -1))
  {
    assert At(st, c, l, u.(pc := Release(l)), k).cpus == At(st, c, l, u, k).cpus[c := u.(pc := Release(l))];
  }

  lemma Releases(st: State, c: nat, l: nat, u: Cpu, k: Lock)
    requires c < |st.cpus| && l < |st.locks| && u.pc == Release(l)
    ensures Step(At(st, c, l, u, k), c, Continue) == At(st, c, l, u.(pc := Pop, held := u.held - {l}), k.(locked := false))
  {
    var v := u.(pc := Pop, held := u.held - {l});
    assert At(st, c, l, v, k).cpus == At(st, c, l, u, k).cpus[c := v];
  }

  lemma Pops(st: State, c: nat, l: nat, u: Cpu, k: Lock)
    requires c < |st.cpus| && l < |st.locks| && u.pc == Pop && u.ncli > 0 && !u.flag
    ensures Step(At(st, c, l, u, k), c, Continue)
      == At(st, c, l, u.(pc := Idle, ncli := u.ncli - 1, flag := u.ncli == 1 && u.intena), k)
  {
    var v := u.(pc := Idle, ncli := u.ncli - 1, flag := u.ncli == 1 && u.intena);
    assert At(st, c, l, v, k).cpus == At(st, c, l, u, k).cpus[c := v];
  }

  /** A CPU that has taken l, outside of the functions again. */
  function WithIt(u: Cpu, l: nat): Cpu {
    u.(flag := false, intena := if u.ncli == 0 then u.flag else u.intena, ncli := u.ncli + 1, held := u.held + {l})
  }

  /** A CPU that has given l back: interrupts return with the outermost level. */
  function WithoutIt(u: Cpu, l: nat): Cpu {
    u.(flag := u.ncli == 1 && u.intena, ncli := u.ncli - 1, held := u.held - {l})
  }

  lemma Calls(st: State, c: nat, l: nat, a: Action)
    requires c < |st.cpus| && l < |st.locks| && st.cpus[c].pc.Idle? && (a == Acquire(l) || a == GiveBack(l))
    requires a.Acquire? || st.locks[l].locked
    ensures Step(st, c, a) ==
      At(st, c, l, PushCli(st.cpus[c]).(pc := if a.Acquire? then Enter(l) else LeaveOwner(l)), st.locks[l])
  {
  }

  /** my_spinlock on a free lock takes it, names its CPU, turns interrupts off and saves the flag on the
      outermost level; nothing else changes. */
  lemma AcquireCompletes(st: State, c: nat, l: nat)
    requires Inv(st) && c < |st.cpus| && l < |st.locks| && st.cpus[c].pc.Idle? && !st.locks[l].locked
    ensures Run(st, Alone(c, [Acquire(l)] + Goes(3))) == At(st, c, l, WithIt(st.cpus[c], l), Lock(true, c))
  {
    hide Run, Step, LockOk, Alone, Goes, At;
    var u, k := st.cpus[c], st.locks[l];
    assert CpuOk(u);
    hide Inv;
    var w := WithIt(u, l).(held := u.held);
    Calls(st, c, l, Acquire(l));
    RunAlone(st, c, Acquire(l), Goes(3), At(st, c, l, w.(pc := Enter(l)), k));
    Entered(st, c, l, w.(pc := Enter(l)), k);
    GoesOn(st, c, l, w.(pc := Enter(l)), k, w.(pc := Spin(l)), k, 2);
    Won(st, c, l, w.(pc := Spin(l)), k);
    var v := w.(pc := Own(l), held := u.held + {l});
    GoesOn(st, c, l, w.(pc := Spin(l)), k, v, k.(locked := true), 1);
    Owns(st, c, l, v, k.(locked := true));
    GoesOn(st, c, l, v, k.(locked := true), WithIt(u, l), Lock(true, c), 0);
    RunNothing(At(st, c, l, WithIt(u, l), Lock(true, c)), c);
  }

  lemma Owned(st: State, c: nat, l: nat)
    requires Inv(st) && c < |st.cpus| && st.cpus[c].pc.Idle? && l in st.cpus[c].held
    ensures l < |st.locks| && st.locks[l] == Lock(true, c) && st.cpus[c].ncli > 0 && !st.cpus[c].flag
  {
    assert LockOk(st.cpus, st.locks[l], l) && Names(st.cpus[c], l);
    assert st.cpus[c].held != {};
  }

  /** my_spinunlock by the CPU that has the lock frees it, and turns interrupts on again if that was the
      outermost level and they were on before it; nothing else changes. */
  lemma GiveBackCompletes(st: State, c: nat, l: nat)
    requires Inv(st) && c < |st.cpus| && st.cpus[c].pc.Idle? && l in st.cpus[c].held
    ensures l < |st.locks|
    ensures Run(st, Alone(c, [GiveBack(l)] + Goes(4))) == At(st, c, l, WithoutIt(st.cpus[c], l), Lock(false, -1))
  {
    hide Run, Step, LockOk, Alone, Goes, At, Inv;
    Owned(st, c, l);
    var u, k := st.cpus[c], st.locks[l];
    var p := u.(ncli := u.ncli + 1, pc := LeaveOwner(l));
    Calls(st, c, l, GiveBack(l));
    RunAlone(st, c, GiveBack(l), Goes(4), At(st, c, l, p, k));
    Leaves(st, c, l, p, k);
    GoesOn(st, c, l, p, k, u.(pc := Clear(l)), k, 3);
    Clears(st, c, l, u.(pc := Clear(l)), k);
    GoesOn(st, c, l, u.(pc := Clear(l)), k, u.(pc := Release(l)), Lock(true, -1), 2);
    Releases(st, c, l, u.(pc := Release(l)), Lock(true, -1));
    var v := u.(pc := Pop, held := u.held - {l});
    GoesOn(st, c, l, u.(pc := Release(l)), Lock(true, -1), v, Lock(false, -1), 1);
    Pops(st, c, l, v, Lock(false, -1));
    GoesOn(st, c, l, v, Lock(false, -1), WithoutIt(u, l), Lock(false, -1), 0);
    RunNothing(At(st, c, l, WithoutIt(u, l), Lock(false, -1)), c);
  }

  lemma {:induction false} RunSplits(st: State, first: seq<Move>, rest: seq<Move>)
    ensures Run(st, first + rest) == Run(Run(st, first), rest)
    decreases |first|
  {
    hide Step;
    if first == [] {
      assert first + rest == rest;
    } else {
      assert (first + rest)[0] == first[0] && (first + rest)[1..] == first[1..] + rest;
      RunSplits(if first[0].c < |st.cpus| then Step(st, first[0].c, first[0].a) else st, first[1..], rest);
    }
  }

  /** A CPU that waits at the exchange stays there as long as the lock is taken, and once the owner has
      given it back it has the lock after two steps. */
  lemma WaiterGetsLock(st: State, c: nat, d: nat, l: nat)
    requires Inv(st) && c < |st.cpus| && d < |st.cpus| && st.cpus[c].pc.Idle? && l in st.cpus[c].held
    requires st.cpus[d].pc == Spin(l)
    ensures l < |st.locks| && c != d && Step(st, d, Continue) == st
    ensures Run(st, Alone(c, [GiveBack(l)] + Goes(4)) + Alone(d, Goes(2))) ==
      State(st.locks[l := Lock(true, d)],
            st.cpus[c := WithoutIt(st.cpus[c], l)][d := st.cpus[d].(pc := Idle, held := st.cpus[d].held + {l})])
  {
    hide Run, Inv, Alone, Goes;
    Owned(st, c, l);
    SpinWinsIff(st, d, l);
    GiveBackCompletes(st, c, l);
    var mid := At(st, c, l, WithoutIt(st.cpus[c], l), Lock(false, -1));
    RunSplits(st, Alone(c, [GiveBack(l)] + Goes(4)), Alone(d, Goes(2)));
    var u := st.cpus[d];
    assert mid == At(mid, d, l, u, Lock(false, -1));
    hide Step;
    var v := u.(pc := Own(l), held := u.held + {l});
    Won(mid, d, l, u, Lock(false, -1));
    GoesOn(mid, d, l, u, Lock(false, -1), v, Lock(true, -1), 1);
    Owns(mid, d, l, v, Lock(true, -1));
    GoesOn(mid, d, l, v, Lock(true, -1), v.(pc := Idle), Lock(true, d), 0);
    RunNothing(At(mid, d, l, v.(pc := Idle), Lock(true, d)), d);
  }

  /** my_spinlock on a lock that the CPU has, and my_spinunlock on one it does not have, end in their
      panics, whoever else has it. */
  lemma MisuseHalts(st: State, c: nat, l: nat)
    requires Inv(st) && c < |st.cpus| && l < |st.locks| && st.cpus[c].pc.Idle?
    ensures var end := Run(st, Alone(c, if l in st.cpus[c].held then [Acquire(l)] + Goes(2) else [GiveBack(l)] + Goes(1)));
      |end.cpus| == |st.cpus| && end.cpus[c].pc == Halted(if l in st.cpus[c].held then Deadlock(l) else NotHeld(l))
  {
    hide Run, Alone, LockOk, Goes;
    assert CpuOk(st.cpus[c]);
    hide Inv;
    var own := l in st.cpus[c].held;
    var a := if own then Acquire(l) else GiveBack(l);
    var st1 := Step(st, c, a);
    StepKeepsInv(st, c, a);
    RunAlone(st, c, a, Goes(if own then 2 else 1), st1);
    var st2 := Step(st1, c, Continue);
    StepKeepsInv(st1, c, Continue);
    OneMoreGo(st1, c, if own then 1 else 0);
    if own {
      Owned(st, c, l);
      OneMoreGo(st2, c, 0);
      ChecksDecide(st2, c);
      RunNothing(Step(st2, c, Continue), c);
    } else {
      if st1.cpus[c].pc.LeaveOwner? {
        ChecksDecide(st1, c);
      }
      RunNothing(st2, c);
    }
  }

  lemma OneMoreGo(st: State, c: nat, n: nat)
    requires c < |st.cpus|
    ensures Run(st, Alone(c, Goes(n + 1))) == Run(Step(st, c, Continue), Alone(c, Goes(n)))
  {
    hide Step, Run, Alone;
    RunAlone(st, c, Continue, Goes(n), Step(st, c, Continue));
  }
}
