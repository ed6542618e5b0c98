/** spinlock.c: spinlocks with nested disabling of interrupts, on several CPUs interleaved access by access. */
module Spinlock {

  /** A lock; owner is the index of a CPU, or -1 for NULL. */
  datatype Lock = Lock(locked: bool, owner: int)

  datatype Reason = Deadlock(l: nat) | NotHeld(l: nat) | InterruptsOn | Unbalanced

  /** Where a CPU is. In my_spinlock: before holding reads locked; before it reads cpu; at the
      exchange; before cpu is written. In my_spinunlock: before holding reads cpu; before cpu is
      cleared; at the exchange; before popcli. In holding on its own: before it reads cpu. */
  datatype Pc =
    | Idle
    | Enter(l: nat) | EnterOwner(l: nat) | Spin(l: nat) | Own(l: nat)
    | LeaveOwner(l: nat) | Clear(l: nat) | Release(l: nat) | Pop
    | AskOwner(l: nat)
    | Halted(why: Reason)

  /** A CPU: its interrupt flag, the fields of struct mycpu, where it is, the locks its exchanges
      have won and not given back, and what holding last told it. */
  datatype Cpu = Cpu(flag: bool, ncli: int, intena: bool, pc: Pc, held: set<nat>, answer: bool)

  datatype State = State(locks: seq<Lock>, cpus: seq<Cpu>)

  /** pushcli: lines 26-35. */
  function PushCli(u: Cpu): Cpu {
    u.(flag := false, intena := if u.ncli == 0 then u.flag else u.intena, ncli := u.ncli + 1)
  }

  /** popcli, lines 37-45, and then on to p. */
  function PopCli(u: Cpu, p: Pc): Cpu {
    if u.flag then u.(pc := Halted(InterruptsOn))
    else if u.ncli - 1 < 0 then u.(ncli := u.ncli - 1, pc := Halted(Unbalanced))
    else u.(ncli := u.ncli - 1, flag := u.ncli - 1 == 0 && u.intena, pc := p)
  }

  /** What a CPU does next: call one of the functions, go on inside, or set its flag outside of them. */
  datatype Action = Acquire(l: nat) | GiveBack(l: nat) | Ask(l: nat) | Continue | SetFlag(on: bool)

  /** One step of CPU c, with at most one access to a lock. */
  function Step(st: State, c: nat, a: Action): State
    requires c < |st.cpus|
  {
    var u := st.cpus[c];
    match a
    case Acquire(l) =>
      if u.pc.Idle? && l < |st.locks| then Became(st, c, PushCli(u).(pc := Enter(l))) else st
    case GiveBack(l) =>
      if u.pc.Idle? && l < |st.locks| then
        if st.locks[l].locked then Became(st, c, PushCli(u).(pc := LeaveOwner(l)))
        else Became(st, c, PopCli(PushCli(u), Halted(NotHeld(l))))
      else st
    case Ask(l) =>
      if u.pc.Idle? && l < |st.locks| then
        if st.locks[l].locked then Became(st, c, PushCli(u).(pc := AskOwner(l)))
        else Became(st, c, PopCli(PushCli(u), Idle).(answer := false))
      else st
    case SetFlag(on) =>
      if u.pc.Idle? && u.ncli == 0 then Became(st, c, u.(flag := on)) else st
    case Continue => Continued(st, c, u)
  }

  function Became(st: State, c: nat, u: Cpu): State
    requires c < |st.cpus|
  {
    st.(cpus := st.cpus[c := u])
  }

  function WithLock(st: State, l: nat, k: Lock): State
    requires l < |st.locks|
  {
    st.(locks := st.locks[l := k])
  }

  function Continued(st: State, c: nat, u: Cpu): State
    requires c < |st.cpus|
  {
    if u.pc.Idle? || u.pc.Halted? then st
    else if u.pc.Pop? then Became(st, c, PopCli(u, Idle))
    else if u.pc.l >= |st.locks| then st
    else
      var l := u.pc.l;
      var k := st.locks[l];
      match u.pc
      case Enter(_) =>
        if k.locked then Became(st, c, PushCli(u).(pc := EnterOwner(l)))
        else Became(st, c, PopCli(PushCli(u), Spin(l)))
      case EnterOwner(_) => Became(st, c, PopCli(u, if k.owner == c then Halted(Deadlock(l)) else Spin(l)))
      case Spin(_) =>
        if k.locked then st
        else WithLock(Became(st, c, u.(pc := Own(l), held := u.held + {l})), l, k.(locked := true))
      case Own(_) => WithLock(Became(st, c, u.(pc := Idle)), l, k.(owner := c))
      case LeaveOwner(_) => Became(st, c, PopCli(u, if k.owner == c then Clear(l) else Halted(NotHeld(l))))
      case Clear(_) => WithLock(Became(st, c, u.(pc := Release(l))), l, k.(owner := -1))
      case Release(_) => WithLock(Became(st, c, u.(pc := Pop, held := u.held - {l})), l, k.(locked := false))
      case AskOwner(_) => Became(st, c, PopCli(u, Idle).(answer := k.owner == c))
  }

  // ----- the invariant -----

  /** Levels of pushcli on top of one for each lock held. */
  function Extra(p: Pc): nat {
    match p
    case Enter(_) => 1
    case EnterOwner(_) => 2
    case Spin(_) => 1
    case LeaveOwner(_) => 1
    case Pop => 1
    case AskOwner(_) => 1
    case _ => 0
  }

  /** A CPU on its own: interrupts are off while ncli counts anything, and it counts the locks. Who is
      about to give a lock back holds it, who is about to win one does not; and a CPU only panics over
      a lock it already has, or one it does not have. */
  predicate CpuOk(u: Cpu) {
    match u.pc
    case Halted(Deadlock(l)) => l in u.held
    case Halted(NotHeld(l)) => l !in u.held
    case Halted(_) => false
    case _ =>
      && u.ncli == |u.held| + Extra(u.pc) && (u.ncli > 0 ==> !u.flag)
      && (u.pc.Spin? ==> u.pc.l !in u.held)
      && (u.pc.Own? || u.pc.Clear? || u.pc.Release? ==> u.pc.l in u.held)
  }

  /** CPU c has lock l, and cpu says so. */
  predicate Names(u: Cpu, l: nat) {
    l in u.held && u.pc != Own(l) && u.pc != Release(l)
  }

  /** One lock: locked means somebody has it, and cpu names that one, but for the moment between the
      exchange and the write to cpu. */
  ghost predicate LockOk(cpus: seq<Cpu>, k: Lock, l: nat) {
    && -1 <= k.owner < |cpus|
    && (forall c :: 0 <= c < |cpus| && l in cpus[c].held ==> k.locked)
    && (k.locked ==> exists c :: 0 <= c < |cpus| && l in cpus[c].held)
    && (forall c, d :: 0 <= c < |cpus| && 0 <= d < |cpus| && l in cpus[c].held && l in cpus[d].held ==> c == d)
    && (forall c :: 0 <= c < |cpus| ==> (k.owner == c <==> Names(cpus[c], l)))
  }

  /** A CPU inside one of the functions is there for a lock there is. */
  predicate InRange(p: Pc, n: nat) {
    p.Idle? || p.Pop? || p.Halted? || p.l < n
  }

  ghost predicate Inv(st: State) {
    && (forall c :: 0 <= c < |st.cpus| ==> CpuOk(st.cpus[c]))
    && (forall c :: 0 <= c < |st.cpus| ==> InRange(st.cpus[c].pc, |st.locks|))
    && (forall l :: 0 <= l < |st.locks| ==> LockOk(st.cpus, st.locks[l], l))
    && (forall c, l :: 0 <= c < |st.cpus| && l in st.cpus[c].held ==> l < |st.locks|)
  }

  /** All locks free and all CPUs outside: the state of lines 4-19. */
  ghost predicate Initial(st: State) {
    && (forall l :: 0 <= l < |st.locks| ==> st.locks[l] == Lock(false, -1))
    && (forall c :: 0 <= c < |st.cpus| ==> st.cpus[c].pc == Idle && st.cpus[c].ncli == 0 && st.cpus[c].held == {})
  }

  lemma InitialInv(st: State)
    requires Initial(st)
    ensures Inv(st)
  {
  }

  /** A lock that the step of CPU c is not about sees no difference. */
  lemma OtherLock(cpus: seq<Cpu>, c: nat, u: Cpu, k: Lock, l: nat)
    requires c < |cpus| && LockOk(cpus, k, l)
    requires l in u.held <==> l in cpus[c].held
    requires Names(u, l) <==> Names(cpus[c], l)
    ensures LockOk(cpus[c := u], k, l)
  {
    var cpus' := cpus[c := u];
    if k.locked {
      var d :| 0 <= d < |cpus| && l in cpus[d].held;
      assert l in cpus'[d].held;
    }
  }

  /** Steps that change nothing but where a CPU is and its interrupts. */
  lemma CpuStep(st: State, c: nat, u: Cpu)
    requires c < |st.cpus| && Inv(st) && CpuOk(u) && InRange(u.pc, |st.locks|) && u.held == st.cpus[c].held
    requires forall l :: 0 <= l < |st.locks| ==> (Names(u, l) <==> Names(st.cpus[c], l))
    ensures Inv(Became(st, c, u))
  {
    forall l | 0 <= l < |st.locks| ensures LockOk(st.cpus[c := u], st.locks[l], l) {
      OtherLock(st.cpus, c, u, st.locks[l], l);
    }
  }

  /** Steps that change a lock. */
  lemma LockStep(st: State, c: nat, u: Cpu, l: nat, k: Lock)
    requires c < |st.cpus| && l < |st.locks| && Inv(st) && CpuOk(u) && InRange(u.pc, |st.locks|)
    requires u.held == st.cpus[c].held || u.held == st.cpus[c].held + {l} || u.held == st.cpus[c].held - {l}
    requires LockOk(st.cpus[c := u], k, l)
    requires forall i :: 0 <= i < |st.locks| && i != l ==> (Names(u, i) <==> Names(st.cpus[c], i))
    ensures Inv(WithLock(Became(st, c, u), l, k))
  {
    forall i | 0 <= i < |st.locks| && i != l ensures LockOk(st.cpus[c := u], st.locks[i], i) {
      OtherLock(st.cpus, c, u, st.locks[i], i);
    }
  }

  /** The exchange that wins the lock. */
  lemma WinKeeps(st: State, c: nat, l: nat)
    requires Inv(st) && c < |st.cpus| && l < |st.locks| && st.cpus[c].pc == Spin(l) && !st.locks[l].locked
    ensures Inv(Continued(st, c, st.cpus[c]))
  {
    var u := st.cpus[c];
    var u' := u.(pc := Own(l), held := u.held + {l});
    assert l in st.cpus[c := u'][c].held;
    LockStep(st, c, u', l, st.locks[l].(locked := true));
  }

  /** The writes to cpu, by the owner. */
  lemma WriteOwnerKeeps(st: State, c: nat, l: nat)
    requires Inv(st) && c < |st.cpus| && l < |st.locks| && (st.cpus[c].pc == Own(l) || st.cpus[c].pc == Clear(l))
    ensures Inv(Continued(st, c, st.cpus[c]))
  {
    var u, k := st.cpus[c], st.locks[l];
    assert LockOk(st.cpus, k, l);
    var u' := u.(pc := if u.pc.Own? then Idle else Release(l));
    var k' := k.(owner := if u.pc.Own? then c else -1);
    var cpus' := st.cpus[c := u'];
    assert l in cpus'[c].held;
    forall d | 0 <= d < |cpus'| ensures k'.owner == d <==> Names(cpus'[d], l) {
      assert d != c ==> l !in st.cpus[d].held;
    }
    assert LockOk(cpus', k', l);
    LockStep(st, c, u', l, k');
  }

  /** The exchange that gives it back. */
  lemma ReleaseKeeps(st: State, c: nat, l: nat)
    requires Inv(st) && c < |st.cpus| && l < |st.locks| && st.cpus[c].pc == Release(l)
    ensures Inv(Continued(st, c, st.cpus[c]))
  {
    var u := st.cpus[c];
    LockStep(st, c, u.(pc := Pop, held := u.held - {l}), l, st.locks[l].(locked := false));
  }

  predicate TouchesLock(st: State, c: nat, a: Action)
    requires c < |st.cpus|
  {
    var p := st.cpus[c].pc;
    a.Continue? && (p.Spin? || p.Own? || p.Clear? || p.Release?) && p.l < |st.locks|
  }

  /** Only where the CPU is has changed, and its interrupts. */
  predicate MovedOnly(st: State, c: nat, st': State)
    requires c < |st.cpus|
  {
    && |st'.cpus| == |st.cpus| && st' == Became(st, c, st'.cpus[c])
    && st'.cpus[c].held == st.cpus[c].held && CpuOk(st'.cpus[c]) && InRange(st'.cpus[c].pc, |st.locks|)
    && forall l :: 0 <= l < |st.locks| ==> (Names(st'.cpus[c], l) <==> Names(st.cpus[c], l))
  }

  lemma CallIsFine(st: State, c: nat, a: Action)
    requires c < |st.cpus| && CpuOk(st.cpus[c]) && InRange(st.cpus[c].pc, |st.locks|) && !a.Continue?
    requires (a.GiveBack? || a.Ask?) && a.l < |st.locks| ==> LockOk(st.cpus, st.locks[a.l], a.l)
    ensures MovedOnly(st, c, Step(st, c, a))
  {
    hide LockOk;
    if (a.GiveBack? || a.Ask?) && a.l < |st.locks| {
      LockSeenBy(st, c, a.l);
    }
  }

  /** What the lock of CPU c's step tells it. */
  lemma LockSeenBy(st: State, c: nat, l: nat)
    requires c < |st.cpus| && l < |st.locks| && LockOk(st.cpus, st.locks[l], l)
    ensures l in st.cpus[c].held ==> st.locks[l].locked
    ensures st.locks[l].owner == c <==> Names(st.cpus[c], l)
  {
  }

  lemma CheckIsFine(st: State, c: nat)
    requires c < |st.cpus| && CpuOk(st.cpus[c]) && InRange(st.cpus[c].pc, |st.locks|) && !TouchesLock(st, c, Continue)
    requires var p := st.cpus[c].pc;
      !p.Idle? && !p.Halted? && !p.Pop? ==> LockOk(st.cpus, st.locks[p.l], p.l)
    ensures MovedOnly(st, c, Step(st, c, Continue))
  {
    hide LockOk;
    var p := st.cpus[c].pc;
    if !p.Idle? && !p.Halted? && !p.Pop? {
      LockSeenBy(st, c, p.l);
    }
  }

  /** Away from the exchanges and the writes to cpu, only where the CPU is changes, and its interrupts. */
  lemma LocalStepIsFine(st: State, c: nat, a: Action)
    requires Inv(st) && c < |st.cpus| && !TouchesLock(st, c, a)
    ensures MovedOnly(st, c, Step(st, c, a))
  {
    hide Step, CpuOk, LockOk;
    if a.Continue? {
      CheckIsFine(st, c);
    } else {
      CallIsFine(st, c, a);
    }
  }

  lemma LocalStepKeeps(st: State, c: nat, a: Action)
    requires Inv(st) && c < |st.cpus| && !TouchesLock(st, c, a)
    ensures Inv(Step(st, c, a)) && |Step(st, c, a).cpus| == |st.cpus|
  {
    LocalStepIsFine(st, c, a);
    hide Step, CpuOk, LockOk;
    CpuStep(st, c, Step(st, c, a).cpus[c]);
  }

  lemma StepKeepsInv(st: State, c: nat, a: Action)
    requires Inv(st) && c < |st.cpus|
    ensures Inv(Step(st, c, a)) && |Step(st, c, a).cpus| == |st.cpus|
  {
    if !TouchesLock(st, c, a) {
      LocalStepKeeps(st, c, a);
    } else if st.cpus[c].pc.Own? || st.cpus[c].pc.Clear? {
      WriteOwnerKeeps(st, c, st.cpus[c].pc.l);
    } else if st.cpus[c].pc.Release? {
      ReleaseKeeps(st, c, st.cpus[c].pc.l);
    } else if !st.locks[st.cpus[c].pc.l].locked {
      WinKeeps(st, c, st.cpus[c].pc.l);
    }
  }

  // ----- what holds in every run -----

  /** Which CPU makes its next step, and which. */
  datatype Move = Move(c: nat, a: Action)

  function Run(st: State, moves: seq<Move>): State
    decreases |moves|
  {
    if moves == [] then st
    else Run(if moves[0].c < |st.cpus| then Step(st, moves[0].c, moves[0].a) else st, moves[1..])
  }

  lemma {:induction false} RunKeepsInv(st: State, moves: seq<Move>)
    requires Inv(st)
    ensures Inv(Run(st, moves)) && |Run(st, moves).cpus| == |st.cpus|
    decreases |moves|
  {
    if moves != [] {
      var next := if moves[0].c < |st.cpus| then Step(st, moves[0].c, moves[0].a) else st;
      if moves[0].c < |st.cpus| {
        StepKeepsInv(st, moves[0].c, moves[0].a);
      }
      RunKeepsInv(next, moves[1..]);
    }
  }

  /** Mutual exclusion, and what the fields of a lock say: cpu names the owner or nobody, nobody only
      around the exchanges, and locked is clear exactly for a lock nobody has. */
  lemma MutualExclusion(st: State, moves: seq<Move>, l: nat, c: nat, d: nat)
    requires Initial(st) && l < |Run(st, moves).locks| && c < |st.cpus| && d < |st.cpus|
    ensures var end := Run(st, moves);
      && |end.cpus| == |st.cpus|
      && (l in end.cpus[c].held && l in end.cpus[d].held ==> c == d)
      && (l in end.cpus[c].held ==> end.locks[l].locked)
      && (end.locks[l].locked ==> exists e :: 0 <= e < |end.cpus| && l in end.cpus[e].held)
      && (end.locks[l].owner == c ==> l in end.cpus[c].held)
      && (l in end.cpus[c].held && !end.cpus[c].pc.Own? && !end.cpus[c].pc.Release? ==> end.locks[l].owner == c)
  {
    InitialInv(st);
    RunKeepsInv(st, moves);
    assert LockOk(Run(st, moves).cpus, Run(st, moves).locks[l], l);
  }

  /** Interrupts stay off while ncli > 0, ncli counts the locks held outside of the functions, popcli
      never panics, and the other two panics are exactly about a lock already held or not held. */
  lemma InterruptsAndPanics(st: State, moves: seq<Move>, c: nat)
    requires Initial(st) && c < |st.cpus|
    ensures |Run(st, moves).cpus| == |st.cpus|
    ensures var u := Run(st, moves).cpus[c];
      && (u.pc.Idle? ==> u.ncli == |u.held|)
      && (u.ncli > 0 && !u.pc.Halted? ==> !u.flag)
      && (u.pc.Halted? ==> u.pc.why.Deadlock? || u.pc.why.NotHeld?)
      && (u.pc.Halted? && u.pc.why.Deadlock? ==> u.pc.why.l in u.held)
      && (u.pc.Halted? && u.pc.why.NotHeld? ==> u.pc.why.l !in u.held)
  {
    InitialInv(st);
    RunKeepsInv(st, moves);
    assert CpuOk(Run(st, moves).cpus[c]);
  }

  /** What holding tells is whether the CPU that asks has the lock, whatever the others do meanwhile. */
  lemma HoldingIsOwnership(st: State, c: nat, a: Action)
    requires Inv(st) && c < |st.cpus|
    requires (a.Ask? && st.cpus[c].pc.Idle? && a.l < |st.locks|) ||
      (a.Continue? && st.cpus[c].pc.AskOwner?)
    ensures var l, u' := if a.Ask? then a.l else st.cpus[c].pc.l, Step(st, c, a).cpus[c];
      u'.pc.Idle? ==> u'.answer == (l in st.cpus[c].held) && u'.held == st.cpus[c].held && u'.ncli == st.cpus[c].ncli - Extra(st.cpus[c].pc)
  {
    var l := if a.Ask? then a.l else st.cpus[c].pc.l;
    assert LockOk(st.cpus, st.locks[l], l);
    assert CpuOk(st.cpus[c]);
    assert CpuOk(Step(st, c, a).cpus[c]) by { StepKeepsInv(st, c, a); }
  }

  /** my_spinlock takes a lock that the CPU does not have, and panics over one it has, so that it
      never waits for itself; my_spinunlock goes the other way around. */
  lemma ChecksDecide(st: State, c: nat)
    requires Inv(st) && c < |st.cpus| && !st.cpus[c].pc.Idle? && !st.cpus[c].pc.Halted? && !st.cpus[c].pc.Pop?
    ensures var l, u, p' := st.cpus[c].pc.l, st.cpus[c], Step(st, c, Continue).cpus[c].pc;
      && (u.pc.EnterOwner? ==> p' == if l in u.held then Halted(Deadlock(l)) else Spin(l))
      && (u.pc.LeaveOwner? ==> p' == if l in u.held then Clear(l) else Halted(NotHeld(l)))
      && (u.pc.Enter? ==> p' == EnterOwner(l) || (p' == Spin(l) && l !in u.held))
  {
    assert LockOk(st.cpus, st.locks[st.cpus[c].pc.l], st.cpus[c].pc.l);
    assert CpuOk(st.cpus[c]);
  }

  /** Along the run, CPU c stays under pushcli until the very last state. */
  predicate Nested(st: State, moves: seq<Move>, c: nat)
    requires c < |st.cpus|
    decreases |moves|
  {
    moves == [] ||
    (st.cpus[c].ncli > 0 && !st.cpus[c].pc.Halted? &&
     var next := if moves[0].c < |st.cpus| then Step(st, moves[0].c, moves[0].a) else st;
     c < |next.cpus| && Nested(next, moves[1..], c))
  }

  /** However acquires and releases nest in between, of whichever locks: the flag comes back exactly
      when ncli is zero again, and as it was saved. */
  lemma {:induction false} SavedFlagReturns(st: State, moves: seq<Move>, c: nat)
    requires Inv(st) && c < |st.cpus| && st.cpus[c].ncli > 0 && Nested(st, moves, c) && moves != []
    ensures |Run(st, moves).cpus| == |st.cpus|
    ensures var u := Run(st, moves).cpus[c];
      u.intena == st.cpus[c].intena && (!u.pc.Halted? ==> u.flag == (u.ncli == 0 && u.intena))
    decreases |moves|
  {
    var next := if moves[0].c < |st.cpus| then Step(st, moves[0].c, moves[0].a) else st;
    OneStepKeepsIntena(st, moves[0], c);
    if moves[1..] != [] {
      SavedFlagReturns(next, moves[1..], c);
    }
  }

  lemma OneStepKeepsIntena(st: State, m: Move, c: nat)
    requires Inv(st) && c < |st.cpus| && st.cpus[c].ncli > 0 && !st.cpus[c].pc.Halted?
    ensures var next := if m.c < |st.cpus| then Step(st, m.c, m.a) else st;
      && Inv(next) && |next.cpus| == |st.cpus| && next.cpus[c].intena == st.cpus[c].intena
      && (!next.cpus[c].pc.Halted? ==> next.cpus[c].flag == (next.cpus[c].ncli == 0 && next.cpus[c].intena))
  {
    assert CpuOk(st.cpus[c]);
    if m.c < |st.cpus| {
      StepKeepsInv(st, m.c, m.a);
      if m.c == c {
        OwnStepKeepsIntena(st, m.a, c);
      } else {
        OthersKeepTheirs(st, m, c);
      }
    }
  }

  /** A step of one CPU leaves the others as they are. */
  lemma OthersKeepTheirs(st: State, m: Move, c: nat)
    requires m.c < |st.cpus| && c < |st.cpus| && m.c != c
    ensures |Step(st, m.c, m.a).cpus| == |st.cpus| && Step(st, m.c, m.a).cpus[c] == st.cpus[c]
  {
  }

  lemma OwnStepKeepsIntena(st: State, a: Action, c: nat)
    requires c < |st.cpus| && CpuOk(st.cpus[c]) && st.cpus[c].ncli > 0 && !st.cpus[c].pc.Halted?
    ensures |Step(st, c, a).cpus| == |st.cpus|
    ensures var u' := Step(st, c, a).cpus[c];
      u'.intena == st.cpus[c].intena && (!u'.pc.Halted? ==> u'.flag == (u'.ncli == 0 && u'.intena))
  {
  }

  /** From the call that takes the first lock to the release of the last one, the interrupt flag ends
      up as it was before the call. */
  lemma FlagIsRestored(st: State, l: nat, c: nat, moves: seq<Move>)
    requires Inv(st) && c < |st.cpus| && l < |st.locks| && st.cpus[c].pc.Idle? && st.cpus[c].ncli == 0
    requires moves != [] && Nested(Step(st, c, Acquire(l)), moves, c)
    ensures var end := Run(Step(st, c, Acquire(l)), moves);
      && |end.cpus| == |st.cpus|
      && (end.cpus[c].ncli == 0 && !end.cpus[c].pc.Halted? ==> end.cpus[c].flag == st.cpus[c].flag)
      && (end.cpus[c].ncli > 0 && !end.cpus[c].pc.Halted? ==> !end.cpus[c].flag)
  {
    StepKeepsInv(st, c, Acquire(l));
    SavedFlagReturns(Step(st, c, Acquire(l)), moves, c);
  }
}
