/** Task statuses, and how a CPU picks the next task of its list: the loop of kmt_context_switch. */
module Tasks {

  datatype Status = Ready | Running | Suspend

  /** The k-th index looked at, starting behind cur (-1 for the boot task) and going around n tasks. */
  function Around(cur: int, k: nat, n: nat): (ind: nat)
    requires -1 <= cur < n && k < n
    ensures ind < n
  {
    if cur + 1 + k < n then cur + 1 + k else cur + 1 + k - n
  }

  /** The k at which index ind is looked at. */
  function Offset(cur: int, ind: nat, n: nat): (k: nat)
    requires -1 <= cur < n && ind < n
    ensures k < n
  {
    if ind > cur then ind - cur - 1 else ind - cur - 1 + n
  }

  lemma EveryIndexIsLookedAt(cur: int, k: nat, ind: nat, n: nat)
    requires -1 <= cur < n && k < n && ind < n
    ensures Around(cur, k, n) == ind <==> k == Offset(cur, ind, n)
  {
  }

  /** The first _READY task of the scan from its k-th turn on, or -1. */
  function Search(st: seq<Status>, cur: int, k: nat): (ind: int)
    requires -1 <= cur < |st| && k <= |st|
    ensures -1 <= ind < |st|
    decreases |st| - k
  {
    if k == |st| then -1
    else if st[Around(cur, k, |st|)] == Ready then Around(cur, k, |st|)
    else Search(st, cur, k + 1)
  }

  /** The scan finds the closest _READY task behind the current one, and misses none. */
  lemma {:induction false} SearchFindsClosest(st: seq<Status>, cur: int, k: nat, p: nat)
    requires -1 <= cur < |st| && k <= |st| && p < |st|
    ensures var ind := Search(st, cur, k);
      && (ind >= 0 ==> st[ind] == Ready && k <= Offset(cur, ind, |st|))
      && (st[p] == Ready && k <= Offset(cur, p, |st|) ==> ind >= 0 && Offset(cur, ind, |st|) <= Offset(cur, p, |st|))
    decreases |st| - k
  {
    if k < |st| {
      EveryIndexIsLookedAt(cur, k, p, |st|);
      EveryIndexIsLookedAt(cur, k, Around(cur, k, |st|), |st|);
      if st[Around(cur, k, |st|)] != Ready {
        SearchFindsClosest(st, cur, k + 1, p);
      }
    }
  }

  /** What kmt_context_switch makes of the statuses of a CPU's tasks, of the current one (-1 for the
      boot task, which is in no list) and of its status. */
  function Switch(st: seq<Status>, cur: int, own: Status): (seq<Status>, int, Status)
    requires -1 <= cur < |st| && (cur >= 0 ==> st[cur] == own)
  {
    if own == Ready then (if cur >= 0 then st[cur := Running] else st, cur, Running)
    else
      var ind := Search(st, cur, 0);
      if ind < 0 then (st, cur, own)
      else ((if cur >= 0 && own == Running then st[cur := Ready] else st)[ind := Running], ind, Running)
  }

  ghost predicate OnlyCurrentRuns(st: seq<Status>, cur: int) {
    forall i :: 0 <= i < |st| && st[i] == Running ==> i == cur
  }

  /** Never two tasks running, and the task that goes on is never left _READY: the assertion of line 77.
      A current task that is _READY goes on itself; one that was running and makes way becomes _READY, one
      that waits does not; and no other task notices. */
  lemma SwitchKeepsOneRunning(st: seq<Status>, cur: int, own: Status)
    requires -1 <= cur < |st| && (cur >= 0 ==> st[cur] == own) && OnlyCurrentRuns(st, cur)
    ensures var (st', cur', own') := Switch(st, cur, own);
      && |st'| == |st| && -1 <= cur' < |st| && (cur' >= 0 ==> st'[cur'] == own') && own' != Ready
      && OnlyCurrentRuns(st', cur')
      && (forall i :: 0 <= i < |st| ==> (st'[i] == Suspend <==> st[i] == Suspend))
      && (cur' < 0 || own' == Suspend || own == Ready ==> cur' == cur)
      && (own == Ready ==> own' == Running)
      && (cur' != cur ==> own' == Running && st[cur'] == Ready && (cur >= 0 && own == Running ==> st'[cur] == Ready))
      && (cur' == cur && own != Ready ==> st' == st && own' == own && (forall i :: 0 <= i < |st| ==> st[i] != Ready))
      && (forall i :: 0 <= i < |st| && i != cur && i != cur' ==> st'[i] == st[i])
  {
    if own != Ready {
      forall i | 0 <= i < |st| ensures st[i] == Ready ==> Search(st, cur, 0) >= 0 {
        SearchFindsClosest(st, cur, 0, i);
      }
      if Search(st, cur, 0) >= 0 {
        SearchFindsClosest(st, cur, 0, Search(st, cur, 0));
      }
    }
  }

  // ----- nobody waits for long -----

  /** The status of the current task, boot being that of the boot task. */
  function Own(st: seq<Status>, cur: int, boot: Status): Status
    requires -1 <= cur < |st|
  {
    if cur >= 0 then st[cur] else boot
  }

  /** The current task after a switch. */
  function After(st: seq<Status>, cur: int, boot: Status): (next: int)
    requires -1 <= cur < |st|
    ensures -1 <= next < |st|
  {
    Switch(st, cur, Own(st, cur, boot)).1
  }

  /** The statuses before each switch, and who is current in between: task p stays _READY until it is
      chosen, and no switch takes the early return. The other statuses may change in any way. */
  ghost predicate KeepsWaiting(befores: seq<seq<Status>>, cur: int, boot: Status, p: nat, n: nat)
    decreases |befores|
  {
    && -1 <= cur < n && p < n
    && (befores == [] || cur == p ||
        (|befores[0]| == n && befores[0][p] == Ready && Own(befores[0], cur, boot) != Ready &&
         KeepsWaiting(befores[1..], After(befores[0], cur, boot), boot, p, n)))
  }

  ghost predicate IsChosen(befores: seq<seq<Status>>, cur: int, boot: Status, p: nat, n: nat)
    requires KeepsWaiting(befores, cur, boot, p, n)
    decreases |befores|
  {
    cur == p || (befores != [] && IsChosen(befores[1..], After(befores[0], cur, boot), boot, p, n))
  }

  /** A switch, from the boot task too, chooses p or a task strictly between the current one and p. */
  lemma SwitchComesCloser(st: seq<Status>, cur: int, boot: Status, p: nat)
    requires -1 <= cur < |st| && p < |st| && cur != p && st[p] == Ready && Own(st, cur, boot) != Ready
    ensures var next := After(st, cur, boot);
      && next >= 0 && st[next] == Ready && Switch(st, cur, Own(st, cur, boot)).2 == Running
      && (next == p || Offset(next, p, |st|) < Offset(cur, p, |st|))
  {
    SearchFindsClosest(st, cur, 0, p);
  }

  /** A task that stays _READY is chosen within as many switches as it lies behind the current task:
      at most n - 1 for n tasks, at most n for the boot task. */
  lemma {:induction false} ReadyIsChosen(befores: seq<seq<Status>>, cur: int, boot: Status, p: nat, n: nat)
    requires KeepsWaiting(befores, cur, boot, p, n) && cur != p
    ensures Offset(cur, p, n) < if cur >= 0 then n - 1 else n
    ensures |befores| > Offset(cur, p, n) ==> IsChosen(befores, cur, boot, p, n)
    decreases |befores|
  {
    if |befores| > Offset(cur, p, n) {
      SwitchComesCloser(befores[0], cur, boot, p);
      var next := After(befores[0], cur, boot);
      if next != p {
        ReadyIsChosen(befores[1..], next, boot, p, n);
      }
    }
  }
}
