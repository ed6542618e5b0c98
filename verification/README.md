# Verification of the algorithmic cores

These Dafny files model eight self-contained cores of the repository and prove what each is for. The
code's own form is kept: what it updates in place is updated in place here (linked nodes, arrays, files
with a cursor, tables), loops are loops, and each such method is proved against a function or predicate
on plain values, about which the lemmas then speak.

- **Rectangle packer** (`Skyline`, `Packing`, `RectPack`): the skyline packer with its two linked lists.
  Packed rectangles never overlap, over all runs and for both heuristics, and every one placed is
  reported; the search is bottom-left over all columns; best fit wastes least, since the waste it is told
  is exact in every run; a refusal means no room or no node. The header promises that quantised widths never run out of nodes: that holds
  with a node per column, and fails under the default heuristic for every target of height 2 or more
  with fewer.
- **Key-value store** (`KvSlots`, `KvBytes`, `KvJournal`, `KvCrash`, `Kvdb`): the file as bytes with a cursor.
  Runs of puts refine a map, and recovery restores that map from every file that a history of puts can
  leave: between puts, inside an overwrite, after a tombstone, and in a replay that was itself cut short.
- **Semaphores and scheduling** (`Ring`, `Tasks`, `Semaphores`, `SemProgress`, `NoIdle`, `SemLocked`,
  `Scheduler`): an interleaving of tasks and CPUs with one program counter per task and one mode per CPU.
  No wakeup is lost, in particular not between `_SUSPEND`, the unlock and the yield; the value counts
  signals less waits; the first asleep is the first woken; no CPU gets stuck, and a ready task is chosen in
  time. All this takes a task that never waits on each CPU, and `NoIdle` shows that it cannot do without.
- **Spinlocks** (`Spinlock`, `SpinProgress`): access by access, with nested interrupt disabling. Safety of
  every interleaving, and a bound on the steps that each function takes.
- **64-bit division from 32-bit words** (`Words`, `Division`): every branch of `__udivmoddi4`, and the
  signed wrappers.
- **Merge sort of a linked list** (`ListSort`): in place and bottom up.
- **Q16.16 arithmetic and text** (`Fix16`, `FixDiv`, `FixSqrt`, `FixStr`, `FixText`): products, quotients, roots and
  decimals against exact arithmetic. Variables of type `Word` hold 32 bits, so an assignment to one is
  also a proof that nothing overflows; where the code wraps, the model says so with `%`.
- **Directories** (`Directory`, `DirectoryNames`, `DirectoryRuns`): names, slots and link counts, and what each
  call does to every path.

Where the code does not do what it is meant to, the model does what the code does. A lemma then gives
the exact condition under which the promise holds (`Fix16.MulIsRightIff`, `FixDiv.LargeDivisor`,
`FixSqrt.WithinOne`, `FixText.ParseMeans`, `Directory.KeepsIffHarmless`, `KvJournal.FirstIsParsedIff`,
`KvJournal.TornIsIgnoredIff`, `NoIdle.IdleIsExact`, `Division.DivDi3`), and others an input or a run for
which it does not (`FixDiv.KickStartCanShow`, `FixSqrt.DeficitCanShow`, `Packing.FewerNodesRunOut`, and
the runs of `DirectoryRuns`).

`dafny verify dfyconfig.toml` checks the whole project.

## Model

| member | source | states |
|---|---|---|
| Skyline.ScanFindsPeak | abstract-machine/libs/imgui/include/stb_rect_pack.h:277-325 | the scan started at the segment holding x0 returns the highest column under the window, and as waste exactly the area below that height wherever only the last segment may lie on the ground |
| Skyline.ScanOfGround | abstract-machine/libs/imgui/include/stb_rect_pack.h:301-321 | a window on the ground wastes nothing, although the scan starts left of it |
| Packing.SpliceIsSkyline | abstract-machine/libs/imgui/include/stb_rect_pack.h:443-478 | the splice leaves a list strictly increasing in x from 0 to the sentinel at the width |
| Packing.SpliceRaises | abstract-machine/libs/imgui/include/stb_rect_pack.h:443-478 | the columns from the rectangle to the end of its segment rise to its top, and no other column changes its height |
| Packing.SpliceKeepsGround | abstract-machine/libs/imgui/include/stb_rect_pack.h:443-478 | placed on raised ground or at the start of the ground, a rectangle leaves the ground last |
| Packing.PlacementCovers | abstract-machine/libs/imgui/include/stb_rect_pack.h:428-508 | a box resting on the peak of a window as wide as itself is disjoint from all earlier boxes and inside the target, and every column stays at least as high as every box over it |
| Packing.LowestIsBottomLeft | abstract-machine/libs/imgui/include/stb_rect_pack.h:344-370 | searching only windows that start on a node finds, over all columns of the target, the lowest and then leftmost position; none exactly when the window is wider than the target |
| Packing.AlignedIsLeast | abstract-machine/libs/imgui/include/stb_rect_pack.h:338-340 | the width is rounded up to the least multiple of the alignment that is wide enough |
| Packing.BestFitIsLowest | abstract-machine/libs/imgui/include/stb_rect_pack.h:355-420 | best fit also finds a lowest position over all columns, and fails only where nothing has room |
| Packing.BestFitIsLowestAt | abstract-machine/libs/imgui/include/stb_rect_pack.h:355-420 | so is the position of best fit, and there is one exactly if something has room |
| Packing.BestFitRests | abstract-machine/libs/imgui/include/stb_rect_pack.h:389-425 | the best-fit position is one where the rectangle rests on its peak, fits under the height and lies inside the width; on the ground it is the left end of it |
| Packing.GroundIsTakenFirst | abstract-machine/libs/imgui/include/stb_rect_pack.h:406-416 | no right-aligned window on the ground beats the left-aligned one |
| Packing.WasteIsExact | abstract-machine/libs/imgui/include/stb_rect_pack.h:348-406 | in every state a run can reach, the scan of any window reports its peak and exactly the area wasted under it |
| Packing.BestFitWastesLeast | abstract-machine/libs/imgui/include/stb_rect_pack.h:355-420 | of all windows that start or end on a node and fit, best fit takes a lowest one, and of those one with the least area wasted |
| Packing.PackIsGood | abstract-machine/libs/imgui/include/stb_rect_pack.h:428-508 | placing any non-empty rectangle keeps the boxes disjoint, inside and covered, and active plus free nodes at num_nodes + 2 |
| Packing.PackIsComplete | abstract-machine/libs/imgui/include/stb_rect_pack.h:434-441 | a rectangle is refused exactly when no position has room for its aligned window or no node is free; otherwise it goes to the bottom-left position, and earlier boxes stay |
| Packing.OutcomeTurns | abstract-machine/libs/imgui/include/stb_rect_pack.h:428-508 | what a call does with a lowest resting position: exactly if a node is free and some position has room it places one box there and lowers no column, and otherwise nothing changes |
| Packing.ChoiceIsLowest | abstract-machine/libs/imgui/include/stb_rect_pack.h:344-370 | the window that bottom-left chooses is such a position, and too high only if nothing has room |
| Packing.Run | abstract-machine/libs/imgui/include/stb_rect_pack.h:545-580 | after every run of placements on an initialised target the whole invariant holds: boxes disjoint and inside, skyline well formed, nodes conserved |
| Packing.NodePerColumnSuffices | abstract-machine/libs/imgui/include/stb_rect_pack.h:128-130 | with num_nodes >= width no run of non-empty rectangles uses up the free list |
| Packing.FewerNodesRunOut | abstract-machine/libs/imgui/include/stb_rect_pack.h:132-133 | with fewer nodes and a height of at least 2 the default quantisation does not keep the promise of these lines: a run of unit squares empties the free list, and a square that has room is refused (the search uses the aligned width, the splice the raw one) |
| Packing.UnitsUseUpNodes | abstract-machine/libs/imgui/include/stb_rect_pack.h:340-342 | each unit square takes a node although the search reserved a quantised width for it |
| RectPack.Context.InitTarget | abstract-machine/libs/imgui/include/stb_rect_pack.h:244-274 | the lists of free and active nodes, the sentinel, the default heuristic and the rounded-up alignment; the empty target satisfies the invariant |
| RectPack.Context.SetupAllowOutOfMem | abstract-machine/libs/imgui/include/stb_rect_pack.h:224-242 | alignment 1, or the quotient of width and num_nodes rounded up |
| RectPack.Context.FindMinY | abstract-machine/libs/imgui/include/stb_rect_pack.h:277-325 | the loop over nodes in memory returns the peak of the window and the waste of the scan |
| RectPack.Context.BestOnNodes | abstract-machine/libs/imgui/include/stb_rect_pack.h:344-370 | the first search loop in memory: the first lowest node for bottom-left, the best candidate among left-aligned positions for best fit |
| RectPack.Context.BestBeforeNodes | abstract-machine/libs/imgui/include/stb_rect_pack.h:389-420 | the right-aligned positions of best fit: the result is at least as good as every admissible one of both kinds |
| RectPack.Context.FindBestPos | abstract-machine/libs/imgui/include/stb_rect_pack.h:333-426 | the whole search: bottom-left or best-fit position for the width rounded up to the alignment |
| RectPack.Context.LinkIn | abstract-machine/libs/imgui/include/stb_rect_pack.h:454-462 | the new node goes behind the node that starts left of it, or in its place |
| RectPack.Context.ReleaseCovered | abstract-machine/libs/imgui/include/stb_rect_pack.h:466-472 | exactly the nodes swallowed by the rectangle move from the active to the free list |
| RectPack.Context.SpliceIn | abstract-machine/libs/imgui/include/stb_rect_pack.h:443-478 | the pointer splice in place is the splice of the skyline, keeps both lists repetition-free and disjoint, and conserves nodes |
| RectPack.Context.PackRectangle | abstract-machine/libs/imgui/include/stb_rect_pack.h:428-508 | pack_rectangle in place: refused exactly without a position, without height or without a free node, then nothing changes; otherwise one box is added where the search said |
| RectPack.Context.PlaceOne | abstract-machine/libs/imgui/include/stb_rect_pack.h:560-571 | one turn of the loop: the rectangle gets the corner of the box that is placed, or the maximum if none is; it is refused only if no position has room or no node is free |
| RectPack.Context.PlaceAll | abstract-machine/libs/imgui/include/stb_rect_pack.h:560-572 | the loop over rectangles: there is a state before each turn, and each turn places its rectangle, refuses it for want of room or nodes, or skips it because it is empty; sizes and ids stay |
| RectPack.SortByTagIsInverse | abstract-machine/libs/imgui/include/stb_rect_pack.h:532-537 | whatever order the first sort leaves, sorting by the stored indices undoes it |
| RectPack.ReportsAreTruthful | abstract-machine/libs/imgui/include/stb_rect_pack.h:557-579 | back in their places, packed rectangles are disjoint from each other and from earlier calls, and inside the target |
| RectPack.TrailReports | abstract-machine/libs/imgui/include/stb_rect_pack.h:560-572 | every box that the loop places belongs to one of the rectangles it has gone through, which gets the corner |
| RectPack.PlacedAreReported | abstract-machine/libs/imgui/include/stb_rect_pack.h:557-579 | and back in its place that rectangle has was_packed set: no box is placed without being reported |
| RectPack.RefusalIsJustified | abstract-machine/libs/imgui/include/stb_rect_pack.h:434-441 | a non-empty rectangle without was_packed found no node free at its turn, or no position has room for it, then and at the end of the run |
| RectPack.Context.SetupHeuristic | abstract-machine/libs/imgui/include/stb_rect_pack.h:210-222 | only the heuristic changes |
| RectPack.Context.PackRects | abstract-machine/libs/imgui/include/stb_rect_pack.h:545-580 | stbrp_pack_rects on an array in place, for any first sort and any second sort by the stored indices, for both heuristics: two rectangles with was_packed set are disjoint and inside width x height, every box placed is reported by one of them, every one without was_packed is empty of width or height or was refused for want of room or nodes, and sizes, ids and places are as before |
| KvSlots.PutThenFind | libkvdb/kvdb.c:338-430 | a put of a readable key changes what is found under that key to the value up to its end mark, and nothing else |
| KvSlots.BadKeyIsNeverFound | libkvdb/kvdb.c:443-521 | an empty key, one with 0x0b or one starting with 0xe5 is never found |
| KvSlots.ReadBackIffClean | libkvdb/kvdb.c:295-521 | a value reads back as it was put if and only if the key is readable and the value is non-empty without 0x0a |
| KvSlots.PutKeepsUnique | libkvdb/kvdb.c:385-430 | overwrite in place, tombstone then append, or append: at most one live record per key remains |
| KvSlots.PutKeepsGood | libkvdb/kvdb.c:322-430 | records keep a legal level, a legal name and a text that fits the level |
| KvSlots.PutTouchesOne | libkvdb/kvdb.c:385-430 | a put overwrites the record of its key in place if it is large enough, tombstones and appends otherwise, and only appends if there is none; no other record changes |
| KvSlots.RunRefinesMap | libkvdb/kvdb.c:295-439 | any sequence of puts on the record list is that sequence of updates on a map |
| KvSlots.GetOfMap | libkvdb/kvdb.c:443-521 | for any map that the records represent, a get returns the value of a key that is there and not empty, and nothing otherwise |
| KvSlots.GetOfMissing | libkvdb/kvdb.c:443-521 | a get of a key that no record has returns nothing |
| KvSlots.GetOfFirst | libkvdb/kvdb.c:443-521 | a get returns the text of the first live record of the key, unless it is empty |
| KvSlots.FindAfterRun | libkvdb/kvdb.c:295-439 | after a run a key has its last put value, or what it had before |
| KvSlots.FindElsewhere | libkvdb/kvdb.c:390-408 | a record stopped in its overwrite or deleted does not show under another key |
| KvSlots.PutKeepsRecoverable | libkvdb/kvdb.c:170-203 | carrying out one of the journalled puts, for the first time or again, keeps a file recoverable |
| KvSlots.BreakKeepsRecoverable | libkvdb/kvdb.c:390-408 | so does stopping one inside its overwrite or just after its deletion |
| KvSlots.ReplayRestores | libkvdb/kvdb.c:170-203 | from any recoverable file, replaying all n entries gives every key what n uninterrupted puts give it |
| KvSlots.ReplayRepairs | libkvdb/kvdb.c:170-203 | and every record has a reliable text again, with one live record per key |
| KvBytes.TextIsRead | libkvdb/kvdb.c:18-36 | reading up to an end mark or a zero byte gives back a text that contains neither |
| KvBytes.RecordIsAppended | libkvdb/kvdb.c:417-430 | the bytes an append writes are one record of size MDLK + DLV[level] followed by the zero byte |
| KvBytes.RecordChanged | libkvdb/kvdb.c:385-409 | bytes changed inside one record change that record of the file and no other |
| KvBytes.StoppedInOverwrite | libkvdb/kvdb.c:391-393 | an overwrite stopped after any number of its bytes leaves a file with the same frames whose one record has no reliable text |
| KvBytes.StoppedAfterDelete | libkvdb/kvdb.c:400-404 | a file whose record has just been tombstoned is again a sequence of records |
| KvJournal.LoggableIsParsed | libkvdb/kvdb.c:177-190 | an entry written by journal_write is parsed back with key, level and value |
| KvJournal.FirstIsParsedIff | libkvdb/kvdb.c:170-203 | an entry comes back exactly when its key is non-empty without 0x0b and its value non-empty without 0x0a |
| KvJournal.TornIsIgnoredIff | libkvdb/kvdb.c:188-198 | a torn entry at the end of the log is not replayed if and only if its bytes do not read as a whole entry early |
| KvJournal.ReadsEarlyIff | libkvdb/kvdb.c:38-50 | for a key without 0x0b they do exactly if the value has text, 0x0a and 0x0f in a row and at least these reached the log; so a value without 0x0a is never replayed in part |
| KvJournal.AppendedLog | libkvdb/kvdb.c:38-50 | a log appended to entry by entry has the shape the replay expects |
| KvJournal.ParsesCommitted | libkvdb/kvdb.c:170-203 | the replay reads exactly the committed entries ahead of a torn one if and only if all of them can be parsed and the torn one does not read early |
| Kvdb.File.ReadText | libkvdb/kvdb.c:18-36 | read_key and read_val as loops over a cursor: the text up to its end, and where the cursor stops |
| Kvdb.ScanPut | libkvdb/kvdb.c:356-416 | the scanning loop over the file bytes: overwrites in place, or tombstones and stops at the end mark, as the record list prescribes |
| Kvdb.PutOver | libkvdb/kvdb.c:385-409 | a record of the same key is overwritten if its level suffices and tombstoned otherwise |
| Kvdb.DataWrite | libkvdb/kvdb.c:53-168 | rec_put, byte for byte: the file holds the records of the put, and nothing behind them if that was so before |
| Kvdb.JournalWrite | libkvdb/kvdb.c:38-50 | the log grows by key, mark, level, value, mark and commit byte |
| Kvdb.ReadEntry | libkvdb/kvdb.c:172-199 | one turn of recovery returns the next committed entry or stops; a commit byte that is not there counts as not committed |
| Kvdb.Recovery | libkvdb/kvdb.c:170-203 | the data file ends up with the records of all replayed puts |
| Kvdb.ChooseLevel | libkvdb/kvdb.c:322-323 | the smallest level whose size holds value, level byte and end mark |
| Kvdb.KvdbPut | libkvdb/kvdb.c:295-439 | refused and unchanged for an oversized key or value; otherwise the journal has the entry and the file the put |
| Kvdb.KvdbGet | libkvdb/kvdb.c:443-521 | on the file: the value that the map has for the key if it is not empty, NULL if there is none, the text of the first live record of that name |
| KvCrash.StepKeepsRestorable | libkvdb/kvdb.c:53-203 | the bytes stay a sequence of records from which the journal restores everything, through every journalled put that is carried out, stopped after any number of bytes of an overwrite, or stopped after a deletion, at first or in a replay |
| KvCrash.HistoryIsRestorable | libkvdb/kvdb.c:53-203 | so does every file that a history of such steps reaches, crashes during a replay included |
| KvCrash.PutContinues | libkvdb/kvdb.c:295-439 | a put made in full, journal first, is two steps of such a history, and the journal holds its entries |
| KvCrash.ReplayAfterCrash | libkvdb/kvdb.c:170-203 | from the file of any state of a history and its journal, possibly with a torn entry more, the replay reads the committed entries and reaches the map after all of them |
| Kvdb.Open | libkvdb/kvdb.c:243-250 | recovery and truncation on the bytes of such files: afterwards the data file stands for that map, every record is whole, and the log is empty |
| Ring.PushAppends | kernel/src/sem.c:59-63 | the cell at wlright is NULL exactly while the ring is not full, and the new waiter goes to the end |
| Ring.PopRemovesFirst | kernel/src/sem.c:88-95 | the cell at wlleft is the oldest waiter; it is NULL only for an empty ring, and then the two ends are equal |
| Ring.QueueHasRoom | kernel/src/sem.c:59-62 | a queue of distinct tasks that lacks one of the n tasks is shorter than n |
| Semaphores.StepKeepsInv | kernel/src/sem.c:47-98 | every step of every task and CPU keeps the whole invariant, and neither a panic nor a failed assertion of the context switch is reached; this includes the steps between setting _SUSPEND, unlocking and yielding, and each turn of the scheduler scan |
| Semaphores.ScanEnds | kernel/src/kmthread.c:75-77 | the task that goes on after a scan is _RUNNING, even if another CPU has woken somebody since the last look |
| Semaphores.Run | kernel/src/sem.c:47-98 | every interleaving from an initial state stays inside the invariant |
| Semaphores.ValueCounts | kernel/src/sem.c:74-82 | in every run the value is non-negative and equals its value before plus the value++ steps of semsignal on it, minus the tests of semwait that took one, both counted over the actions of the run |
| Semaphores.NoLostWakeup | kernel/src/sem.c:57-91 | while somebody waits and no signal is under way, the value is at most the number of woken tasks that have not yet tested it again, and all of those are runnable |
| Semaphores.SuspendedSitsOnce | kernel/src/sem.c:57-65 | a task sits in at most one cell of at most one ring, and in one exactly when its status is _SUSPEND |
| Semaphores.WokenInOrder | kernel/src/sem.c:88-91 | the occupied cells are the cyclic segment from wlleft, holding the waiters in the order they queued up; those woken are a prefix of that order |
| Semaphores.QueueHistory | kernel/src/sem.c:57-91 | in every run the waiters in the ring are those before it and those who went to sleep in it, in that order, less those woken in it, who are the first of them |
| Semaphores.FirstAsleepFirstWoken | kernel/src/sem.c:57-91 | from an initial state, the tasks woken are the first ones to have gone to sleep, in the same order |
| Semaphores.TakeStep | kernel/src/sem.c:74 | taking one keeps enough for the other woken tasks |
| Semaphores.SuspendStep | kernel/src/sem.c:57-65 | a task that queues up finds the cell at wlright NULL |
| Semaphores.WakeStep | kernel/src/sem.c:82-95 | a signal hands its unit to the oldest waiter, or finds the ring empty with its ends together |
| Semaphores.RejectedKeeps | kernel/src/kmthread.c:53-73 | a scan on behalf of a suspended task never comes back empty-handed as long as the CPU has a task that never waits |
| SemProgress.NobodyIsStuck | kernel/src/sem.c:47-98 | in every reachable state each CPU has a step that it can take |
| SemProgress.SignalCompletes | kernel/src/sem.c:77-98 | semsignal undisturbed raises the value by one, makes the oldest waiter _READY and takes it off the ring, releases the lock, and changes nothing else |
| SemProgress.WaitTakes | kernel/src/sem.c:47-76 | semwait undisturbed on a positive value takes one, and changes nothing else |
| SemProgress.WaitSleeps | kernel/src/sem.c:57-71 | on a value of zero it queues up as the last waiter, sleeps, releases the lock and yields, and changes nothing else |
| SemProgress.LockIsReleased | kernel/src/sem.c:47-98 | whoever has the lock of a semaphore releases it within three steps of its own |
| SemProgress.WokenGoesOn | kernel/src/kmthread.c:29-36 | a task woken between its unlock and its yield goes on at once |
| SemProgress.SwitchCompletes | kernel/src/kmthread.c:48-77 | the scan of the state machine, undisturbed, is the context switch on the list of that CPU, and touches nothing else |
| SemProgress.InterruptSwitches | kernel/src/kmthread.c:21-77 | so is an interrupt and what follows it, the early return included |
| NoIdle.ScanLeads | kernel/src/kmthread.c:53-73 | a scan goes on to some ready task of the list, or to none if there is none |
| NoIdle.LastGoesWrong | kernel/src/kmthread.c:70-72 | a suspended task whose scan finds nobody runs on, and queues up a second time or finds the ring full |
| NoIdle.WithoutIdleGoesWrong | kernel/src/kmthread.c:70-72 | on any configuration, a CPU all of whose tasks may wait and a semaphore that starts at 0 can reach a panic or a task that sits in two cells |
| NoIdle.IdleIsExact | kernel/src/kmthread.c:50-77 | with never-waiting tasks on the first CPUs, one each, nothing can go wrong if and only if those are all CPUs |
| SemLocked.Semaphore.constructor | kernel/src/sem.c:5-15 | an initialised semaphore has an empty ring |
| SemLocked.Semaphore.TryWait | kernel/src/sem.c:57-74 | under the lock, on the fields: takes one, or queues the task at wlright and suspends it |
| SemLocked.Semaphore.Signal | kernel/src/sem.c:82-95 | under the lock, on the fields: value goes up, the oldest waiter becomes _READY and leaves the ring, nobody else is touched |
| Tasks.SearchFindsClosest | kernel/src/kmthread.c:53-73 | the scan finds the closest _READY task behind the current one and misses none |
| Tasks.SwitchKeepsOneRunning | kernel/src/kmthread.c:24-122 | only the current task is _RUNNING and it is never left _READY; a current task that is _READY goes on itself, one that makes way becomes _READY unless it waits, and no other task notices; without a ready task nothing changes |
| Tasks.SwitchComesCloser | kernel/src/kmthread.c:53-68 | from any task and from the boot task, a switch chooses a waiting task or a ready one strictly closer to it, which is then _RUNNING |
| Tasks.ReadyIsChosen | kernel/src/kmthread.c:53-68 | a task that stays _READY is chosen within tn - 1 switches that do not return early (tn from the boot task), whatever happens to the others |
| Scheduler.Cpu.Poll | kernel/src/kmthread.c:50-73 | the loop on the task list in memory, with its modular index and its count, is that scan |
| Scheduler.Cpu.ContextSwitch | kernel/src/kmthread.c:21-122 | statuses, current task and returned context after kmt_context_switch |
| Scheduler.Kernel.Create | kernel/src/kmthread.c:196-241 | the k-th task goes to CPU k modulo ncpu with id k / ncpu, and ids stay places in the list, until the list is full: the write behind it comes exactly when k / ncpu reaches NTHREAD |
| Scheduler.Cpu.SaveContext | kernel/src/kmthread.c:9-19 | the interrupted context is kept for every task but the boot task |
| Spinlock.StepKeepsInv | kernel/src/spinlock.c:26-80 | every access of every CPU keeps locks, owners and counts consistent |
| Spinlock.MutualExclusion | kernel/src/spinlock.c:55-80 | in every interleaving two CPUs never have the same lock, a non-NULL cpu names the owner, and locked is clear exactly for a lock nobody has |
| Spinlock.InterruptsAndPanics | kernel/src/spinlock.c:26-80 | interrupts are off while ncli > 0, ncli counts the locks held, popcli never panics, and the other panics occur over a lock already held, or not held, only |
| Spinlock.HoldingIsOwnership | kernel/src/spinlock.c:47-53 | holding returns true exactly on the CPU that has the lock, however others interleave |
| Spinlock.ChecksDecide | kernel/src/spinlock.c:55-74 | my_spinlock panics exactly over a lock the CPU has, my_spinunlock exactly over one it has not |
| Spinlock.SavedFlagReturns | kernel/src/spinlock.c:26-45 | through any nesting the saved flag stays, and comes back exactly when ncli is zero again |
| Spinlock.FlagIsRestored | kernel/src/spinlock.c:26-45 | from the first acquire to the last release the interrupt flag ends as it began |
| SpinProgress.SpinWinsIff | kernel/src/spinlock.c:63 | the exchange wins a free lock in one step and leaves a taken one alone, and changes nothing else |
| SpinProgress.StepComesCloser | kernel/src/spinlock.c:26-80 | each step inside a function brings its CPU closer to the end of it, but for an exchange that finds the lock taken; steps of others do not take it further away |
| SpinProgress.FunctionsEnd | kernel/src/spinlock.c:47-80 | however the CPUs interleave, each function is over within four steps of its own CPU, not counting exchanges that find the lock taken |
| SpinProgress.FreeLock | kernel/src/spinlock.c:55-80 | a lock is clear exactly if no CPU has it, and then cpu is NULL |
| SpinProgress.AcquireCompletes | kernel/src/spinlock.c:55-67 | undisturbed on a free lock, my_spinlock takes it, names its CPU, turns interrupts off and saves the flag on the outermost level, and changes nothing else |
| SpinProgress.GiveBackCompletes | kernel/src/spinlock.c:69-80 | undisturbed, my_spinunlock by the owner frees the lock and restores the flag on the outermost level, and changes nothing else |
| SpinProgress.WaiterGetsLock | kernel/src/spinlock.c:55-80 | a CPU that spins stays there while the lock is taken, and has it two steps after the owner has given it back |
| SpinProgress.MisuseHalts | kernel/src/spinlock.c:55-74 | my_spinlock on a lock that the CPU has, and my_spinunlock on one it has not, end in their panics |
| Division.MaskIsTest | abstract-machine/libs/compiler-rt/udivmoddi4.c:223 | the sign of d - r - 1 tells r >= d, also for d >= 2^63 |
| Division.DividingStep | abstract-machine/libs/compiler-rt/udivmoddi4.c:211-225 | one compare-and-subtract keeps the r:q invariant for one bit less |
| Division.CompareAndSubtract | abstract-machine/libs/compiler-rt/udivmoddi4.c:223-225 | carry and remainder from the mask |
| Division.ShiftAll | abstract-machine/libs/compiler-rt/udivmoddi4.c:211-215 | the four word shifts are one shift of r:q |
| Division.LongDivide | abstract-machine/libs/compiler-rt/udivmoddi4.c:208-230 | the loop, started with r below d, yields quotient and remainder |
| Division.ShortShift | abstract-machine/libs/compiler-rt/udivmoddi4.c:112-117 | words set up for a shift of 1 to 31 bits: r is n >> sr and q the bits that fell out |
| Division.LongShift | abstract-machine/libs/compiler-rt/udivmoddi4.c:161-168 | the same for 33 to 63 bits |
| Division.ShiftForHigh | abstract-machine/libs/compiler-rt/udivmoddi4.c:102-110 | the shift from the leading zeros leaves less than d, or d is plainly larger; for d >= 2^63 it is 1 |
| Division.ShiftForLow | abstract-machine/libs/compiler-rt/udivmoddi4.c:142-146 | the shift for a one-word divisor lies in 2 to 63 and leaves less than d |
| Division.DivideByHigh | abstract-machine/libs/compiler-rt/udivmoddi4.c:57-118 | all branches for a zero low word of d |
| Division.DivideByLow | abstract-machine/libs/compiler-rt/udivmoddi4.c:121-169 | all branches for a zero high word of d, powers of two included |
| Division.DivideByBoth | abstract-machine/libs/compiler-rt/udivmoddi4.c:171-200 | the branches for two non-zero words of d |
| Division.UDivModDi4 | abstract-machine/libs/compiler-rt/udivmoddi4.c:23-231 | for every a and non-zero b the result is a / b, and *rem is a % b unless rem is NULL |
| Division.TruncatedDivision | abstract-machine/libs/compiler-rt/divdi3.c:17-29 | section 6.5.5 of ISO/IEC 9899:2011: quotient and remainder are the only pair with a == q*b + r, abs(r) < abs(b) and the sign of r that of a |
| Division.QuotientFits | abstract-machine/libs/compiler-rt/divdi3.c:17-29 | the quotient fits 64 bits for all pairs but INT64_MIN and -1 |
| Division.DivDi3 | abstract-machine/libs/compiler-rt/divdi3.c:20-29 | the truncated quotient if and only if the pair is not INT64_MIN and -1, which gives INT64_MIN |
| Division.ModDi3 | abstract-machine/libs/compiler-rt/moddi3.c:19-30 | the remainder with the sign of the dividend, for every pair |
| ListSort.TakeP | abstract-machine/apps/coremark/src/core_list_join.c:463-465 | on a tie the element of the first run goes first, which keeps the merge sorted and stable |
| ListSort.TakeQ | abstract-machine/apps/coremark/src/core_list_join.c:466-468 | a strictly lower element of the second run goes first |
| ListSort.Merge | abstract-machine/apps/coremark/src/core_list_join.c:453-478 | two runs are merged in place behind the output, and what follows is left alone |
| ListSort.Pass | abstract-machine/apps/coremark/src/core_list_join.c:433-484 | one pass turns runs of insize into runs of twice that, each from the same original places, and counts the merges |
| ListSort.MergeSort | abstract-machine/apps/coremark/src/core_list_join.c:426-496 | the result is NULL-terminated, has exactly the nodes of the list, is sorted by cmp and keeps equal elements in their order; insize never passes the length |
| ListSort.StableSortIsUnique | abstract-machine/apps/coremark/src/core_list_join.c:409-412 | there is only one such result |
| ListSort.SortByIdxRestores | abstract-machine/apps/coremark/src/core_list_join.c:411 | cmp_idx is an order, and sorting by it returns a list with distinct idx to its original order |
| Fix16.WordsAreProduct | abstract-machine/libs/fixmath/src/fix16.c:124-137 | the split multiply with its carry is the 64-bit product, but for what 32 bits cut off the cross sum |
| Fix16.RoundWordsIsRight | abstract-machine/libs/fixmath/src/fix16.c:140-164 | overflow test and rounding on the two words |
| Fix16.MulIsExact | abstract-machine/libs/fixmath/src/fix16.c:113-166 | if the cross sum fits int32: the product over 65536 rounded half away from zero, or the overflow value if that does not fit |
| Fix16.MulIsRightIff | abstract-machine/libs/fixmath/src/fix16.c:113-166 | for all pairs, fix16_mul is right if and only if a condition on cross sum and product holds |
| Fix16.MulOverflowsEarly | abstract-machine/libs/fixmath/src/fix16.c:128-142 | -1 times -2147418113 overflows although the product rounds to 32767 |
| FixDiv.TurnKeepsLeft | abstract-machine/libs/fixmath/src/fix16.c:322-338 | a turn of the division keeps quotient and remainder in balance, and bit_pos falls |
| FixDiv.OverflowMask | abstract-machine/libs/fixmath/src/fix16.c:333 | the mask test is non-zero exactly for digits that do not fit |
| FixDiv.SmallDivisor | abstract-machine/libs/fixmath/src/fix16.c:320-346 | below 2^20 the rounded quotient is exact and too long exactly for abs(a) >= 32768 abs(b) |
| FixDiv.LargeDivisor | abstract-machine/libs/fixmath/src/fix16.c:306-311 | from 2^20 on the result is one above the rounded quotient exactly when the kick-start shows |
| FixDiv.Div | abstract-machine/libs/fixmath/src/fix16.c:290-360 | all of fix16_div: division by zero, the exact range with its overflow, and the exact result for large divisors |
| FixDiv.KickStartCanShow | abstract-machine/libs/fixmath/src/fix16.c:306-311 | 828843 over 2771027 comes out one too large |
| FixSqrt.DigitStep | abstract-machine/libs/fixmath/src/fix16_sqrt.c:38-47 | one digit of the root by digit recurrence |
| FixSqrt.Pass | abstract-machine/libs/fixmath/src/fix16_sqrt.c:36-48 | a pass finds the integer root, without 32-bit overflow |
| FixSqrt.ScaleUp | abstract-machine/libs/fixmath/src/fix16_sqrt.c:53-71 | the second pass starts from 65536 num, less 0x4000 if the first remainder exceeds 65535 |
| FixSqrt.Sqrt | abstract-machine/libs/fixmath/src/fix16_sqrt.c:12-84 | odd in x, and in magnitude the integer nearest to the root of 65536 abs(x) less that deficit; below 2^30 the nearest integer itself |
| FixSqrt.ExactBelow | abstract-machine/libs/fixmath/src/fix16_sqrt.c:62 | below 2^30 there is no deficit |
| FixSqrt.WithinOne | abstract-machine/libs/fixmath/src/fix16_sqrt.c:62 | up to 2^31 - 1 it is that integer or one less, with the exact condition |
| FixSqrt.DeficitCanShow | abstract-machine/libs/fixmath/src/fix16_sqrt.c:62 | 1802585074 comes out one too small |
| FixStr.ItoaIsDecimal | abstract-machine/libs/fixmath/src/fix16_str.c:10-26 | the digits printed stand for the value |
| FixStr.ItoaLength | abstract-machine/libs/fixmath/src/fix16_str.c:10-26 | as many digits as asked for, or without leading zeros |
| FixStr.ItoaLoop | abstract-machine/libs/fixmath/src/fix16_str.c:10-26 | the loop writes those digits at the buffer position and leaves what is before it |
| FixStr.PartsAreRounded | abstract-machine/libs/fixmath/src/fix16_str.c:35-45 | integer part and decimals together are the value rounded half away from zero to that many decimals, carry included |
| FixStr.PlacesAreScales | abstract-machine/libs/fixmath/src/fix16_str.c:5-37 | the table of scales holds the power of ten for the number of decimals that any argument asks for: its lowest three bits, and five at most |
| FixStr.ToStr | abstract-machine/libs/fixmath/src/fix16_str.c:28-58 | the buffer holds sign, integer part, point, decimals and a NUL |
| FixStr.DecimalParses | abstract-machine/libs/fixmath/src/fix16_str.c:60-113 | a text of one to five digits (at most 32767), a point and at most five decimals parses to the nearest fixed point number |
| FixStr.ReadInteger | abstract-machine/libs/fixmath/src/fix16_str.c:71-78 | the digit loop on 32 bits |
| FixStr.ReadDecimals | abstract-machine/libs/fixmath/src/fix16_str.c:91-98 | at most five decimals are read, with their scale |
| FixStr.FromStr | abstract-machine/libs/fixmath/src/fix16_str.c:60-113 | all of fix16_from_str, malformed and overlong texts included, is the parse function |
| FixText.EveryTextHasShape | abstract-machine/libs/fixmath/src/fix16_str.c:60-110 | every text consists of spaces, a sign, digits, a point with at most five decimals, and a rest |
| FixText.CleanIff | abstract-machine/libs/fixmath/src/fix16_str.c:103-110 | the last loop rejects a text exactly if something other than digits and spaces stands in front of the NUL |
| FixText.ParseMeans | abstract-machine/libs/fixmath/src/fix16_str.c:60-113 | the result is the overflow value if and only if there are no digits, more than five, too large a number, anything but digits and spaces behind it, or the number is -32768; other texts give the nearest number, but a minus before 32768 and a fraction is lost |
| FixStr.RoundTrip | abstract-machine/libs/fixmath/src/fix16_str.c:28-113 | parsing what was printed with five decimals gives the value back, for every value but INT32_MIN |
| FixText.TextLayout | abstract-machine/libs/fixmath/src/fix16_str.c:28-58 | what is printed: a minus exactly for negative numbers, one to five digits without leading zeros, and a point with as many decimals as asked for, or none |
| FixText.PrintedParses | abstract-machine/libs/fixmath/src/fix16_str.c:28-113 | with any number of decimals, parsing gives the fixed point number nearest to the printed one, or overflow exactly if that is 32768 |
| FixText.PrintingLosesLittle | abstract-machine/libs/fixmath/src/fix16_str.c:28-113 | which differs from the value by at most half a unit of the last decimal and half a unit of the format |
| FixStr.PrintAndParse | abstract-machine/libs/fixmath/src/fix16_str.c:28-113 | the same on one buffer, whatever lies behind the NUL |
| Directory.FindIsLive | kernel/src/vfs.c:86-206 | the scan for a last component finds a live entry of that name and kind, or tells which of the two reasons it has not to |
| Directory.LookupIsWalk | kernel/src/vfs.c:43-231 | a directory lookup and the walk to it agree; only the mount root itself, whose path is empty, is not found |
| DirectoryNames.LeadsIff | kernel/src/vfs.c:43-231 | a name leads to an inode if and only if live entries lead there from the root, directory by directory |
| DirectoryNames.PathsAreUnique | kernel/src/vfs.c:43-341 | directories form a tree: two paths to one directory are the same path |
| Directory.FirstFitKeepsNames | kernel/src/vfs.c:285-298 | an entry put into the first free slot stays ahead of its stale namesakes |
| Directory.ScanHitsLive | kernel/src/vfs.c:1268-1270 | the unlink scan that ignores the valid bit hits the live entry |
| Directory.CreateKeepsIff | kernel/src/vfs.c:234-341 | creating keeps names and link counts right if and only if the directory has a free slot (or nothing is created): the code takes an inode without one |
| DirectoryNames.CreatesIff | kernel/src/vfs.c:86-249 | something is created exactly if the name is live neither as a file nor as a directory, its directory is there, and an inode is free |
| DirectoryNames.CreateDecides | kernel/src/vfs.c:86-345 | with O_CREAT the call returns the inode that the name leads to; else, if it creates, an inode that was not in use, now in use with count 0; else -1, and nothing changes |
| DirectoryNames.CreateAddsName | kernel/src/vfs.c:273-341 | what is created is found under its name as what it is, a new directory is empty, and every other path leads where it led |
| DirectoryNames.CreateLosesInode | kernel/src/vfs.c:285-333 | without a free slot the inode is taken and no name leads to it |
| Directory.LinkKeepsIff | kernel/src/vfs.c:961-1128 | linking keeps them if and only if no directory has the new name, or there is no such file, or the new name lies in the mount root or a full directory: a directory hides a file of its name from the check |
| Directory.UnlinkKeepsIff | kernel/src/vfs.c:1203-1288 | unlinking keeps them if and only if the file is missing, has no further link or lies below the mount root; otherwise the count is decremented and the assertion of line 1263 fails |
| Directory.RmdirKeeps | kernel/src/vfs.c:163-198 | removing an empty directory keeps them |
| DirectoryNames.RmdirDecides | kernel/src/vfs.c:163-198 | removing a directory succeeds exactly if the name leads to one without live entries, and then its inode and block are given up; otherwise nothing changes |
| DirectoryNames.RmdirRemovesName | kernel/src/vfs.c:163-198 | its name then leads nowhere, and every other path leads where it led |
| DirectoryNames.RmdirUndoesCreate | kernel/src/vfs.c:163-341 | a directory created and removed again leaves every path and the inodes in use as they were |
| Directory.KeepsIffHarmless | kernel/src/vfs.c:19-345 | one condition per call, made of lookups and free slots before it, equivalent to keeping the invariant |
| Directory.LinkCounts | kernel/src/vfs.c:889-1289 | after every run of such calls from an empty file system each file has exactly refcnt + 1 live entries, and no name is live twice |
| Directory.LinkAddsName | kernel/src/vfs.c:1092-1107 | a link makes the new name lead to the old file, and leaves where other names lead |
| DirectoryNames.LinkDecides | kernel/src/vfs.c:961-1128 | a link is made exactly if the old name leads to a file, the new one to none, and its directory is there, below the mount root and with a free slot; otherwise nothing changes |
| DirectoryNames.LinkKeepsOthers | kernel/src/vfs.c:1092-1107 | every other path, of directories too, leads where it led |
| Directory.UnlinkRemovesName | kernel/src/vfs.c:1216-1280 | after an unlink the name leads nowhere, other names where they led |
| DirectoryNames.UnlinkDecides | kernel/src/vfs.c:1203-1288 | unlinking takes one off the count of a file with further links and gives up the inode of one without |
| DirectoryNames.UnlinkKeepsOthers | kernel/src/vfs.c:1216-1280 | every other path, of directories too, leads where it led |
| Directory.UnlinkUndoesLink | kernel/src/vfs.c:889-1289 | link and then unlink restore inode table, counts and every file name |
| Directory.RootFileCannotBeUnlinked | kernel/src/vfs.c:1260-1263 | a file of the mount root that has been linked cannot be unlinked by its first name |
| DirectoryRuns.StackIsReached | kernel/src/vfs.c:961-1128 | a run of links gives one file as many names in a directory as it has slots |
| DirectoryRuns.FullDirectoryIsReached | kernel/src/vfs.c:273-333 | so a run from an empty file system reaches a full directory while inodes are free, and the next create breaks the counts |
| DirectoryRuns.HiddenDirectoryIsReached | kernel/src/vfs.c:1039-1055 | a run reaches a link that succeeds although a directory has its name |
| DirectoryRuns.StuckRootFileIsReached | kernel/src/vfs.c:1253-1263 | a run reaches a linked file of the mount root, whose unlinking fails the assertion |
| Directory.FileSystem.ScanLast | kernel/src/vfs.c:86-206 | the scanning loop over a directory block |
| Directory.FileSystem.WalkTo | kernel/src/vfs.c:43-231 | the loop over path components |
| Directory.FileSystem.Open | kernel/src/vfs.c:86-345 | opening with O_CREAT on the tables in place: what the method returns and leaves is what CreateDecides and CreateAddsName speak of |
| Directory.FileSystem.Delete | kernel/src/vfs.c:163-198 | removing, on the tables in place |
| Directory.FileSystem.VfsLink | kernel/src/vfs.c:961-1128 | vfslink on the tables in place |
| Directory.FileSystem.VfsUnlink | kernel/src/vfs.c:1203-1288 | vfsunlink on the tables in place, the failed assertion included |

## Left out

- RectPack.Context.PackRects: the two calls of qsort are parameters: any permutation for the first, so how it orders rectangles by height and width is not modelled, and any that sorts by the stored indices for the second.
- RectPack.Context.InitTarget: asks for width >= 1 and at least one node; the code divides by num_nodes and walks to a node past width 0 otherwise.
- RectPack.Context.FindBestPos: best fit asks for an aligned width of at most the target width; the code runs off the list otherwise. The waste is an unbounded integer, so the overflow of int for very large targets is not modelled.
- Packer: the 32-bit coordinates of STBRP_LARGE_RECTS and the checks under _DEBUG.
- Kvdb.KvdbPut: file descriptors, flock, fsync, fstat, permissions, malloc failures and mutexes; the model keeps file contents and cursors.
- Kvdb.ReadEntry: the code ignores whether the commit byte could be read; the model takes no byte as not committed.
- KvCrash.HistoryIsRestorable: a crash inside an append (between the writes of lines 148-161 and 417-430 of libkvdb/kvdb.c) leaves a tail the scan cannot frame; nothing is claimed about it. Histories are of puts that can be read back; a write cut short leaves a prefix of its bytes.
- Kvdb.File.ReadText: a byte left uninitialised by a failed read counts as 0.
- Semaphores.StepKeepsInv: a semaphore's lock is taken in one step, since Spinlock proves the exclusion; the stretches under one lock whose parts nobody else can observe are one step each. The global task lock and kmt_create during a run are not part of it. At most NTHREAD tasks and one task per CPU that never waits are assumed; NoIdle shows that the latter is needed.
- SemLocked.Semaphore.TryWait: semwait as a whole spans context switches, so its loop is the state machine of Semaphores and only one turn is a method.
- Scheduler.Cpu.ContextSwitch: saving and restoring machine contexts is a number per task; kmt_teardown is not implemented in the code.
- Scheduler.Kernel.Create: a write behind a full list ends the claim; stacks, fences and file tables are not modelled.
- Spinlock.StepKeepsInv: reading the flags and clearing the interrupt flag in pushcli is one step; between them only handlers of the same CPU can run, and they leave ncli as it was.
- SpinProgress.FunctionsEnd: exchanges that find the lock taken are not bounded: the code has no queue of waiting CPUs, so one of them may lose every race.
- SemProgress.NobodyIsStuck: which task or CPU moves next is free, and no fairness is assumed; the completions of semwait and semsignal are those of an undisturbed caller.
- Division.UDivModDi4: a zero divisor, which the code passes on to a 32-bit division.
- Division.DivDi3: signed subtraction wraps, where the code relies on it not to overflow but for INT64_MIN.
- ListSort.MergeSort: cmp is a pure total preorder. cmp_idx also rewrites data16 when res is NULL, and cmp_complex caches results; neither is modelled.
- FixDiv.Div: INT32_MIN as an argument, whose negation is undefined in the code.
- FixSqrt.Sqrt: INT32_MIN, likewise.
- FixStr.ToStr: INT32_MIN, likewise; the buffer must have room for 13 characters, the longest text.
- FixStr.ItoaLoop: scale is a power of ten, as in both calls.
- Fix16.MulIsExact: the 8-bit and 64-bit variants and FIXMATH_NO_ROUNDING are not compiled in this configuration; trigonometric, exponential and logarithmic functions are series without a stated bound.
- Directory.FileSystem.VfsLink: mount points, /dev and /proc, path buffers and their lengths; a path is the sequence of its non-empty components below the mount point. File sizes, maxuse and file contents are not modelled.
- Directory.FileSystem.Delete: guards for inode numbers out of range, which the code does not have and which the invariant shows not to be taken.
- Kernel memory allocation, traps, devices, procfs and the shell; libco, pstree, sperf, crepl and frecov; games and the rest of the applications.
