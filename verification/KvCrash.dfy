/** What a crash can leave on disk, byte by byte: the data file after any sequence of puts that were
    journalled and then carried out, stopped inside an overwrite, or stopped after a deletion, be it when
    they were first made or in a replay that was itself cut short. */
module KvCrash {
  import opened KvSlots
  import opened KvBytes
  import opened KvJournal

  /** The bytes of the data file, the entries committed to the journal, and the records those bytes hold. */
  datatype State = State(data: seq<Byte>, es: seq<Entry>, slots: seq<Slot>)

  datatype Step =
    | Journalled(e: Entry)
    | Applied(j: nat)
    | Overwriting(j: nat, i: nat, n: nat)
    | Deleted(j: nat, i: nat)

  /** Record i, at offset off, is the one that the put of entry j comes across. */
  ghost predicate Meets(s: State, j: nat, i: nat) {
    j < |s.es| && i < |s.slots| && Named(s.slots[i], s.es[j].key)
  }

  ghost predicate StepTo(s: State, step: Step, s': State) {
    match step
    case Journalled(e) =>
      // journal_write of a put that can be read back has finished
      Loggable(e) && GoodKey(e.key) && s' == s.(es := s.es + [e])
    case Applied(j) =>
      // rec_put of an entry has finished, for the first time or in a replay
      j < |s.es| && s'.es == s.es && s'.slots == Put(s.slots, s.es[j]) && Stored(s'.data, s'.slots)
    case Overwriting(j, i, n) =>
      // n bytes of value and end mark are written over a record that is large enough
      && Meets(s, j, i) && s.slots[i].level >= s.es[j].level && n <= |s.es[j].value| + 1
      && s' == State(WriteAt(s.data, End(0, s.slots[..i]) + MDLK + 1, (s.es[j].value + [VALUE_END])[..n]), s.es,
                     s.slots[i := s.slots[i].(text := None)])
    case Deleted(j, i) =>
      // the deletion mark is written over a record that is too small
      && Meets(s, j, i) && s.slots[i].level < s.es[j].level
      && s' == State(WriteAt(s.data, End(0, s.slots[..i]), [DELETED]), s.es, s.slots[i := Dead(s.slots[i].level)])
  }

  ghost predicate Follows(s: State, s': State) {
    exists step :: StepTo(s, step, s')
  }

  /** A history from a data file d that holds the records start, with an empty journal. */
  ghost predicate History(d: seq<Byte>, start: seq<Slot>, states: seq<State>) {
    && states != [] && states[0] == State(d, [], start)
    && forall k :: 0 <= k < |states| - 1 ==> Follows(states[k], states[k + 1])
  }

  ghost predicate Intact(d: seq<Byte>, start: seq<Slot>) {
    Stored(d, start) && Whole(start) && Unique(start)
  }

  /** The file still is a sequence of records, from which the journal brings everything back. */
  ghost predicate Restorable(start: seq<Slot>, s: State) {
    Stored(s.data, s.slots) && GoodRun(s.es) && AllLoggable(s.es) && Recoverable(start, s.es, s.slots)
  }

  lemma StepKeepsRestorable(start: seq<Slot>, s: State, step: Step, s': State)
    requires Restorable(start, s) && StepTo(s, step, s')
    ensures Restorable(start, s')
  {
    hide LevelSize, Recoverable, Put, GoodKey, Framed;
    match step
    case Journalled(e) =>
      JournalGrows(start, s.es, e, s.slots);
    case Applied(j) =>
      PutKeepsRecoverable(start, s.es, s.slots, j);
    case Overwriting(j, i, n) =>
      OverwritingKeepsStored(s, j, i, n);
      BreakKeepsRecoverable(start, s.es, s.slots, i, j, s.slots[i].(text := None));
    case Deleted(j, i) =>
      StoppedAfterDelete(s.data, s.slots, i);
      BreakKeepsRecoverable(start, s.es, s.slots, i, j, Dead(s.slots[i].level));
  }

  lemma OverwritingKeepsStored(s: State, j: nat, i: nat, n: nat)
    requires Stored(s.data, s.slots) && GoodRun(s.es) && Meets(s, j, i)
    requires s.slots[i].level >= s.es[j].level && n <= |s.es[j].value| + 1
    ensures var part := (s.es[j].value + [VALUE_END])[..n];
      Stored(WriteAt(s.data, End(0, s.slots[..i]) + MDLK + 1, part), s.slots[i := s.slots[i].(text := None)])
  {
    hide Framed, LevelSize;
    assert GoodEntry(s.es[j]) && GoodSlot(s.slots[i]);
    LevelSizeIsMonotone(s.es[j].level, s.slots[i].level);
    StoppedInOverwrite(s.data, s.slots, i, (s.es[j].value + [VALUE_END])[..n]);
  }

  lemma {:induction false} HistoryIsRestorable(d: seq<Byte>, start: seq<Slot>, states: seq<State>, k: nat)
    requires Intact(d, start) && History(d, start, states) && k < |states|
    ensures Restorable(start, states[k])
  {
    hide Restorable, StepTo, Whole, Unique, Framed, Stored;
    if k == 0 {
      StartIsRestorable(d, start);
    } else {
      HistoryIsRestorable(d, start, states, k - 1);
      assert Follows(states[k - 1], states[k - 1 + 1]);
      var step :| StepTo(states[k - 1], step, states[k]);
      StepKeepsRestorable(start, states[k - 1], step, states[k]);
    }
  }

  lemma StartIsRestorable(d: seq<Byte>, start: seq<Slot>)
    requires Intact(d, start)
    ensures Restorable(start, State(d, [], start))
  {
    StartIsRecoverable(start, []);
  }

  /** A put made in full is two steps of a history. */
  lemma PutContinues(d: seq<Byte>, start: seq<Slot>, states: seq<State>, e: Entry, data': seq<Byte>)
    requires states != [] && History(d, start, states) && Loggable(e) && GoodKey(e.key)
    requires var s := states[|states| - 1]; Stored(data', Put(s.slots, e))
    ensures var s := states[|states| - 1];
      && History(d, start, states + [s.(es := s.es + [e]), State(data', s.es + [e], Put(s.slots, e))])
      && EncodedAll(s.es + [e]) == EncodedAll(s.es) + Encoded(e)
  {
    hide Stored, Loggable, GoodKey, Put, Encoded, EncodedAll, Follows, StepTo;
    var s := states[|states| - 1];
    var s1, s2 := s.(es := s.es + [e]), State(data', s.es + [e], Put(s.slots, e));
    EncodedAllMore(s.es, e);
    assert Follows(s, s1) by {
      PutIsJournalled(s, e);
    }
    assert Follows(s1, s2) by {
      PutIsApplied(s, e, data');
    }
    assert states + [s1, s2] == states + [s1] + [s2];
    HistoryContinues(d, start, states, s1);
    HistoryContinues(d, start, states + [s1], s2);
  }

  lemma PutIsJournalled(s: State, e: Entry)
    requires Loggable(e) && GoodKey(e.key)
    ensures Follows(s, s.(es := s.es + [e]))
  {
    hide Loggable, GoodKey;
    assert StepTo(s, Journalled(e), s.(es := s.es + [e]));
  }

  lemma PutIsApplied(s: State, e: Entry, data': seq<Byte>)
    requires Stored(data', Put(s.slots, e))
    ensures Follows(s.(es := s.es + [e]), State(data', s.es + [e], Put(s.slots, e)))
  {
    hide Stored, Put;
    assert (s.es + [e])[|s.es|] == e;
    assert StepTo(s.(es := s.es + [e]), Applied(|s.es|), State(data', s.es + [e], Put(s.slots, e)));
  }

  lemma HistoryContinues(d: seq<Byte>, start: seq<Slot>, states: seq<State>, s: State)
    requires states != [] && History(d, start, states) && Follows(states[|states| - 1], s)
    ensures History(d, start, states + [s])
  {
    hide Follows;
    var longer := states + [s];
    forall k | 0 <= k < |longer| - 1 ensures Follows(longer[k], longer[k + 1]) {
      if k < |states| - 1 {
        assert longer[k] == states[k] && longer[k + 1] == states[k + 1];
      }
    }
  }

  // ----- what the replay makes of it -----

  /** The files as the crash leaves them: the data file is that of some state of a history, and the
      journal holds its entries and possibly the first n bytes of one more. */
  ghost predicate Crashed(log: seq<Byte>, data: seq<Byte>, d: seq<Byte>, start: seq<Slot>, states: seq<State>,
                          last: Entry, n: nat) {
    && Intact(d, start) && states != [] && History(d, start, states)
    && data == states[|states| - 1].data
    && GoodEntry(last) && n < |Encoded(last)| && !ReadsEarly(last, n)
    && log == EncodedAll(states[|states| - 1].es) + Encoded(last)[..n]
  }

  /** From there the replay reads the committed entries, and its puts lead to the map after all of them. */
  lemma ReplayAfterCrash(log: seq<Byte>, data: seq<Byte>, d: seq<Byte>, start: seq<Slot>, m: Store,
                         states: seq<State>, last: Entry, n: nat)
    requires Crashed(log, data, d, start, states, last, n) && Represents(start, m)
    ensures var s := states[|states| - 1];
      && ParseLog(log, 0) == s.es && (forall e :: e in s.es ==> GoodEntry(e)) && Stored(data, s.slots)
      && Represents(PutAll(s.slots, s.es), Updated(m, s.es))
      && Whole(PutAll(s.slots, s.es)) && Unique(PutAll(s.slots, s.es))
  {
    hide LevelSize, Encoded, ParseLog, Loggable, LogFrom, Put, ReadsEarly, History, Intact, Framed;
    HistoryIsRestorable(d, start, states, |states| - 1);
    var s := states[|states| - 1];
    assert log[0..] == log;
    AppendedLog(log, 0, s.es, last, n);
    assert AllGood(s.es);
    ParsesCommitted(log, 0, s.es, last, n);
    ReplayRepairs(start, s.es, s.slots);
    RunRefinesMap(start, m, s.es);
    forall key ensures Find(PutAll(s.slots, s.es), key) == Find(PutAll(start, s.es), key) {
      ReplayRestores(start, s.es, s.slots, key);
    }
  }

  lemma NoJournal(es: seq<Entry>, last: Entry, n: nat)
    requires n <= |Encoded(last)| && EncodedAll(es) + Encoded(last)[..n] == []
    ensures es == []
  {
    hide Encoded;
    if es != [] {
      EncodedPieces(es[0]);
    }
  }
}
