/** The data file byte by byte: records of MDLK + DLV[level] bytes one after the other, then a byte
    the scan takes for the end. */
module KvBytes {
  import opened KvSlots

  /** Writing bs at offset p; a gap behind the old end reads as zeros. */
  function WriteAt(d: seq<Byte>, p: nat, bs: seq<Byte>): (r: seq<Byte>)
    ensures |r| == if bs == [] || p + |bs| < |d| then |d| else p + |bs|
    ensures forall i :: 0 <= i < |r| ==>
      r[i] == if p <= i < p + |bs| then bs[i - p] else if i < |d| then d[i] else 0
  {
    if bs == [] then d
    else
      seq(if p + |bs| < |d| then |d| else p + |bs|,
          i requires 0 <= i => if p <= i < p + |bs| then bs[i - p] else if i < |d| then d[i] else 0)
  }

  /** What read_key and read_val collect from offset p: everything up to the stop byte, a zero
      byte, or the end of the file. */
  function TextFrom(d: seq<Byte>, p: nat, stop: Byte): (t: seq<Byte>)
    ensures p <= |d| ==> p + |t| <= |d|
    ensures p >= |d| ==> t == []
    decreases |d| - p
  {
    if p < |d| && d[p] != stop && d[p] != 0 then [d[p]] + TextFrom(d, p + 1, stop) else []
  }

  lemma TextStarts(d: seq<Byte>, p: nat, stop: Byte)
    ensures p < |d| && d[p] != stop && d[p] != 0 ==> TextFrom(d, p, stop) == [d[p]] + TextFrom(d, p + 1, stop)
    ensures p >= |d| || d[p] == stop || d[p] == 0 ==> TextFrom(d, p, stop) == []
  {
  }

  /** Where they leave the cursor: behind the byte that stopped them, if there was one. */
  function AfterText(d: seq<Byte>, p: nat, stop: Byte): nat {
    var q := p + |TextFrom(d, p, stop)|;
    if q < |d| then q + 1 else q
  }

  /** The clean text t stands at p, followed by the stop byte or a zero. */
  ghost predicate TextAt(d: seq<Byte>, p: nat, t: seq<Byte>, stop: Byte) {
    && p + |t| < |d|
    && (forall i :: 0 <= i < |t| ==> d[p + i] == t[i])
    && (d[p + |t|] == stop || d[p + |t|] == 0)
  }

  lemma {:induction false} TextIsRead(d: seq<Byte>, p: nat, t: seq<Byte>, stop: Byte)
    requires TextAt(d, p, t, stop) && CString(t) && stop !in t
    ensures TextFrom(d, p, stop) == t
    decreases |t|
  {
    if t != [] {
      assert d[p + 0] == t[0] && t[0] in t;
      assert TextAt(d, p + 1, t[1..], stop) by {
        forall i | 0 <= i < |t[1..]| ensures d[p + 1 + i] == t[1..][i] {
          assert d[p + (i + 1)] == t[i + 1];
        }
      }
      TextIsRead(d, p + 1, t[1..], stop);
    }
  }

  function Size(s: Slot): (n: nat)
    ensures MDLK <= n
  {
    MDLK + LevelSize(s.level)
  }

  /** The record s occupies the bytes from off on. */
  ghost predicate SlotAt(d: seq<Byte>, off: nat, s: Slot) {
    && off + Size(s) <= |d| && MDLK < Size(s)
    && d[off + MDLK] == s.level
    && match s
       case Dead(_) => d[off] == DELETED
       case Live(name, _, text) =>
         && TextAt(d, off, name, KEY_END)
         && (text.Some? ==> TextAt(d, off + MDLK + 1, text.value, VALUE_END))
  }

  function End(off: nat, slots: seq<Slot>): (e: nat)
    ensures off <= e
    decreases |slots|
  {
    if slots == [] then off else End(off + Size(slots[0]), slots[1..])
  }

  /** The records follow one another from off on. */
  ghost predicate Laid(d: seq<Byte>, off: nat, slots: seq<Slot>)
    decreases |slots|
  {
    slots != [] ==> SlotAt(d, off, slots[0]) && Laid(d, off + Size(slots[0]), slots[1..])
  }

  /** The scan stops at a byte that makes read_key return the empty key. */
  ghost predicate AtEnd(d: seq<Byte>, e: nat) {
    e < |d| && (d[e] == 0 || d[e] == KEY_END)
  }

  ghost predicate Framed(d: seq<Byte>, slots: seq<Slot>) {
    Laid(d, 0, slots) && AtEnd(d, End(0, slots))
  }

  /** The data file d holds these records; a new file is empty. */
  ghost predicate Stored(d: seq<Byte>, slots: seq<Slot>) {
    GoodSlots(slots) && if d == [] then slots == [] else Framed(d, slots)
  }

  /** Nothing but the records and one zero byte. */
  ghost predicate Exact(d: seq<Byte>, slots: seq<Slot>) {
    d != [] ==> |d| == End(0, slots) + 1 && d[End(0, slots)] == 0
  }

  ghost predicate SameBytes(d: seq<Byte>, d': seq<Byte>, lo: nat, hi: nat) {
    hi <= |d| && hi <= |d'| && forall i :: lo <= i < hi ==> d'[i] == d[i]
  }

  lemma SlotFrame(d: seq<Byte>, d': seq<Byte>, off: nat, s: Slot)
    requires SlotAt(d, off, s) && GoodSlot(s) && SameBytes(d, d', off, off + Size(s))
    ensures SlotAt(d', off, s)
  {
  }

  lemma {:induction false} LaidEnd(d: seq<Byte>, off: nat, slots: seq<Slot>)
    requires Laid(d, off, slots) && off <= |d|
    ensures End(off, slots) <= |d|
    decreases |slots|
  {
    if slots != [] {
      LaidEnd(d, off + Size(slots[0]), slots[1..]);
    }
  }

  /** Records keep their meaning when the bytes under them stay. */
  lemma {:induction false} LaidFrame(d: seq<Byte>, d': seq<Byte>, off: nat, slots: seq<Slot>)
    requires Laid(d, off, slots) && GoodSlots(slots) && SameBytes(d, d', off, End(off, slots))
    ensures Laid(d', off, slots)
    decreases |slots|
  {
    if slots != [] {
      var next := off + Size(slots[0]);
      assert GoodSlot(slots[0]);
      SlotFrame(d, d', off, slots[0]);
      LaidFrame(d, d', next, slots[1..]);
    }
  }

  lemma {:induction false} EndConcat(off: nat, a: seq<Slot>, b: seq<Slot>)
    ensures End(off, a + b) == End(End(off, a), b)
    decreases |a|
  {
    if a == [] {
      assert a + b == b;
    } else {
      assert (a + b)[1..] == a[1..] + b;
      EndConcat(off + Size(a[0]), a[1..], b);
    }
  }

  lemma {:induction false} LaidConcat(d: seq<Byte>, off: nat, a: seq<Slot>, b: seq<Slot>)
    ensures Laid(d, off, a + b) <==> Laid(d, off, a) && Laid(d, End(off, a), b)
    decreases |a|
  {
    if a == [] {
      assert a + b == b;
    } else {
      assert (a + b)[1..] == a[1..] + b;
      LaidConcat(d, off + Size(a[0]), a[1..], b);
    }
  }

  // ----- the four ways a put changes the bytes -----

  /** Value and end mark written behind the level byte. */
  function Overwritten(d: seq<Byte>, off: nat, value: seq<Byte>): seq<Byte> {
    WriteAt(WriteAt(d, off + MDLK + 1, value), off + MDLK + 1 + |value|, [VALUE_END])
  }

  lemma OverwriteBytes(d: seq<Byte>, off: nat, value: seq<Byte>)
    requires off + MDLK + 1 + |value| < |d|
    ensures var r := Overwritten(d, off, value);
      && |r| == |d|
      && (forall i :: 0 <= i < |d| ==>
            r[i] == if off + MDLK + 1 <= i < off + MDLK + 1 + |value| then value[i - (off + MDLK + 1)]
                    else if i == off + MDLK + 1 + |value| then VALUE_END else d[i])
  {
  }

  /** A written value reads as its part before the first end mark. */
  lemma WrittenText(d: seq<Byte>, p: nat, value: seq<Byte>, stop: Byte)
    requires CString(value) && p + |value| < |d| && d[p + |value|] == stop
    requires forall i :: 0 <= i < |value| ==> d[p + i] == value[i]
    ensures TextAt(d, p, UpTo(value, stop), stop)
  {
    var t := UpTo(value, stop);
    assert forall i :: 0 <= i < |t| ==> t[i] == value[i];
    if |t| < |value| {
      assert d[p + |t|] == value[|t|];
    }
  }

  lemma OverwriteSlot(d: seq<Byte>, off: nat, s: Slot, value: seq<Byte>)
    requires SlotAt(d, off, s) && GoodSlot(s) && s.Live?
    requires CString(value) && |value| + 2 <= LevelSize(s.level)
    ensures SlotAt(Overwritten(d, off, value), off, s.(text := Some(UpTo(value, VALUE_END))))
  {
    OverwriteBytes(d, off, value);
    WrittenText(Overwritten(d, off, value), off + MDLK + 1, value, VALUE_END);
  }

  /** An overwrite cut short anywhere leaves the record readable but for its text. */
  lemma TornOverwriteSlot(d: seq<Byte>, off: nat, s: Slot, part: seq<Byte>)
    requires SlotAt(d, off, s) && GoodSlot(s) && s.Live? && |part| + 1 <= LevelSize(s.level)
    ensures SlotAt(WriteAt(d, off + MDLK + 1, part), off, s.(text := None))
  {
  }

  lemma DeleteSlot(d: seq<Byte>, off: nat, s: Slot)
    requires SlotAt(d, off, s) && GoodSlot(s)
    ensures SlotAt(WriteAt(d, off, [DELETED]), off, Dead(s.level))
  {
  }

  /** Key, end mark, level, value, end mark, and a zero byte at the record's end. */
  function WithRecord(d: seq<Byte>, off: nat, e: Entry): seq<Byte>
    requires 1 <= e.level <= 17
  {
    var d1 := WriteAt(d, off, e.key);
    var d2 := WriteAt(d1, off + |e.key|, [KEY_END]);
    var d3 := WriteAt(d2, off + MDLK, [e.level]);
    var d4 := WriteAt(d3, off + MDLK + 1, e.value);
    var d5 := WriteAt(d4, off + MDLK + 1 + |e.value|, [VALUE_END]);
    WriteAt(d5, off + MDLK + LevelSize(e.level), [0])
  }

  /** r is d with the record of e written at off. */
  ghost predicate HasRecord(d: seq<Byte>, r: seq<Byte>, off: nat, e: Entry) {
    var size := MDLK + LevelSize(e.level);
    && |r| == (if |d| <= off + size then off + size + 1 else |d|)
    && off + |e.key| < off + MDLK < off + MDLK + 1 + |e.value| < off + size
    && SameBytes(d, r, 0, off)
    && (forall i :: 0 <= i < |e.key| ==> r[off + i] == e.key[i])
    && r[off + |e.key|] == KEY_END
    && r[off + MDLK] == e.level
    && (forall i :: 0 <= i < |e.value| ==> r[off + MDLK + 1 + i] == e.value[i])
    && r[off + MDLK + 1 + |e.value|] == VALUE_END
    && r[off + size] == 0
  }

  /** The first half of a record: key, end mark and level. */
  function WithHead(d: seq<Byte>, off: nat, e: Entry): seq<Byte>
    requires 1 <= e.level <= 17
  {
    WriteAt(WriteAt(WriteAt(d, off, e.key), off + |e.key|, [KEY_END]), off + MDLK, [e.level])
  }

  ghost predicate HasHead(d: seq<Byte>, r: seq<Byte>, off: nat, e: Entry) {
    && off + |e.key| < off + MDLK < |r|
    && |r| == (if |d| <= off + MDLK then off + MDLK + 1 else |d|)
    && SameBytes(d, r, 0, off)
    && (forall i :: 0 <= i < |e.key| ==> r[off + i] == e.key[i])
    && r[off + |e.key|] == KEY_END && r[off + MDLK] == e.level
  }

  lemma WithHeadBytes(d: seq<Byte>, off: nat, e: Entry)
    requires GoodEntry(e) && off <= |d|
    ensures HasHead(d, WithHead(d, off, e), off, e)
  {
    hide LevelSize, CString;
  }

  lemma WithTailBytes(d: seq<Byte>, h: seq<Byte>, off: nat, e: Entry)
    requires GoodEntry(e) && HasHead(d, h, off, e)
    ensures HasRecord(d, WriteAt(WriteAt(WriteAt(h, off + MDLK + 1, e.value), off + MDLK + 1 + |e.value|, [VALUE_END]),
                                 off + MDLK + LevelSize(e.level), [0]), off, e)
  {
    hide LevelSize, CString;
  }

  lemma WithRecordBytes(d: seq<Byte>, off: nat, e: Entry)
    requires GoodEntry(e) && off <= |d|
    ensures HasRecord(d, WithRecord(d, off, e), off, e)
  {
    hide LevelSize, CString, WriteAt, HasRecord, HasHead;
    WithHeadBytes(d, off, e);
    WithTailBytes(d, WithHead(d, off, e), off, e);
  }

  /** What an append writes is what the model says it appends. */
  lemma RecordIsAppended(d: seq<Byte>, r: seq<Byte>, off: nat, e: Entry)
    requires GoodEntry(e) && HasRecord(d, r, off, e)
    ensures Laid(r, off, Appended(e)) && AtEnd(r, End(off, Appended(e)))
  {
    hide LevelSize;
    var name := UpTo(e.key, KEY_END);
    WrittenText(r, off, e.key, KEY_END);
    WrittenText(r, off + MDLK + 1, e.value, VALUE_END);
    if name == [] {
      assert |e.key| > 0 ==> r[off + 0] == e.key[0] == KEY_END;
    } else {
      assert r[off + 0] == e.key[0] == name[0];
      var s := Appended(e)[0];
      assert SlotAt(r, off, s);
      assert Appended(e) == [s] && Appended(e)[1..] == [];
    }
  }

  // ----- the scan of a put -----

  /** A scan standing at off has the records in rest ahead of it. */
  ghost predicate Ahead(d: seq<Byte>, rest: seq<Slot>, off: nat) {
    GoodSlots(rest) && Laid(d, off, rest) && AtEnd(d, End(off, rest))
  }

  /** The scan of a put stands at off: the records in done are behind it, those in rest ahead, and the put
      of e will have turned the whole file into done + Put(rest, e).  The flag exact records that
      the file held nothing else from the start. */
  ghost predicate Scanning(d: seq<Byte>, exact: bool, target: seq<Slot>, e: Entry, done: seq<Slot>, rest: seq<Slot>, off: nat) {
    && GoodSlots(done) && Laid(d, 0, done) && off == End(0, done)
    && Ahead(d, rest, off)
    && target == done + Put(rest, e)
    && (exact ==> Exact(d, done + rest))
  }

  lemma ScanStarts(d: seq<Byte>, exact: bool, slots: seq<Slot>, e: Entry)
    requires Stored(d, slots) && d != [] && (exact ==> Exact(d, slots))
    ensures Scanning(d, exact, Put(slots, e), e, [], slots, 0)
  {
    assert [] + slots == slots;
  }

  /** What the scan sees of the record ahead of it. */
  lemma SlotAhead(d: seq<Byte>, rest: seq<Slot>, off: nat)
    requires Ahead(d, rest, off) && rest != []
    ensures GoodSlot(rest[0]) && SlotAt(d, off, rest[0]) && off + Size(rest[0]) < |d|
    ensures off + MDLK < |d| && d[off + MDLK] == rest[0].level && 1 <= rest[0].level <= 17
    ensures d[off] == DELETED <==> rest[0].Dead?
    ensures rest[0].Live? ==> TextFrom(d, off, KEY_END) == rest[0].name
  {
    LaidEnd(d, off + Size(rest[0]), rest[1..]);
    if rest[0].Live? {
      TextIsRead(d, off, rest[0].name, KEY_END);
      assert d[off + 0] == rest[0].name[0];
    }
  }

  lemma NoSlotAhead(d: seq<Byte>, rest: seq<Slot>, off: nat)
    requires Ahead(d, rest, off) && rest == []
    ensures off < |d| && d[off] != DELETED && TextFrom(d, off, KEY_END) == []
  {
  }

  lemma EmptyFileText(off: nat)
    ensures TextFrom([], off, KEY_END) == []
  {
  }

  lemma NextAhead(d: seq<Byte>, rest: seq<Slot>, off: nat)
    requires Ahead(d, rest, off) && rest != []
    ensures Ahead(d, rest[1..], off + Size(rest[0]))
  {
    assert forall i :: 0 <= i < |rest[1..]| ==> rest[1..][i] == rest[i + 1];
  }

  /** Where a reader finds the text of the record ahead. */
  lemma TextAhead(d: seq<Byte>, rest: seq<Slot>, off: nat)
    requires Ahead(d, rest, off) && rest != [] && rest[0].Live? && rest[0].text.Some?
    ensures TextFrom(d, off + MDLK + 1, VALUE_END) == rest[0].text.value
  {
    hide LevelSize;
    assert GoodSlot(rest[0]);
    TextIsRead(d, off + MDLK + 1, rest[0].text.value, VALUE_END);
  }

  lemma LaidSnoc(d: seq<Byte>, done: seq<Slot>, s: Slot)
    requires Laid(d, 0, done) && SlotAt(d, End(0, done), s) && GoodSlots(done) && GoodSlot(s)
    ensures Laid(d, 0, done + [s]) && End(0, done + [s]) == End(0, done) + Size(s) && GoodSlots(done + [s])
  {
    LaidConcat(d, 0, done, [s]);
    EndConcat(0, done, [s]);
    assert [s][1..] == [];
    assert End(End(0, done), [s]) == End(End(0, done) + Size(s), [s][1..]);
    assert Laid(d, End(0, done), [s]);
  }

  /** The records take the same room whatever has become of one of them. */
  lemma SameTotal(done: seq<Slot>, rest: seq<Slot>, s: Slot)
    requires rest != [] && s.level == rest[0].level
    ensures End(0, done + rest) == End(0, (done + [s]) + rest[1..])
  {
    hide *;
    EndConcat(0, done, rest);
    EndConcat(0, done + [s], rest[1..]);
    EndConcat(0, done, [s]);
    EndOfFirst(End(0, done), rest);
    EndOfFirst(End(0, done), [s]);
    assert [s][1..] == [];
    EndOfNone(End(0, done) + Size(s));
    SameSize(s, rest[0]);
  }

  lemma EndOfFirst(off: nat, slots: seq<Slot>)
    requires slots != []
    ensures End(off, slots) == End(off + Size(slots[0]), slots[1..])
  {
  }

  lemma EndOfNone(off: nat)
    ensures End(off, []) == off
  {
  }

  lemma SameSize(s: Slot, t: Slot)
    requires s.level == t.level
    ensures Size(s) == Size(t)
  {
  }

  lemma ScanSkips(d: seq<Byte>, exact: bool, target: seq<Slot>, e: Entry, done: seq<Slot>, rest: seq<Slot>, off: nat)
    requires Scanning(d, exact, target, e, done, rest, off) && rest != [] && !Named(rest[0], e.key)
    ensures Scanning(d, exact, target, e, done + [rest[0]], rest[1..], off + Size(rest[0]))
  {
    hide LevelSize;
    assert GoodSlot(rest[0]);
    LaidSnoc(d, done, rest[0]);
    SameTotal(done, rest, rest[0]);
    assert done + Put(rest, e) == done + [rest[0]] + Put(rest[1..], e);
  }

  /** A record changed in its own bytes only leaves its neighbours readable. */
  lemma NeighboursStay(d: seq<Byte>, d': seq<Byte>, done: seq<Slot>, rest: seq<Slot>, off: nat)
    requires Laid(d, 0, done) && off == End(0, done) && Laid(d, off, rest) && rest != [] && off <= |d|
    requires GoodSlots(done) && GoodSlots(rest)
    requires |d'| == |d| && SameBytes(d, d', 0, off) && forall i :: off + Size(rest[0]) <= i < |d| ==> d'[i] == d[i]
    ensures Laid(d', 0, done) && Laid(d', off + Size(rest[0]), rest[1..])
  {
    hide LevelSize, SlotAt;
    LaidEnd(d, off, rest);
    LaidFrame(d, d', 0, done);
    assert forall i :: 0 <= i < |rest[1..]| ==> rest[1..][i] == rest[i + 1];
    LaidFrame(d, d', off + Size(rest[0]), rest[1..]);
  }

  lemma {:induction false} NotEmptied(off: nat, rest: seq<Slot>)
    requires rest != []
    ensures off + Size(rest[0]) <= End(off, rest)
  {
  }

  lemma ScanDeletes(d: seq<Byte>, exact: bool, target: seq<Slot>, e: Entry, done: seq<Slot>, rest: seq<Slot>, off: nat)
    requires Scanning(d, exact, target, e, done, rest, off) && rest != []
    requires Named(rest[0], e.key) && rest[0].level < e.level
    ensures Scanning(WriteAt(d, off, [DELETED]), exact, target, e, done + [Dead(rest[0].level)], rest[1..], off + Size(rest[0]))
    ensures Ahead(WriteAt(d, off, [DELETED]), rest[1..], off + Size(rest[0]))
  {
    hide LevelSize, SlotAt, Laid, End;
    SlotAhead(d, rest, off);
    assert Laid(d, off, rest) && End(0, done) <= |d| by { LaidEnd(d, 0, done); }
    NeighboursStay(d, WriteAt(d, off, [DELETED]), done, rest, off);
    DeleteSlot(d, off, rest[0]);
    LaidSnoc(WriteAt(d, off, [DELETED]), done, Dead(rest[0].level));
    SameTotal(done, rest, Dead(rest[0].level));
    EndConcat(0, done, rest);
    EndOfFirst(off, rest);
    NotEmptied(off, rest);
    NextAhead(d, rest, off);
    assert done + Put(rest, e) == done + [Dead(rest[0].level)] + Put(rest[1..], e);
  }

  lemma LaidReplace(d': seq<Byte>, done: seq<Slot>, rest: seq<Slot>, off: nat, s: Slot)
    requires off == End(0, done) && rest != [] && s.level == rest[0].level
    requires Laid(d', 0, done) && SlotAt(d', off, s) && Laid(d', off + Size(rest[0]), rest[1..])
    ensures Laid(d', 0, done + ([s] + rest[1..]))
    ensures End(0, done + ([s] + rest[1..])) == End(off, rest) == End(0, done + rest)
  {
    hide LevelSize, SlotAt;
    assert ([s] + rest[1..])[1..] == rest[1..];
    LaidConcat(d', 0, done, [s] + rest[1..]);
    EndConcat(0, done, [s] + rest[1..]);
    EndConcat(0, done, rest);
  }

  /** The put ends in place. */
  lemma ScanOverwrites(d: seq<Byte>, exact: bool, target: seq<Slot>, e: Entry, done: seq<Slot>, rest: seq<Slot>, off: nat)
    requires Scanning(d, exact, target, e, done, rest, off) && rest != [] && GoodEntry(e)
    requires Named(rest[0], e.key) && rest[0].level >= e.level
    ensures Framed(Overwritten(d, off, e.value), target)
    ensures exact ==> Exact(Overwritten(d, off, e.value), target)
  {
    hide LevelSize, SlotAt;
    assert GoodSlot(rest[0]);
    EndConcat(0, done, rest);
    NotEmptied(off, rest);
    LevelSizeIsMonotone(e.level, rest[0].level);
    SlotAhead(d, rest, off);
    OverwriteBytes(d, off, e.value);
    OverwriteSlot(d, off, rest[0], e.value);
    hide Overwritten;
    var d', s := Overwritten(d, off, e.value), rest[0].(text := Some(UpTo(e.value, VALUE_END)));
    LaidEnd(d, off, rest);
    NeighboursStay(d, d', done, rest, off);
    LaidReplace(d', done, rest, off, s);
    assert Put(rest, e) == [s] + rest[1..];
  }

  /** The put ends with an append over the end mark. */
  lemma ScanAppends(d: seq<Byte>, exact: bool, target: seq<Slot>, e: Entry, done: seq<Slot>, off: nat, r: seq<Byte>)
    requires Scanning(d, exact, target, e, done, [], off) && GoodEntry(e)
    requires HasRecord(WriteAt(d, off, [0]), r, off, e)
    ensures Framed(r, target) && off + MDLK < |r|
    ensures exact && Appended(e) != [] ==> Exact(r, target)
  {
    hide LevelSize, SlotAt, HasRecord, Laid, GoodSlot, Appended;
    assert done + [] == done && done + Put([], e) == done + Appended(e);
    var d0 := WriteAt(d, off, [0]);
    RecordIsAppended(d0, r, off, e);
    RecordLength(d0, r, off, e);
    assert SameBytes(d, r, 0, off);
    LaidFrame(d, r, 0, done);
    LaidConcat(r, 0, done, Appended(e));
    EndConcat(0, done, Appended(e));
    if exact && Appended(e) != [] {
      AppendedEnd(off, e);
    }
  }

  lemma RecordLength(d: seq<Byte>, r: seq<Byte>, off: nat, e: Entry)
    requires HasRecord(d, r, off, e)
    ensures var size := MDLK + LevelSize(e.level);
      |r| == (if |d| <= off + size then off + size + 1 else |d|) && off + size < |r| && r[off + size] == 0
    ensures SameBytes(d, r, 0, off) && off + MDLK < |r|
  {
    hide LevelSize;
  }

  lemma AppendedEnd(off: nat, e: Entry)
    requires Appended(e) != []
    ensures End(off, Appended(e)) == off + MDLK + LevelSize(e.level)
  {
    hide LevelSize, UpTo;
    EndOfFirst(off, Appended(e));
    assert Appended(e)[1..] == [];
  }

  /** The first record of a new file. */
  lemma FirstRecord(r: seq<Byte>, e: Entry)
    requires GoodEntry(e) && HasRecord([], r, 0, e)
    ensures Framed(r, Put([], e)) && r != []
    ensures UpTo(e.key, KEY_END) != [] ==> Exact(r, Put([], e))
  {
    hide LevelSize;
    RecordIsAppended([], r, 0, e);
    if UpTo(e.key, KEY_END) != [] {
      assert Appended(e)[1..] == [];
      assert End(0, Appended(e)) == End(Size(Appended(e)[0]), Appended(e)[1..]);
    }
  }

  // ----- files caught in the middle of a put -----

  /** Changing the bytes of record i so that they read as s changes that record only. */
  lemma RecordChanged(d: seq<Byte>, d': seq<Byte>, slots: seq<Slot>, i: nat, s: Slot)
    requires Stored(d, slots) && i < |slots| && GoodSlot(s) && s.level == slots[i].level
    requires var off := End(0, slots[..i]);
      && |d'| == |d| && SameBytes(d, d', 0, off) && SlotAt(d', off, s)
      && forall j :: off + Size(s) <= j < |d| ==> d'[j] == d[j]
    ensures Stored(d', slots[i := s])
  {
    hide LevelSize, SlotAt, Laid, End, GoodSlot, AtEnd;
    var done, rest, off := slots[..i], slots[i..], End(0, slots[..i]);
    CutSlots(slots, i, s);
    assert slots != [];
    LaidConcat(d, 0, done, rest);
    EndConcat(0, done, rest);
    SameSize(s, rest[0]);
    FindRecord(d, slots, i);
    NeighboursStay(d, d', done, rest, off);
    LaidReplace(d', done, rest, off, s);
    NotEmptied(off, rest);
    EndStays(d, d', End(0, slots), off + Size(s));
  }

  lemma CutSlots(slots: seq<Slot>, i: nat, s: Slot)
    requires i < |slots|
    ensures slots == slots[..i] + slots[i..] && slots[i..][0] == slots[i]
    ensures slots[i := s] == slots[..i] + ([s] + slots[i..][1..])
    ensures GoodSlots(slots) ==> GoodSlots(slots[..i]) && GoodSlots(slots[i..])
    ensures GoodSlots(slots) && GoodSlot(s) ==> GoodSlots(slots[i := s])
  {
    hide GoodSlot, GoodSlots;
    PartsAreGood(slots, i, s);
    assert slots[i..] == [slots[i]] + slots[i + 1..];
    assert slots[i..][1..] == slots[i + 1..];
    assert slots[i := s] == slots[..i] + [s] + slots[i + 1..];
  }

  lemma PartsAreGood(slots: seq<Slot>, i: nat, s: Slot)
    requires i < |slots|
    ensures GoodSlots(slots) ==> GoodSlots(slots[..i]) && GoodSlots(slots[i..])
    ensures GoodSlots(slots) && GoodSlot(s) ==> GoodSlots(slots[i := s])
  {
    hide GoodSlot;
    assert forall j :: 0 <= j < |slots[i..]| ==> slots[i..][j] == slots[i + j];
  }

  lemma EndStays(d: seq<Byte>, d': seq<Byte>, e: nat, from: nat)
    requires AtEnd(d, e) && from <= e && |d'| == |d| && forall j :: from <= j < |d| ==> d'[j] == d[j]
    ensures AtEnd(d', e)
  {
  }

  /** A put stopped anywhere inside an overwrite, some part of value and end mark being written. */
  lemma StoppedInOverwrite(d: seq<Byte>, slots: seq<Slot>, i: nat, part: seq<Byte>)
    requires Stored(d, slots) && i < |slots| && slots[i].Live? && |part| + 1 <= LevelSize(slots[i].level)
    ensures Stored(WriteAt(d, End(0, slots[..i]) + MDLK + 1, part), slots[i := slots[i].(text := None)])
  {
    hide LevelSize, End, SlotAt, Stored;
    var off, s := End(0, slots[..i]), slots[i].(text := None);
    FindRecord(d, slots, i);
    TornOverwriteSlot(d, off, slots[i], part);
    RecordChanged(d, WriteAt(d, off + MDLK + 1, part), slots, i, s);
  }

  /** A put stopped just after it deleted a record. */
  lemma StoppedAfterDelete(d: seq<Byte>, slots: seq<Slot>, i: nat)
    requires Stored(d, slots) && i < |slots|
    ensures Stored(WriteAt(d, End(0, slots[..i]), [DELETED]), slots[i := Dead(slots[i].level)])
  {
    hide LevelSize;
    FindRecord(d, slots, i);
    DeleteSlot(d, End(0, slots[..i]), slots[i]);
    RecordChanged(d, WriteAt(d, End(0, slots[..i]), [DELETED]), slots, i, Dead(slots[i].level));
  }

  lemma FindRecord(d: seq<Byte>, slots: seq<Slot>, i: nat)
    requires Stored(d, slots) && i < |slots|
    ensures GoodSlot(slots[i]) && SlotAt(d, End(0, slots[..i]), slots[i])
    ensures End(0, slots[..i]) + Size(slots[i]) < |d|
  {
    hide LevelSize;
    assert slots == slots[..i] + slots[i..];
    LaidConcat(d, 0, slots[..i], slots[i..]);
    EndConcat(0, slots[..i], slots[i..]);
    NotEmptied(End(0, slots[..i]), slots[i..]);
  }
}
