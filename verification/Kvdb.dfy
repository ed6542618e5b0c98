/** The key-value store's code: files with a cursor, the scan of a put and of a get, the journal and
    its replay. */
module Kvdb {
  import opened KvSlots
  import opened KvBytes
  import opened KvCrash
  import opened KvJournal

  /** An open file: its bytes and the cursor of its descriptor. */
  class File {
    var data: seq<Byte>
    var pos: nat

    constructor (data: seq<Byte>)
      ensures this.data == data && pos == 0
    {
      this.data, pos := data, 0;
    }

    /** read of one byte; at the end of the file the variable keeps its value. */
    method Read(was: Byte) returns (n: nat, c: Byte)
      modifies this`pos
      ensures if old(pos) < |data| then n == 1 && c == data[old(pos)] && pos == old(pos) + 1
              else n == 0 && c == was && pos == old(pos)
    {
      if pos < |data| {
        n, c := 1, data[pos];
        pos := pos + 1;
      } else {
        n, c := 0, was;
      }
    }

    method Write(bs: seq<Byte>)
      modifies this
      ensures data == WriteAt(old(data), old(pos), bs) && pos == old(pos) + |bs|
    {
      data := WriteAt(data, pos, bs);
      pos := pos + |bs|;
    }

    method SeekSet(p: nat)
      modifies this`pos
      ensures pos == p
    {
      pos := p;
    }

    /** lseek with SEEK_CUR; it fails, and moves nothing, when it would go before the start. */
    method SeekCur(delta: int)
      modifies this`pos
      ensures pos == if old(pos) + delta >= 0 then old(pos) + delta else old(pos)
    {
      if pos + delta >= 0 {
        pos := pos + delta;
      }
    }

    /** read_key and read_val, which differ in the stop byte only. */
    method ReadText(stop: Byte) returns (text: seq<Byte>)
      modifies this`pos
      ensures text == TextFrom(data, old(pos), stop) && pos == AfterText(data, old(pos), stop)
    {
      hide TextFrom;
      text := [];
      TextStarts(data, pos, stop);
      var n, c := Read(0);
      while n > 0 && c != stop && c != 0
        invariant old(pos) + |text| <= pos
        invariant n == 0 ==> old(pos) + |text| == pos && pos >= |data|
        invariant n > 0 ==> old(pos) + |text| + 1 == pos <= |data| && c == data[pos - 1]
        invariant text + TextFrom(data, old(pos) + |text|, stop) == TextFrom(data, old(pos), stop)
        invariant n == 0 || c == stop || c == 0 ==> TextFrom(data, old(pos) + |text|, stop) == []
        invariant n > 0 && c != stop && c != 0 ==>
          TextFrom(data, old(pos) + |text|, stop) == [c] + TextFrom(data, old(pos) + |text| + 1, stop)
        decreases |data| - pos, n
      {
        text := text + [c];
        TextStarts(data, pos, stop);
        n, c := Read(c);
      }
    }
  }

  /** Leave the record ahead, of which some bytes have been read, behind. */
  method SkipRest(f: File, ghost rest: seq<Slot>, ghost off: nat, passed: nat)
    requires Ahead(f.data, rest, off) && rest != [] && passed <= MDLK && f.pos == off + passed
    modifies f`pos
    ensures f.pos == off + Size(rest[0]) && Ahead(f.data, rest[1..], f.pos)
  {
    hide Laid, End, AtEnd;
    SlotAhead(f.data, rest, off);
    NextAhead(f.data, rest, off);
    f.SeekCur(MDLK - passed);
    var n, level := f.Read(0);
    f.SeekCur(LevelSize(level) - 1);
  }

  /** Value and end mark, written behind the level byte. */
  method WriteValue(f: File, value: seq<Byte>, ghost off: nat)
    requires f.pos == off + MDLK + 1
    modifies f
    ensures f.data == Overwritten(old(f.data), off, value)
  {
    hide WriteAt;
    f.Write(value);
    f.Write([VALUE_END]);
  }

  /** Back to the record's first byte, which becomes the deletion mark, and on behind the record. */
  method MarkDeleted(f: File, ghost off: nat, level: Byte)
    requires f.pos == off + MDLK + 1
    modifies f
    ensures f.data == WriteAt(old(f.data), off, [DELETED]) && f.pos == off + MDLK + LevelSize(level)
  {
    hide WriteAt, LevelSize;
    f.SeekCur(-1);
    f.SeekCur(-MDLK);
    f.Write([DELETED]);
    f.SeekCur(MDLK - 1);
    f.SeekCur(LevelSize(level));
  }

  /** The scan has found a record of its own key, and its cursor is behind the name: overwrite the
      record if it is large enough, delete it otherwise. */
  method PutOver(f: File, e: Entry, ghost exact: bool, ghost target: seq<Slot>, ghost done: seq<Slot>,
                 ghost rest: seq<Slot>, ghost off: nat) returns (flag: bool)
    requires Scanning(f.data, exact, target, e, done, rest, off) && Ahead(f.data, rest, off) && GoodEntry(e)
    requires rest != [] && Named(rest[0], e.key) && f.pos == off + |e.key| + 1
    modifies f
    ensures flag ==> Framed(f.data, target) && (exact ==> Exact(f.data, target))
    ensures !flag ==>
      Scanning(f.data, exact, target, e, done + [Dead(rest[0].level)], rest[1..], f.pos) && Ahead(f.data, rest[1..], f.pos)
  {
    hide LevelSize, Framed, Exact, WriteAt, Scanning, SlotAt, Overwritten, TextFrom, GoodSlot;
    SlotAhead(f.data, rest, off);
    f.SeekCur(MDLK - |e.key| - 1);
    var n, oldlevel := f.Read(0);
    if oldlevel >= e.level {
      ScanOverwrites(f.data, exact, target, e, done, rest, off);
      WriteValue(f, e.value, off);
      f.SeekCur(LevelSize(oldlevel) - |e.value| - 1);
      flag := true;
    } else {
      ScanDeletes(f.data, exact, target, e, done, rest, off);
      MarkDeleted(f, off, oldlevel);
      flag := false;
    }
  }

  /** The scan of a put: it ends with an overwrite, or behind the end mark, which it rewrites; d are
      the bytes it has left in front of that. */
  method ScanPut(f: File, e: Entry, ghost exact: bool, ghost slots: seq<Slot>)
    returns (flag: bool, ghost done: seq<Slot>, ghost d: seq<Byte>)
    requires Stored(f.data, slots) && f.data != [] && GoodEntry(e) && f.pos == 0
    requires exact ==> Exact(f.data, slots)
    modifies f
    ensures flag ==> Framed(f.data, Put(slots, e)) && (exact ==> Exact(f.data, Put(slots, e)))
    ensures !flag ==> f.pos > 0 && Scanning(d, exact, Put(slots, e), e, done, [], f.pos - 1)
    ensures !flag ==> f.data == WriteAt(d, f.pos - 1, [0])
  {
    hide LevelSize, SlotAt, Framed, Exact, TextAt, Put;
    ghost var target, rest := Put(slots, e), slots;
    done := [];
    flag := false;
    d := f.data;
    ScanStarts(f.data, exact, slots, e);
    hide Scanning;
    while true
      invariant Scanning(f.data, exact, target, e, done, rest, f.pos) && Ahead(f.data, rest, f.pos) && d == f.data
      decreases |rest|
    {
      ghost var off := f.pos;
      if rest == [] {
        NoSlotAhead(f.data, rest, off);
      } else {
        SlotAhead(f.data, rest, off);
      }
      var n, oldlevel := f.Read(0);
      if oldlevel == DELETED {
        SkipRest(f, rest, off, 1);
        ScanSkips(f.data, exact, target, e, done, rest, off);
        done, rest := done + [rest[0]], rest[1..];
        continue;
      }
      f.SeekCur(-1);
      var oldkey := f.ReadText(KEY_END);
      if |oldkey| == 0 {
        f.SeekCur(-1);
        f.Write([0]);
        break;
      }
      if oldkey == e.key {
        flag := PutOver(f, e, exact, target, done, rest, off);
        if flag {
          break;
        }
        done, rest, d := done + [Dead(rest[0].level)], rest[1..], f.data;
        continue;
      }
      SkipRest(f, rest, off, |oldkey| + 1);
      ScanSkips(f.data, exact, target, e, done, rest, off);
      done, rest := done + [rest[0]], rest[1..];
    }
  }

  /** Write a record at the cursor and the new end mark behind it. */
  method WriteRecord(f: File, e: Entry)
    requires GoodEntry(e)
    modifies f
    ensures f.data == WithRecord(old(f.data), old(f.pos), e)
  {
    hide WriteAt, LevelSize, CString;
    f.Write(e.key);
    f.Write([KEY_END]);
    f.SeekCur(MDLK - |e.key| - 1);
    f.Write([e.level]);
    f.Write(e.value);
    f.Write([VALUE_END]);
    f.SeekCur(LevelSize(e.level) - |e.value| - 2);
    f.Write([0]);
  }

  /** The scan has come to the end without an overwrite: append over the end mark. */
  method AppendRecord(f: File, e: Entry, ghost exact: bool, ghost target: seq<Slot>, ghost done: seq<Slot>, ghost d: seq<Byte>)
    requires GoodEntry(e) && f.pos > 0 && Scanning(d, exact, target, e, done, [], f.pos - 1)
    requires f.data == WriteAt(d, f.pos - 1, [0])
    modifies f
    ensures Framed(f.data, target) && f.data != []
    ensures exact && Appended(e) != [] ==> Exact(f.data, target)
  {
    hide LevelSize, Laid, HasRecord, WithRecord, Scanning, Exact, Appended;
    f.SeekCur(-1);
    WithRecordBytes(f.data, f.pos, e);
    ScanAppends(d, exact, target, e, done, f.pos, WithRecord(f.data, f.pos, e));
    WriteRecord(f, e);
  }

  /** rec_put, and the part of kvdb_put behind the journal: the file then holds the records of the
      model's put, and nothing else if that was so before and the key does not read as empty. */
  method DataWrite(f: File, e: Entry, ghost slots: seq<Slot>)
    requires Stored(f.data, slots) && GoodEntry(e)
    modifies f
    ensures Stored(f.data, Put(slots, e))
    ensures Exact(old(f.data), slots) && UpTo(e.key, KEY_END) != [] ==> Exact(f.data, Put(slots, e))
  {
    hide LevelSize, SlotAt, Put, Laid;
    ghost var exact := Exact(f.data, slots);
    PutKeepsGood(slots, e);
    if |f.data| <= 0 {
      f.SeekSet(0);
      WithRecordBytes(f.data, 0, e);
      WriteRecord(f, e);
      FirstRecord(f.data, e);
    } else {
      f.SeekSet(0);
      var flag;
      ghost var done, d;
      flag, done, d := ScanPut(f, e, exact, slots);
      if !flag {
        AppendRecord(f, e, exact, Put(slots, e), done, d);
      }
    }
  }

  /** The scan of kvdb_get, from the start of the file. */
  method ScanGet(f: File, key: seq<Byte>, ghost slots: seq<Slot>) returns (value: Option<seq<Byte>>)
    requires Stored(f.data, slots) && Whole(slots) && CString(key) && f.pos == 0
    modifies f`pos
    ensures value == Get(slots, key)
  {
    hide LevelSize, Laid, End, AtEnd, TextFrom;
    if f.data == [] {
      assert slots == [];
    } else {
      assert Ahead(f.data, slots, 0);
    }
    hide Ahead;
    ghost var rest := slots;
    value := None;
    while true
      invariant f.data != [] ==> Ahead(f.data, rest, f.pos)
      invariant f.data == [] ==> rest == [] && f.pos == 0
      invariant Find(rest, key) == Find(slots, key)
      invariant Whole(rest)
      decreases |rest|
    {
      ghost var off := f.pos;
      if f.data == [] {
        EmptyFileText(off);
      } else if rest == [] {
        NoSlotAhead(f.data, rest, off);
      } else {
        SlotAhead(f.data, rest, off);
      }
      var n, oldlevel := f.Read(0);
      if oldlevel == DELETED {
        SkipRest(f, rest, off, 1);
        rest := rest[1..];
        continue;
      }
      f.SeekCur(-1);
      var oldkey := f.ReadText(KEY_END);
      if |oldkey| == 0 {
        return None;
      }
      if oldkey == key {
        TextAhead(f.data, rest, off);
        f.SeekCur(MDLK - |key| - 1);
        n, oldlevel := f.Read(oldlevel);
        var text := f.ReadText(VALUE_END);
        if |text| == 0 {
          return None;
        }
        return Some(text);
      }
      SkipRest(f, rest, off, |oldkey| + 1);
      rest := rest[1..];
    }
  }

  /** journal_write, at the end of the log. */
  method JournalWrite(log: File, e: Entry)
    requires log.pos == |log.data| && 0 <= e.level < 256
    modifies log
    ensures log.data == old(log.data) + Encoded(e) && log.pos == |log.data|
  {
    Append(log, e.key);
    Append(log, [KEY_END]);
    Append(log, [e.level]);
    Append(log, e.value);
    Append(log, [VALUE_END]);
    Append(log, [COMMITTED]);
  }

  /** A write with the cursor at the end. */
  method Append(f: File, bs: seq<Byte>)
    requires f.pos == |f.data|
    modifies f
    ensures f.data == old(f.data) + bs && f.pos == |f.data|
  {
    f.Write(bs);
  }

  /** One turn of recovery: the next committed entry of the journal, if there is one. */
  method ReadEntry(log: File) returns (some: bool, e: Entry)
    modifies log`pos
    ensures some ==>
      ParseLog(log.data, old(log.pos)) == [e] + ParseLog(log.data, log.pos) && old(log.pos) < log.pos <= |log.data|
    ensures !some ==> ParseLog(log.data, old(log.pos)) == []
  {
    hide TextFrom;
    some, e := false, Entry([], [], 0);
    var key := log.ReadText(KEY_END);
    if |key| == 0 {
      return;
    }
    var n, lev := log.Read(0);
    if n == 0 {
      return;
    }
    var val := log.ReadText(VALUE_END);
    if |val| == 0 {
      return;
    }
    var check;
    n, check := log.Read(0);
    some, e := check == COMMITTED, Entry(key, val, lev);
  }

  /** recovery: replay the journal's entries on the data file. */
  method Recovery(log: File, f: File, ghost slots: seq<Slot>)
    requires log != f && Stored(f.data, slots)
    requires forall e :: e in ParseLog(log.data, 0) ==> GoodEntry(e)
    modifies log`pos, f
    ensures Stored(f.data, PutAll(slots, ParseLog(log.data, 0)))
  {
    hide Stored, ParseLog, GoodEntry, Put, Exact;
    log.SeekSet(0);
    ghost var es := [];
    while true
      invariant ParseLog(log.data, 0) == es + ParseLog(log.data, log.pos)
      invariant Stored(f.data, PutAll(slots, es))
      decreases |log.data| - log.pos
    {
      ghost var p := log.pos;
      var some, e := ReadEntry(log);
      if !some {
        break;
      }
      assert ParseLog(log.data, 0) == (es + [e]) + ParseLog(log.data, log.pos);
      assert ParseLog(log.data, 0)[|es|] == e;
      DataWrite(f, e, PutAll(slots, es));
      assert (es + [e])[..|es|] == es;
      es := es + [e];
    }
    assert es + [] == es;
  }

  /** The level loop of kvdb_put. */
  method ChooseLevel(length: nat) returns (level: nat)
    requires length <= MDLV
    ensures level == LevelFor(length)
  {
    level := 1;
    while length + 2 > LevelSize(level)
      invariant 1 <= level <= 17 && LevelFrom(length, level) == LevelFor(length)
      decreases 17 - level
    {
      level := level + 1;
    }
  }

  /** kvdb_put: journal first, then data; an oversized key or value is refused and changes nothing. */
  method KvdbPut(log: File, f: File, key: seq<Byte>, value: seq<Byte>, ghost slots: seq<Slot>) returns (ret: int)
    requires log != f && log.pos == |log.data| && Stored(f.data, slots) && CString(key) && CString(value)
    modifies log, f
    ensures ret == if |key| >= MDLK || |value| > MDLV then -1 else 0
    ensures ret == -1 ==> log.data == old(log.data) && f.data == old(f.data)
    ensures ret == 0 ==>
      var e := Entry(key, value, LevelFor(|value|));
      && log.data == old(log.data) + Encoded(e) && log.pos == |log.data|
      && Stored(f.data, Put(slots, e))
      && (Exact(old(f.data), slots) && UpTo(key, KEY_END) != [] ==> Exact(f.data, Put(slots, e)))
  {
    hide LevelSize, Stored, Exact, Put, Encoded;
    if |key| >= MDLK || |value| > MDLV {
      return -1;
    }
    var level := ChooseLevel(|value|);
    var e := Entry(key, value, level);
    JournalWrite(log, e);
    DataWrite(f, e, slots);
    ret := 0;
  }

  /** kvdb_get: the value that any map the file stands for gives the key, or nothing. */
  method KvdbGet(f: File, key: seq<Byte>, ghost slots: seq<Slot>) returns (value: Option<seq<Byte>>)
    requires Stored(f.data, slots) && Whole(slots) && CString(key)
    modifies f`pos
    ensures value == Get(slots, key)
    ensures forall m: Store :: Represents(slots, m) ==> value == if key in m && m[key] != [] then Some(m[key]) else None
    ensures (forall i :: 0 <= i < |slots| ==> !Named(slots[i], key)) ==> value == None
    ensures forall i :: 0 <= i < |slots| && Named(slots[i], key) && (forall j :: 0 <= j < i ==> !Named(slots[j], key)) ==>
      slots[i].text.Some? && value == if slots[i].text.value == [] then None else Some(slots[i].text.value)
  {
    hide Stored, Get, Find, Represents, Named;
    f.SeekSet(0);
    value := ScanGet(f, key, slots);
    forall m: Store | Represents(slots, m) ensures value == if key in m && m[key] != [] then Some(m[key]) else None {
      GetOfMap(slots, m, key);
    }
    if forall i :: 0 <= i < |slots| ==> !Named(slots[i], key) {
      GetOfMissing(slots, key);
    }
    forall i | 0 <= i < |slots| && Named(slots[i], key) && (forall j :: 0 <= j < i ==> !Named(slots[j], key))
      ensures slots[i].Live? && slots[i].text.Some?
      ensures value == if slots[i].text.value == [] then None else Some(slots[i].text.value)
    {
      NamedIsLive(slots[i], key);
      GetOfFirst(slots, i, key);
    }
  }

  lemma NamedIsLive(s: Slot, key: seq<Byte>)
    requires Named(s, key)
    ensures s.Live?
  {
  }

  /** The part of kvdb_open that touches the files: whatever the crash left, the data file then
      stands for the map after all journalled puts, and the journal is empty. */
  method Open(log: File, f: File, ghost d: seq<Byte>, ghost start: seq<Slot>, ghost m: Store,
              ghost states: seq<State>, ghost last: Entry, ghost n: nat) returns (ghost after: seq<Slot>)
    requires log != f && Crashed(log.data, f.data, d, start, states, last, n) && Represents(start, m)
    modifies log, f
    ensures Intact(f.data, after) && Represents(after, Updated(m, states[|states| - 1].es))
    ensures log.data == [] && log.pos == 0
  {
    hide LevelSize, Encoded, ParseLog, Put, Represents, History, Framed, Whole, Unique;
    ReplayAfterCrash(log.data, f.data, d, start, m, states, last, n);
    ghost var s := states[|states| - 1];
    after := PutAll(s.slots, s.es);
    if |log.data| != 0 {
      Recovery(log, f, s.slots);
    } else {
      NoJournal(s.es, last, n);
    }
    log.data := [];
    log.SeekSet(0);
  }
}
