/** The key-value store's data file as a list of slots, and what a put does to that list.  The
    bytes behind the slots are in KvBytes.dfy, the code in Kvdb.dfy. */
module KvSlots {

  type Byte = b: int | 0 <= b < 256

  const MDLK := 130
  const MDLV := 16 * 0x100000

  const DELETED: Byte := 0xe5
  const KEY_END: Byte := 0x0b
  const VALUE_END: Byte := 0x0a

  /** The table DLV: room for level byte, value and end mark. */
  function LevelSize(level: nat): (size: nat)
    ensures 1 <= level <= 17 ==> 64 <= size
  {
    match level
    case 1 => 0x40
    case 2 => 0x100
    case 3 => 0x400
    case 4 => 0x800
    case 5 => 0x1000
    case 6 => 0x4000
    case 7 => 0x8000
    case 8 => 0x1_0000
    case 9 => 0x2_0000
    case 10 => 0x4_0000
    case 11 => 0x8_0000
    case 12 => 0x10_0000
    case 13 => 0x20_0000
    case 14 => 0x40_0000
    case 15 => 0x80_0000
    case 16 => 0x100_0000
    case 17 => 0x100_0010
    case _ => 0
  }

  lemma LevelSizeIsMonotone(a: nat, b: nat)
    requires 1 <= a <= b <= 17
    ensures LevelSize(a) <= LevelSize(b)
  {
  }

  /** A C string: no zero byte inside. */
  predicate CString(s: seq<Byte>) {
    forall i :: 0 <= i < |s| ==> s[i] != 0
  }

  /** The bytes of s in front of the first stop byte. */
  function UpTo(s: seq<Byte>, stop: Byte): (r: seq<Byte>)
    ensures r <= s && stop !in r
    ensures |r| < |s| ==> s[|r|] == stop
  {
    if s == [] || s[0] == stop then [] else [s[0]] + UpTo(s[1..], stop)
  }

  lemma {:induction false} UpToOfClean(s: seq<Byte>, stop: Byte)
    requires stop !in s
    ensures UpTo(s, stop) == s
  {
    if s != [] {
      assert s[0] in s;
      UpToOfClean(s[1..], stop);
    }
  }

  /** Keys the file can hold: not empty, no end mark inside, not looking deleted. */
  predicate GoodKey(key: seq<Byte>) {
    CString(key) && 0 < |key| < MDLK && KEY_END !in key && key[0] != DELETED
  }

  datatype Option<+T> = None | Some(value: T)

  /** A record of the file.  A live one has the text a reader would get, or None while an
      overwrite is under way. */
  datatype Slot = Dead(level: nat) | Live(name: seq<Byte>, level: nat, text: Option<seq<Byte>>)

  ghost predicate GoodSlot(s: Slot) {
    && 1 <= s.level <= 17
    && (s.Live? ==> GoodKey(s.name))
    && (s.Live? && s.text.Some? ==>
          CString(s.text.value) && VALUE_END !in s.text.value && |s.text.value| + 2 <= LevelSize(s.level))
  }

  ghost predicate GoodSlots(slots: seq<Slot>) {
    forall i :: 0 <= i < |slots| ==> GoodSlot(slots[i])
  }

  /** No overwrite is under way. */
  ghost predicate Whole(slots: seq<Slot>) {
    forall i :: 0 <= i < |slots| ==> slots[i].Live? ==> slots[i].text.Some?
  }

  predicate Named(s: Slot, key: seq<Byte>) {
    s.Live? && s.name == key
  }

  // ----- levels -----

  /** The level a put chooses, searched from level on. */
  function LevelFrom(length: nat, level: nat): (r: nat)
    requires 1 <= level <= 17 && length <= MDLV
    ensures level <= r <= 17 && length + 2 <= LevelSize(r)
    ensures forall l :: level <= l < r ==> LevelSize(l) < length + 2
    decreases 17 - level
  {
    if length + 2 > LevelSize(level) then LevelFrom(length, level + 1) else level
  }

  function LevelFor(length: nat): (r: nat)
    requires length <= MDLV
    ensures 1 <= r <= 17 && length + 2 <= LevelSize(r)
    ensures forall l :: 1 <= l < r ==> LevelSize(l) < length + 2
  {
    LevelFrom(length, 1)
  }

  // ----- puts and gets on slots -----

  /** A put: what a reader must be given, and the level it asks for. */
  datatype Entry = Entry(key: seq<Byte>, value: seq<Byte>, level: nat)

  ghost predicate GoodEntry(e: Entry) {
    && CString(e.key) && |e.key| < MDLK && CString(e.value)
    && 1 <= e.level <= 17 && |e.value| + 2 <= LevelSize(e.level)
  }

  /** The record an append leaves, as the scan will see it.  A key starting with the end mark (or
      empty) reads as the end of the file, so that no record is seen at all. */
  function Appended(e: Entry): seq<Slot> {
    var name := UpTo(e.key, KEY_END);
    if name == [] then []
    else if name[0] == DELETED then [Dead(e.level)]
    else [Live(name, e.level, Some(UpTo(e.value, VALUE_END)))]
  }

  /** Overwrite in place if the first record of that key is large enough; otherwise delete it and
      go on; at the end append. */
  function Put(slots: seq<Slot>, e: Entry): seq<Slot> {
    if slots == [] then Appended(e)
    else if Named(slots[0], e.key) then
      if slots[0].level >= e.level then
        [Live(e.key, slots[0].level, Some(UpTo(e.value, VALUE_END)))] + slots[1..]
      else
        [Dead(slots[0].level)] + Put(slots[1..], e)
    else
      [slots[0]] + Put(slots[1..], e)
  }

  /** The text of the first live record of a key. */
  function Find(slots: seq<Slot>, key: seq<Byte>): Option<seq<Byte>> {
    if slots == [] then None
    else if Named(slots[0], key) then slots[0].text
    else Find(slots[1..], key)
  }

  /** What kvdb_get hands out: an empty text counts as none. */
  function Get(slots: seq<Slot>, key: seq<Byte>): Option<seq<Byte>> {
    match Find(slots, key)
    case None => None
    case Some(text) => if text == [] then None else Some(text)
  }

  lemma {:induction false} PutKeepsGood(slots: seq<Slot>, e: Entry)
    requires GoodSlots(slots) && GoodEntry(e)
    ensures GoodSlots(Put(slots, e))
    ensures Whole(slots) ==> Whole(Put(slots, e))
  {
    if slots != [] {
      assert GoodSlot(slots[0]);
      PutKeepsGood(slots[1..], e);
      if Named(slots[0], e.key) && slots[0].level >= e.level {
        LevelSizeIsMonotone(e.level, slots[0].level);
      }
    }
  }

  /** The first record of a key, or |slots|. */
  function FirstNamed(slots: seq<Slot>, key: seq<Byte>): (i: nat)
    ensures i <= |slots| && (i < |slots| ==> Named(slots[i], key))
    ensures forall j :: 0 <= j < i ==> !Named(slots[j], key)
  {
    if slots == [] || Named(slots[0], key) then 0 else 1 + FirstNamed(slots[1..], key)
  }

  /** A put overwrites the record of its key in place if it is large enough, marks it deleted and appends
      otherwise, and only appends if there is none; no other record is touched. */
  lemma {:induction false} PutTouchesOne(slots: seq<Slot>, e: Entry)
    requires Unique(slots)
    ensures var i := FirstNamed(slots, e.key);
      Put(slots, e) ==
        if i == |slots| then slots + Appended(e)
        else if slots[i].level >= e.level then slots[i := Live(e.key, slots[i].level, Some(UpTo(e.value, VALUE_END)))]
        else slots[i := Dead(slots[i].level)] + Appended(e)
  {
    hide UpTo, Appended;
    if slots == [] {
    } else if !Named(slots[0], e.key) {
      PutTouchesOne(slots[1..], e);
      BehindFirst(slots, FirstNamed(slots[1..], e.key));
    } else if slots[0].level < e.level {
      FirstIsOnly(slots, e.key);
      PutOfNew(slots[1..], e);
    }
  }

  lemma BehindFirst(slots: seq<Slot>, i: nat)
    requires slots != [] && i <= |slots[1..]|
    ensures slots == [slots[0]] + slots[1..] && (i < |slots[1..]| ==> slots[1 + i] == slots[1..][i])
  {
  }

  lemma FirstIsOnly(slots: seq<Slot>, key: seq<Byte>)
    requires slots != [] && Unique(slots) && Named(slots[0], key)
    ensures forall j :: 0 <= j < |slots[1..]| ==> !Named(slots[1..][j], key)
  {
  }

  lemma {:induction false} PutOfNew(slots: seq<Slot>, e: Entry)
    requires forall j :: 0 <= j < |slots| ==> !Named(slots[j], e.key)
    ensures Put(slots, e) == slots + Appended(e)
  {
    if slots != [] {
      PutOfNew(slots[1..], e);
      assert slots == [slots[0]] + slots[1..];
    }
  }

  /** A put of a good key changes what is found for that key, and for no other. */
  lemma {:induction false} PutThenFind(slots: seq<Slot>, e: Entry, key: seq<Byte>)
    requires GoodKey(e.key)
    ensures Find(Put(slots, e), key) ==
            if key == e.key then Some(UpTo(e.value, VALUE_END)) else Find(slots, key)
  {
    if slots == [] {
      UpToOfClean(e.key, KEY_END);
    } else {
      PutThenFind(slots[1..], e, key);
    }
  }

  /** Names in the file are good keys, so a bad one is never found. */
  lemma {:induction false} BadKeyIsNeverFound(slots: seq<Slot>, key: seq<Byte>)
    requires GoodSlots(slots) && !GoodKey(key)
    ensures Find(slots, key) == None
  {
    if slots != [] {
      assert GoodSlot(slots[0]);
      BadKeyIsNeverFound(slots[1..], key);
    }
  }

  /** A value comes back as it was put exactly when the key is good and the value is not empty and
      has no end mark inside. */
  lemma ReadBackIffClean(slots: seq<Slot>, e: Entry)
    requires GoodSlots(slots) && GoodEntry(e)
    ensures Get(Put(slots, e), e.key) == Some(e.value)
            <==> GoodKey(e.key) && e.value != [] && VALUE_END !in e.value
  {
    if GoodKey(e.key) {
      PutThenFind(slots, e, e.key);
      if VALUE_END !in e.value {
        UpToOfClean(e.value, VALUE_END);
      }
    } else {
      PutKeepsGood(slots, e);
      BadKeyIsNeverFound(Put(slots, e), e.key);
    }
  }

  // ----- one live record per key -----

  ghost predicate Unique(slots: seq<Slot>) {
    forall i, j :: 0 <= i < j < |slots| && slots[i].Live? && slots[j].Live? ==> slots[i].name != slots[j].name
  }

  lemma {:induction false} PutNames(slots: seq<Slot>, e: Entry)
    requires GoodKey(e.key)
    ensures forall i :: 0 <= i < |Put(slots, e)| && Put(slots, e)[i].Live? && Put(slots, e)[i].name != e.key ==>
              i < |slots| && slots[i].Live? && slots[i].name == Put(slots, e)[i].name
    ensures |Put(slots, e)| >= |slots|
  {
    if slots == [] {
      UpToOfClean(e.key, KEY_END);
    } else {
      PutNames(slots[1..], e);
      forall i | 0 <= i < |Put(slots, e)| && Put(slots, e)[i].Live? && Put(slots, e)[i].name != e.key
        ensures i < |slots| && slots[i].Live? && slots[i].name == Put(slots, e)[i].name
      {
        if i > 0 && !(Named(slots[0], e.key) && slots[0].level >= e.level) {
          assert Put(slots, e)[i] == Put(slots[1..], e)[i - 1];
          assert slots[1..][i - 1] == slots[i];
        }
      }
    }
  }

  /** A put of a good key leaves at most one live record for every key. */
  lemma {:induction false} PutKeepsUnique(slots: seq<Slot>, e: Entry)
    requires Unique(slots) && GoodKey(e.key)
    ensures Unique(Put(slots, e))
  {
    if slots == [] {
    } else {
      var rest := Put(slots[1..], e);
      assert Unique(slots[1..]) by {
        forall i, j | 0 <= i < j < |slots[1..]| && slots[1..][i].Live? && slots[1..][j].Live?
          ensures slots[1..][i].name != slots[1..][j].name
        {
          assert slots[1..][i] == slots[i + 1] && slots[1..][j] == slots[j + 1];
        }
      }
      PutKeepsUnique(slots[1..], e);
      PutNames(slots[1..], e);
      if !Named(slots[0], e.key) {
        forall j | 0 <= j < |rest| && slots[0].Live? && rest[j].Live? ensures slots[0].name != rest[j].name {
          if rest[j].name != e.key {
            assert slots[1..][j] == slots[j + 1];
          }
        }
      }
    }
  }

  // ----- whole runs refine a map -----

  /** The slots after a run of puts. */
  function PutAll(slots: seq<Slot>, es: seq<Entry>): seq<Slot> {
    if es == [] then slots else Put(PutAll(slots, es[..|es| - 1]), es[|es| - 1])
  }

  type Store = map<seq<Byte>, seq<Byte>>

  /** The map the store stands for: each put adds one pair. */
  function Updated(m: Store, es: seq<Entry>): Store {
    if es == [] then m
    else Updated(m, es[..|es| - 1])[es[|es| - 1].key := UpTo(es[|es| - 1].value, VALUE_END)]
  }

  ghost predicate Represents(slots: seq<Slot>, m: Store) {
    forall key :: Find(slots, key) == if key in m then Some(m[key]) else None
  }

  ghost predicate GoodRun(es: seq<Entry>) {
    forall i :: 0 <= i < |es| ==> GoodEntry(es[i]) && GoodKey(es[i].key)
  }

  /** Every run of puts, from any file that stands for a map, is that run on the map. */
  lemma {:induction false} RunRefinesMap(slots: seq<Slot>, m: Store, es: seq<Entry>)
    requires Represents(slots, m) && GoodRun(es)
    ensures Represents(PutAll(slots, es), Updated(m, es))
    ensures Unique(slots) ==> Unique(PutAll(slots, es))
    ensures GoodSlots(slots) ==> GoodSlots(PutAll(slots, es))
    ensures GoodSlots(slots) && Whole(slots) ==> Whole(PutAll(slots, es))
  {
    if es != [] {
      var before, e := es[..|es| - 1], es[|es| - 1];
      assert GoodRun(before) && GoodEntry(e) && GoodKey(e.key);
      RunRefinesMap(slots, m, before);
      var mid := PutAll(slots, before);
      forall key
        ensures Find(Put(mid, e), key) == if key == e.key then Some(UpTo(e.value, VALUE_END)) else Find(mid, key)
      {
        PutThenFind(mid, e, key);
      }
      if Unique(slots) {
        PutKeepsUnique(mid, e);
      }
      if GoodSlots(slots) {
        PutKeepsGood(mid, e);
      }
    }
  }

  /** What is handed out is the value of the map, and nothing for a key without one. */
  lemma GetOfMap(slots: seq<Slot>, m: Store, key: seq<Byte>)
    requires Represents(slots, m)
    ensures Get(slots, key) == if key in m && m[key] != [] then Some(m[key]) else None
  {
    assert Find(slots, key) == if key in m then Some(m[key]) else None;
  }

  lemma {:induction false} GetOfMissing(slots: seq<Slot>, key: seq<Byte>)
    requires forall i :: 0 <= i < |slots| ==> !Named(slots[i], key)
    ensures Find(slots, key) == None && Get(slots, key) == None
  {
    if slots != [] {
      GetOfMissing(slots[1..], key);
    }
  }

  /** The first record of the key gives its text. */
  lemma {:induction false} GetOfFirst(slots: seq<Slot>, i: nat, key: seq<Byte>)
    requires i < |slots| && Named(slots[i], key) && forall j :: 0 <= j < i ==> !Named(slots[j], key)
    ensures Find(slots, key) == slots[i].text
    ensures Get(slots, key) == if slots[i].text == Some([]) then None else slots[i].text
  {
    if i > 0 {
      assert forall j :: 0 <= j < i - 1 ==> slots[1..][j] == slots[j + 1];
      GetOfFirst(slots[1..], i - 1, key);
    }
  }

  // ----- files caught in the middle of puts, and the replay of the journal -----

  /** The last value a list of puts gives a key. */
  function LastPut(es: seq<Entry>, key: seq<Byte>): Option<seq<Byte>> {
    if es == [] then None
    else if es[|es| - 1].key == key then Some(UpTo(es[|es| - 1].value, VALUE_END))
    else LastPut(es[..|es| - 1], key)
  }

  /** After a run of puts a key has its last put value, or what it had before. */
  lemma {:induction false} FindAfterRun(slots: seq<Slot>, es: seq<Entry>, key: seq<Byte>)
    requires GoodRun(es)
    ensures Find(PutAll(slots, es), key) ==
            if LastPut(es, key).Some? then LastPut(es, key) else Find(slots, key)
  {
    if es != [] {
      var before, e := es[..|es| - 1], es[|es| - 1];
      assert GoodRun(before) && GoodEntry(e) && GoodKey(e.key);
      FindAfterRun(slots, before, key);
      PutThenFind(PutAll(slots, before), e, key);
    }
  }

  lemma {:induction false} LastPutOfMember(es: seq<Entry>, k: nat)
    requires k < |es|
    ensures LastPut(es, es[k].key).Some?
  {
    if k < |es| - 1 {
      assert es[..|es| - 1][k] == es[k];
      LastPutOfMember(es[..|es| - 1], k);
    }
  }

  /** What a data file may have become of start while the puts es were under way, in whatever order
      they were carried out, stopped and taken up again: keys that none of them puts are found as before,
      and a record without a reliable text is one that they will write again. */
  ghost predicate Recoverable(start: seq<Slot>, es: seq<Entry>, torn: seq<Slot>) {
    && GoodSlots(torn) && Unique(torn)
    && (forall key :: LastPut(es, key).None? ==> Find(torn, key) == Find(start, key))
    && (forall i :: 0 <= i < |torn| && torn[i].Live? && torn[i].text.None? ==> LastPut(es, torn[i].name).Some?)
  }

  lemma StartIsRecoverable(start: seq<Slot>, es: seq<Entry>)
    requires GoodSlots(start) && Whole(start) && Unique(start)
    ensures Recoverable(start, es, start)
  {
    hide GoodSlot;
  }

  /** The tail of a file with one record per key is one. */
  lemma UniqueTail(slots: seq<Slot>)
    requires Unique(slots) && slots != []
    ensures Unique(slots[1..])
  {
    forall i, j | 0 <= i < j < |slots[1..]| && slots[1..][i].Live? && slots[1..][j].Live?
      ensures slots[1..][i].name != slots[1..][j].name
    {
      assert slots[1..][i] == slots[i + 1] && slots[1..][j] == slots[j + 1];
    }
  }

  /** A put gives its key a text again; a record still without one was there before, under another key. */
  lemma {:induction false} PutMends(slots: seq<Slot>, e: Entry)
    requires Unique(slots) && GoodKey(e.key)
    ensures forall i :: 0 <= i < |Put(slots, e)| && Put(slots, e)[i].Live? && Put(slots, e)[i].text.None? ==>
      i < |slots| && slots[i] == Put(slots, e)[i] && slots[i].name != e.key
  {
    if slots != [] {
      UniqueTail(slots);
      PutMends(slots[1..], e);
      forall i | 0 <= i < |Put(slots, e)| && Put(slots, e)[i].Live? && Put(slots, e)[i].text.None?
        ensures i < |slots| && slots[i] == Put(slots, e)[i] && slots[i].name != e.key
      {
        if Named(slots[0], e.key) && slots[0].level >= e.level {
          assert i > 0 && slots[0].name != slots[i].name;
        } else if i > 0 {
          assert Put(slots, e)[i] == Put(slots[1..], e)[i - 1] == slots[1..][i - 1];
        }
      }
    }
  }

  /** One of the puts carried out, for the first time or again. */
  lemma PutKeepsRecoverable(start: seq<Slot>, es: seq<Entry>, torn: seq<Slot>, j: nat)
    requires GoodRun(es) && Recoverable(start, es, torn) && j < |es|
    ensures Recoverable(start, es, Put(torn, es[j]))
  {
    hide GoodEntry, GoodKey, Put;
    var e := es[j];
    assert GoodEntry(e) && GoodKey(e.key);
    LastPutOfMember(es, j);
    PutKeepsGood(torn, e);
    PutKeepsUnique(torn, e);
    PutMends(torn, e);
    forall key | LastPut(es, key).None? ensures Find(Put(torn, e), key) == Find(start, key) {
      PutThenFind(torn, e, key);
    }
  }

  /** A record of one key changed, keeping its name or dying, does not show under another key. */
  lemma {:induction false} FindElsewhere(slots: seq<Slot>, i: nat, s: Slot, key: seq<Byte>, other: seq<Byte>)
    requires i < |slots| && Named(slots[i], key) && (s.Dead? || Named(s, key)) && other != key
    ensures Find(slots[i := s], other) == Find(slots, other)
  {
    if i > 0 {
      assert slots[i := s][1..] == slots[1..][i - 1 := s];
      FindElsewhere(slots[1..], i - 1, s, key, other);
    } else {
      assert slots[i := s][1..] == slots[1..];
    }
  }

  /** One of the puts stopped inside its overwrite, or after its deletion. */
  lemma BreakKeepsRecoverable(start: seq<Slot>, es: seq<Entry>, torn: seq<Slot>, i: nat, j: nat, s: Slot)
    requires GoodRun(es) && Recoverable(start, es, torn) && j < |es| && i < |torn| && Named(torn[i], es[j].key)
    requires s == torn[i].(text := None) || s == Dead(torn[i].level)
    ensures Recoverable(start, es, torn[i := s])
  {
    hide LevelSize;
    assert GoodSlot(torn[i]);
    LastPutOfMember(es, j);
    forall key | LastPut(es, key).None? ensures Find(torn[i := s], key) == Find(start, key) {
      FindElsewhere(torn, i, s, es[j].key, key);
    }
  }

  lemma JournalGrows(start: seq<Slot>, es: seq<Entry>, e: Entry, torn: seq<Slot>)
    requires Recoverable(start, es, torn)
    ensures Recoverable(start, es + [e], torn)
  {
    assert (es + [e])[..|es|] == es;
    assert forall key :: LastPut(es, key).Some? ==> LastPut(es + [e], key).Some?;
    assert forall key :: LastPut(es + [e], key).None? ==> LastPut(es, key).None?;
  }

  /** Replaying the journal gives every key what the puts would have given it without interruption. */
  lemma ReplayRestores(start: seq<Slot>, es: seq<Entry>, torn: seq<Slot>, key: seq<Byte>)
    requires GoodRun(es) && Recoverable(start, es, torn)
    ensures Find(PutAll(torn, es), key) == Find(PutAll(start, es), key)
  {
    FindAfterRun(torn, es, key);
    FindAfterRun(start, es, key);
  }

  lemma {:induction false} ReplayMends(torn: seq<Slot>, es: seq<Entry>)
    requires GoodRun(es) && Unique(torn) && GoodSlots(torn)
    ensures Unique(PutAll(torn, es)) && GoodSlots(PutAll(torn, es))
    ensures var after := PutAll(torn, es);
      forall i :: 0 <= i < |after| && after[i].Live? && after[i].text.None? ==>
        i < |torn| && torn[i] == after[i] && LastPut(es, after[i].name).None?
  {
    hide GoodEntry, GoodKey, GoodSlots, Put;
    if es != [] {
      var before, e := es[..|es| - 1], es[|es| - 1];
      assert GoodRun(before) && GoodEntry(e) && GoodKey(e.key);
      ReplayMends(torn, before);
      PutMends(PutAll(torn, before), e);
      PutKeepsUnique(PutAll(torn, before), e);
      PutKeepsGood(PutAll(torn, before), e);
    }
  }

  /** It also gives every record a reliable text again. */
  lemma ReplayRepairs(start: seq<Slot>, es: seq<Entry>, torn: seq<Slot>)
    requires GoodRun(es) && Recoverable(start, es, torn)
    ensures Whole(PutAll(torn, es)) && Unique(PutAll(torn, es)) && GoodSlots(PutAll(torn, es))
  {
    hide GoodSlots, GoodRun, PutAll;
    ReplayMends(torn, es);
  }
}
