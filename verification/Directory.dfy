/** Directory entries and link counts of the file system: fsgetinode, fslookup, vfslink and vfsunlink. */
module Directory {

  const NFILEINFS := 80

  /** An entry of a directory block. Directories are entered under their name with a slash in front. */
  datatype Entry = Entry(valid: bool, ino: nat, isDir: bool, name: string)

  /** The inode table (in use, and the link count) and the blocks of the directories; an inode and its
      block have the same number, and 0 is the root. */
  datatype Fs = Fs(used: seq<bool>, refcnt: seq<int>, dirs: map<nat, seq<Entry>>)

  type Place = (nat, nat)

  /** A path component. */
  predicate IsName(x: string) {
    x != "" && x[0] != '/'
  }

  predicate IsPath(path: seq<string>) {
    forall i :: 0 <= i < |path| ==> IsName(path[i])
  }

  // ----- scanning a directory block -----

  datatype Found = Missing | Clash | At(k: nat)

  /** The last component, as a file (lines 89-135) or a directory (lines 137-201): the first valid
      entry of either kind under that name decides. */
  function Find(es: seq<Entry>, k: nat, x: string, isDir: bool): (f: Found)
    requires k <= |es|
    ensures f.At? ==> k <= f.k < |es|
    decreases |es| - k
  {
    if k == |es| then Missing
    else if es[k].valid && es[k].name == (if isDir then x else "/" + x) then Clash
    else if es[k].valid && es[k].isDir == isDir && es[k].name == (if isDir then "/" + x else x) then At(k)
    else Find(es, k + 1, x, isDir)
  }

  /** A component on the way: lines 208-218. */
  function Enter(es: seq<Entry>, k: nat, x: string): (f: Found)
    requires k <= |es|
    ensures f.At? ==> k <= f.k < |es|
    decreases |es| - k
  {
    if k == |es| then Missing
    else if es[k].valid && es[k].isDir && es[k].name == "/" + x then At(k)
    else Enter(es, k + 1, x)
  }

  /** The first entry not in use: lines 285-286, or |es|. */
  function FreeSlot(es: seq<Entry>, k: nat): (j: nat)
    requires k <= |es|
    ensures k <= j <= |es| && (j < |es| ==> !es[j].valid)
    ensures forall i :: k <= i < j ==> es[i].valid
    decreases |es| - k
  {
    if k == |es| || !es[k].valid then k else FreeSlot(es, k + 1)
  }

  /** The first entry of that name, valid or not: lines 1268-1269, or |es|. */
  function NameSlot(es: seq<Entry>, k: nat, x: string): (j: nat)
    requires k <= |es|
    ensures k <= j <= |es| && (j < |es| ==> es[j].name == x)
    ensures forall i :: k <= i < j ==> es[i].name != x
    decreases |es| - k
  {
    if k == |es| || es[k].name == x then k else NameSlot(es, k + 1, x)
  }

  /** The first inode not in use: lines 248-249, or |used|. */
  function FreeInode(used: seq<bool>, k: nat): (i: nat)
    requires k <= |used|
    ensures k <= i <= |used| && (i < |used| ==> !used[i])
    ensures forall n :: k <= n < i ==> used[n]
    decreases |used| - k
  {
    if k == |used| || !used[k] then k else FreeInode(used, k + 1)
  }

  // ----- the operations -----

  datatype Spot = Nowhere | In(dir: nat)

  /** From directory d along the path. */
  function Walk(fs: Fs, d: nat, path: seq<string>): (w: Spot)
    ensures w.In? ==> w.dir in fs.dirs
    decreases |path|
  {
    if d !in fs.dirs then Nowhere
    else if path == [] then In(d)
    else
      match Enter(fs.dirs[d], 0, path[0])
      case At(k) => Walk(fs, fs.dirs[d][k].ino, path[1..])
      case _ => Nowhere
  }

  datatype Result = None | Some(dir: nat, k: nat)

  /** fslookup without creating or removing. The path of the mount root's own name is empty, and the
      walk does not find it. */
  function Lookup(fs: Fs, path: seq<string>, isDir: bool): (r: Result)
    ensures r.Some? ==> r.dir in fs.dirs && r.k < |fs.dirs[r.dir]|
  {
    if path == [] then None
    else
      match Walk(fs, 0, path[..|path| - 1])
      case Nowhere => None
      case In(d) =>
        match Find(fs.dirs[d], 0, path[|path| - 1], isDir)
        case At(k) => Some(d, k)
        case _ => None
  }

  function EntryAt(fs: Fs, r: Result): Entry
    requires r.Some? && r.dir in fs.dirs && r.k < |fs.dirs[r.dir]|
  {
    fs.dirs[r.dir][r.k]
  }

  function Zeroed(): seq<Entry> {
    seq(NFILEINFS, i => Entry(false, 0, false, ""))
  }

  /** Writing one entry back. */
  function Put(fs: Fs, d: nat, k: nat, e: Entry): Fs
    requires d in fs.dirs && k < |fs.dirs[d]|
  {
    fs.(dirs := fs.dirs[d := fs.dirs[d][k := e]])
  }

  /** Lines 249-337: a new inode i, and its entry in the first free slot, if there is one. */
  function Created(fs: Fs, d: nat, i: nat, x: string, isDir: bool): Fs
    requires d in fs.dirs && i < |fs.used| == |fs.refcnt|
  {
    var fs1 := fs.(used := fs.used[i := true], refcnt := fs.refcnt[i := 0]);
    var j := FreeSlot(fs.dirs[d], 0);
    var fs2 := if j < |fs.dirs[d]| then Put(fs1, d, j, Entry(true, i, isDir, if isDir then "/" + x else x)) else fs1;
    if isDir then fs2.(dirs := fs2.dirs[i := Zeroed()]) else fs2
  }

  /** What a call leaves behind and returns; halted stands for a failed assertion. */
  datatype Outcome = Outcome(fs: Fs, ret: int, halted: bool)

  function Refuse(fs: Fs): Outcome {
    Outcome(fs, -1, false)
  }

  /** fsgetinode with O_CREAT: an existing file or directory of that kind is taken as it is. */
  function Create(fs: Fs, path: seq<string>, isDir: bool): Outcome
    requires |fs.used| == |fs.refcnt|
  {
    if path == [] then Refuse(fs)
    else
      match Walk(fs, 0, path[..|path| - 1])
      case Nowhere => Refuse(fs)
      case In(d) =>
        match Find(fs.dirs[d], 0, path[|path| - 1], isDir)
        case At(k) => Outcome(fs, fs.dirs[d][k].ino, false)
        case Clash => Refuse(fs)
        case Missing =>
          var i := FreeInode(fs.used, 0);
          if i == |fs.used| then Refuse(fs) else Outcome(Created(fs, d, i, path[|path| - 1], isDir), i, false)
  }

  function HasValid(es: seq<Entry>): bool {
    exists k :: 0 <= k < |es| && es[k].valid
  }

  /** The entry of inode i is given up, and the inode: lines 126-132, 187-198 and 382-385. */
  function Removed(fs: Fs, r: Result): Fs
    requires r.Some? && r.dir in fs.dirs && r.k < |fs.dirs[r.dir]|
    requires EntryAt(fs, r).ino < |fs.used| == |fs.refcnt|
  {
    var e := EntryAt(fs, r);
    var fs1 := Put(fs, r.dir, r.k, e.(valid := false));
    fs1.(used := fs.used[e.ino := false], refcnt := fs.refcnt[e.ino := 0],
         dirs := if e.isDir then fs1.dirs - {e.ino} else fs1.dirs)
  }

  /** fslookup with O_RM: a directory must be empty. */
  function Remove(fs: Fs, path: seq<string>, isDir: bool): Outcome
    requires |fs.used| == |fs.refcnt|
  {
    var r := Lookup(fs, path, isDir);
    if r.None? then Refuse(fs)
    else
      var e := EntryAt(fs, r);
      if e.ino >= |fs.used| || (isDir && (e.ino !in fs.dirs || HasValid(fs.dirs[e.ino]))) then Refuse(fs)
      else Outcome(Removed(fs, r), 0, false)
  }

  /** Lines 1093-1109. */
  function Linked(fs: Fs, ino: nat, d: nat, j: nat, x: string): Fs
    requires d in fs.dirs && j < |fs.dirs[d]| && ino < |fs.refcnt|
  {
    Put(fs, d, j, Entry(true, ino, false, x)).(refcnt := fs.refcnt[ino := fs.refcnt[ino] + 1])
  }

  /** vfslink. */
  function Link(fs: Fs, oldpath: seq<string>, newpath: seq<string>): Outcome
    requires newpath != []
  {
    var o, parent := Lookup(fs, oldpath, false), Lookup(fs, newpath[..|newpath| - 1], true);
    if o.None? || Lookup(fs, newpath, false).Some? || parent.None? then Refuse(fs)
    else
      var ino, d := EntryAt(fs, o).ino, EntryAt(fs, parent).ino;
      if d !in fs.dirs || ino >= |fs.refcnt| then Refuse(fs)
      else
        var j := FreeSlot(fs.dirs[d], 0);
        if j == |fs.dirs[d]| then Refuse(fs)
        else Outcome(Linked(fs, ino, d, j, newpath[|newpath| - 1]), 0, false)
  }

  /** vfsunlink. */
  function Unlink(fs: Fs, path: seq<string>): Outcome
    requires |fs.used| == |fs.refcnt| && path != []
  {
    var r := Lookup(fs, path, false);
    if r.None? then Refuse(fs)
    else
      var ino := EntryAt(fs, r).ino;
      if ino >= |fs.used| then Refuse(fs)
      else if fs.refcnt[ino] == 0 then Remove(fs, path, false)
      else
        var fs1 := fs.(refcnt := fs.refcnt[ino := fs.refcnt[ino] - 1]);
        var parent := Lookup(fs1, path[..|path| - 1], true);
        if parent.None? then Outcome(fs1, -1, true)
        else
          var d := EntryAt(fs1, parent).ino;
          if d !in fs1.dirs then Refuse(fs1)
          else
            var j := NameSlot(fs1.dirs[d], 0, path[|path| - 1]);
            if j == |fs1.dirs[d]| then Refuse(fs1)
            else Outcome(Put(fs1, d, j, fs1.dirs[d][j].(valid := false)), 0, false)
  }

  // ----- the invariant -----

  /** A name without the slash of a directory. */
  function Plain(name: string): string {
    if name != "" && name[0] == '/' then name[1..] else name
  }

  /** A live entry names an inode in use, a directory exactly if it is one. */
  ghost predicate EntryOk(fs: Fs, e: Entry) {
    e.valid ==>
      && 0 < e.ino < |fs.used| && fs.used[e.ino] && (e.isDir <==> e.ino in fs.dirs)
      && IsName(Plain(e.name)) && e.name == (if e.isDir then "/" + Plain(e.name) else Plain(e.name))
  }

  /** No two live entries share a name, and a live entry comes before any stale one of its name. */
  ghost predicate NamesOk(es: seq<Entry>) {
    && (forall p, q :: 0 <= p < q < |es| && es[p].valid && es[q].valid ==> Plain(es[p].name) != Plain(es[q].name))
    && (forall s, q :: 0 <= s < q < |es| && es[q].valid ==> es[s].name != es[q].name)
  }

  ghost predicate BlocksOk(fs: Fs) {
    && |fs.used| == |fs.refcnt| == NFILEINFS && 0 in fs.dirs
    && (forall d :: d in fs.dirs ==> d < NFILEINFS && fs.used[d] && |fs.dirs[d]| == NFILEINFS && NamesOk(fs.dirs[d]))
    && (forall d, k :: d in fs.dirs && 0 <= k < |fs.dirs[d]| ==> EntryOk(fs, fs.dirs[d][k]))
  }

  /** The live entries that name inode i. */
  function Links(dirs: map<nat, seq<Entry>>, i: nat): set<Place> {
    set d: nat, k: nat | d in dirs && k < |dirs[d]| && dirs[d][k].valid && dirs[d][k].ino == i :: (d, k)
  }

  /** How many there should be: for a file, one more than its refcnt. */
  function Expected(fs: Fs, i: nat): int
    requires i < |fs.used| == |fs.refcnt|
  {
    if i == 0 || !fs.used[i] then 0 else if i in fs.dirs then 1 else fs.refcnt[i] + 1
  }

  ghost predicate CountsOk(fs: Fs)
    requires |fs.used| == |fs.refcnt|
  {
    forall i :: 0 <= i < |fs.used| ==> |Links(fs.dirs, i)| == Expected(fs, i)
  }

  ghost predicate Inv(fs: Fs) {
    BlocksOk(fs) && CountsOk(fs)
  }

  // ----- counting entries -----

  lemma LinksPut(dirs: map<nat, seq<Entry>>, d: nat, k: nat, e: Entry, i: nat)
    requires d in dirs && k < |dirs[d]|
    ensures var links := Links(dirs[d := dirs[d][k := e]], i);
      links == Links(dirs, i) - {(d, k)} + (if e.valid && e.ino == i then {(d, k)} else {})
    ensures (d, k) in Links(dirs, i) <==> dirs[d][k].valid && dirs[d][k].ino == i
  {
  }

  /** One entry written: the counts of the inodes it named and names change, and no others. */
  lemma CountPut(dirs: map<nat, seq<Entry>>, d: nat, k: nat, e: Entry, i: nat)
    requires d in dirs && k < |dirs[d]|
    ensures |Links(dirs[d := dirs[d][k := e]], i)| == |Links(dirs, i)|
      - (if dirs[d][k].valid && dirs[d][k].ino == i then 1 else 0) + (if e.valid && e.ino == i then 1 else 0)
  {
    LinksPut(dirs, d, k, e, i);
  }

  /** Blocks without live entries do not count. */
  lemma CountEmptyBlock(dirs: map<nat, seq<Entry>>, d: nat, es: seq<Entry>, i: nat)
    requires !HasValid(es)
    ensures d !in dirs ==> Links(dirs[d := es], i) == Links(dirs, i)
    ensures d in dirs && dirs[d] == es ==> Links(dirs - {d}, i) == Links(dirs, i)
  {
    assert forall k :: 0 <= k < |es| ==> !es[k].valid;
  }

  // ----- what the scans find -----

  ghost predicate NoLive(es: seq<Entry>, x: string) {
    forall k :: 0 <= k < |es| && es[k].valid ==> Plain(es[k].name) != x
  }

  predicate Named(e: Entry, x: string, isDir: bool) {
    e.valid && e.isDir == isDir && e.name == if isDir then "/" + x else x
  }

  lemma PlainOfSlash(x: string)
    ensures Plain("/" + x) == x
  {
    assert ("/" + x)[1..] == x;
  }

  /** The scan for the last component finds a live entry of that name and kind; it misses only if no
      live entry has the name. */
  lemma {:induction false} FindIsLive(fs: Fs, es: seq<Entry>, k: nat, x: string, isDir: bool)
    requires k <= |es| && IsName(x) && (forall i :: 0 <= i < |es| ==> EntryOk(fs, es[i]))
    requires forall i :: 0 <= i < k && es[i].valid ==> Plain(es[i].name) != x
    ensures var f := Find(es, k, x, isDir);
      && (f.At? ==> Named(es[f.k], x, isDir))
      && (f.Missing? ==> NoLive(es, x))
      && (f.Clash? ==> exists i :: 0 <= i < |es| && Named(es[i], x, !isDir))
    decreases |es| - k
  {
    PlainOfSlash(x);
    if k < |es| {
      if es[k].valid && Plain(es[k].name) == x {
        assert EntryOk(fs, es[k]);
        assert Named(es[k], x, es[k].isDir);
      } else {
        FindIsLive(fs, es, k + 1, x, isDir);
      }
    }
  }

  /** On the way only directories count, so that both scans agree on a directory. */
  lemma {:induction false} EnterIsFind(fs: Fs, es: seq<Entry>, k: nat, x: string)
    requires k <= |es| && IsName(x) && (forall i :: 0 <= i < |es| ==> EntryOk(fs, es[i])) && NamesOk(es)
    requires Enter(es, k, x).At?
    ensures Find(es, k, x, true) == Enter(es, k, x) && Named(es[Enter(es, k, x).k], x, true)
    decreases |es| - k
  {
    PlainOfSlash(x);
    EnterFinds(es, k, x);
    var j := Enter(es, k, x).k;
    assert EntryOk(fs, es[k]);
    assert k < j && es[k].valid ==> Plain(es[k].name) != Plain(es[j].name);
    if j != k {
      EnterIsFind(fs, es, k + 1, x);
    }
  }

  lemma {:induction false} EnterFinds(es: seq<Entry>, k: nat, x: string)
    requires k <= |es| && Enter(es, k, x).At?
    ensures var j := Enter(es, k, x).k; es[j].valid && es[j].isDir && es[j].name == "/" + x
    decreases |es| - k
  {
    if !(es[k].valid && es[k].isDir && es[k].name == "/" + x) {
      EnterFinds(es, k + 1, x);
    }
  }

  lemma LiveComesFirst(es: seq<Entry>, s: nat, q: nat)
    requires NamesOk(es) && s < q < |es| && es[q].valid
    ensures es[s].name != es[q].name
  {
  }

  /** The unlink scan that ignores the valid bit hits the live entry: first-fit put it first. */
  lemma ScanHitsLive(es: seq<Entry>, k: nat, x: string)
    requires NamesOk(es) && k < |es| && es[k].valid && es[k].name == x
    ensures NameSlot(es, 0, x) == k
  {
    var j := NameSlot(es, 0, x);
    if j < k {
      LiveComesFirst(es, j, k);
    }
  }

  /** A name that is not live, put into the first free slot, stays ahead of its stale namesakes. */
  lemma FirstFitKeepsNames(es: seq<Entry>, e: Entry)
    requires NamesOk(es) && e.valid && FreeSlot(es, 0) < |es| && NoLive(es, Plain(e.name))
    ensures NamesOk(es[FreeSlot(es, 0) := e])
  {
    var j := FreeSlot(es, 0);
    var es' := es[j := e];
    assert forall i :: 0 <= i < |es| && i != j ==> es'[i] == es[i];
    assert es'[j] == e;
  }

  lemma DroppingKeepsNames(es: seq<Entry>, k: nat)
    requires NamesOk(es) && k < |es|
    ensures NamesOk(es[k := es[k].(valid := false)])
  {
    var es' := es[k := es[k].(valid := false)];
    assert forall i :: 0 <= i < |es| ==> es'[i].name == es[i].name && (es'[i].valid ==> es[i].valid);
  }

  // ----- creating -----

  /** An inode not in use is named by no live entry. */
  lemma UnusedIsUnnamed(fs: Fs, i: nat)
    requires Inv(fs) && i < NFILEINFS && !fs.used[i]
    ensures forall d, k :: d in fs.dirs && 0 <= k < |fs.dirs[d]| && fs.dirs[d][k].valid ==> fs.dirs[d][k].ino != i
    ensures i !in fs.dirs && i != 0
  {
    forall d, k | d in fs.dirs && 0 <= k < |fs.dirs[d]| && fs.dirs[d][k].valid ensures fs.dirs[d][k].ino != i {
      assert EntryOk(fs, fs.dirs[d][k]);
    }
  }

  lemma ZeroedIsEmpty()
    ensures |Zeroed()| == NFILEINFS && !HasValid(Zeroed()) && NamesOk(Zeroed())
    ensures forall k :: 0 <= k < NFILEINFS ==> !Zeroed()[k].valid
  {
  }

  function NewEntry(i: nat, x: string, isDir: bool): Entry {
    Entry(true, i, isDir, if isDir then "/" + x else x)
  }

  /** The blocks after a create: one has the new entry, and a new directory is empty. */
  lemma CreatedDirs(fs: Fs, d: nat, i: nat, x: string, isDir: bool, b: nat)
    requires d in fs.dirs && i < |fs.used| == |fs.refcnt| && i !in fs.dirs
    ensures var fs', j := Created(fs, d, i, x, isDir), FreeSlot(fs.dirs[d], 0);
      && (b in fs'.dirs <==> b in fs.dirs || (isDir && b == i))
      && (b in fs'.dirs && b == i ==> fs'.dirs[b] == Zeroed())
      && (b in fs.dirs ==> fs'.dirs[b] == if b == d && j < |fs.dirs[d]| then fs.dirs[d][j := NewEntry(i, x, isDir)] else fs.dirs[b])
  {
    hide FreeSlot, Zeroed;
  }

  lemma CreatedBlocks(fs: Fs, d: nat, i: nat, x: string, isDir: bool)
    requires Inv(fs) && d in fs.dirs && i < NFILEINFS && !fs.used[i] && IsName(x) && NoLive(fs.dirs[d], x)
    ensures BlocksOk(Created(fs, d, i, x, isDir))
  {
    hide FreeSlot, Zeroed, HasValid, NamesOk, EntryOk, Links, NoLive, Expected;
    var fs', es, j := Created(fs, d, i, x, isDir), fs.dirs[d], FreeSlot(fs.dirs[d], 0);
    UnusedIsUnnamed(fs, i);
    CreatedEntry(fs, d, i, x, isDir);
    ZeroedIsEmpty();
    if j < |es| {
      PlainOfNew(i, x, isDir);
      FirstFitKeepsNames(es, NewEntry(i, x, isDir));
    }
    assert fs'.used == fs.used[i := true] && fs'.refcnt == fs.refcnt[i := 0];
    forall b | b in fs'.dirs ensures b < NFILEINFS && fs'.used[b] && |fs'.dirs[b]| == NFILEINFS && NamesOk(fs'.dirs[b]) {
      CreatedDirs(fs, d, i, x, isDir, b);
    }
    CreatedDirs(fs, d, i, x, isDir, 0);
  }

  lemma PlainOfNew(i: nat, x: string, isDir: bool)
    requires IsName(x)
    ensures Plain(NewEntry(i, x, isDir).name) == x
  {
    PlainOfSlash(x);
  }

  lemma CreatedEntry(fs: Fs, d: nat, i: nat, x: string, isDir: bool)
    requires Inv(fs) && d in fs.dirs && i < NFILEINFS && !fs.used[i] && IsName(x)
    ensures var fs' := Created(fs, d, i, x, isDir);
      forall b, k :: b in fs'.dirs && 0 <= k < |fs'.dirs[b]| ==> EntryOk(fs', fs'.dirs[b][k])
  {
    hide FreeSlot, Zeroed, HasValid, NamesOk, Links, Plain, CountsOk;
    var fs' := Created(fs, d, i, x, isDir);
    UnusedIsUnnamed(fs, i);
    PlainOfNew(i, x, isDir);
    ZeroedIsEmpty();
    forall b, k | b in fs'.dirs && 0 <= k < |fs'.dirs[b]| ensures EntryOk(fs', fs'.dirs[b][k]) {
      CreatedDirs(fs, d, i, x, isDir, b);
      if b in fs.dirs && k < |fs.dirs[b]| && fs'.dirs[b][k] == fs.dirs[b][k] {
        OldEntry(fs, fs', fs.dirs[b][k], i);
      }
    }
  }

  /** An entry that does not name inode i does not notice that i comes into use. */
  lemma OldEntry(fs: Fs, fs': Fs, e: Entry, i: nat)
    requires EntryOk(fs, e) && (e.valid ==> e.ino != i) && i < |fs.used|
    requires fs'.used == fs.used[i := true]
    requires forall b :: b != i ==> (b in fs'.dirs <==> b in fs.dirs)
    ensures EntryOk(fs', e)
  {
  }

  /** One live entry more names the new inode, if there was a slot for it. */
  lemma CreatedLinks(fs: Fs, d: nat, i: nat, x: string, isDir: bool, n: nat)
    requires d in fs.dirs && i < |fs.used| == |fs.refcnt| && i !in fs.dirs
    ensures |Links(Created(fs, d, i, x, isDir).dirs, n)| ==
      |Links(fs.dirs, n)| + if n == i && FreeSlot(fs.dirs[d], 0) < |fs.dirs[d]| then 1 else 0
  {
    hide Links, FreeSlot, Zeroed, HasValid;
    var j, e := FreeSlot(fs.dirs[d], 0), Entry(true, i, isDir, if isDir then "/" + x else x);
    var dirs := if j < |fs.dirs[d]| then fs.dirs[d := fs.dirs[d][j := e]] else fs.dirs;
    assert Created(fs, d, i, x, isDir).dirs == if isDir then dirs[i := Zeroed()] else dirs;
    ZeroedIsEmpty();
    if j < |fs.dirs[d]| {
      CountPut(fs.dirs, d, j, e, n);
    }
    CountEmptyBlock(dirs, i, Zeroed(), n);
  }

  lemma CreatedExpected(fs: Fs, d: nat, i: nat, x: string, isDir: bool, n: nat)
    requires d in fs.dirs && i < |fs.used| == |fs.refcnt| && i !in fs.dirs && !fs.used[i] && i > 0 && n < |fs.used|
    ensures |Created(fs, d, i, x, isDir).used| == |Created(fs, d, i, x, isDir).refcnt| == |fs.used|
    ensures Expected(Created(fs, d, i, x, isDir), n) == Expected(fs, n) + if n == i then 1 else 0
  {
    hide FreeSlot, Zeroed;
  }

  lemma CreatedCounts(fs: Fs, d: nat, i: nat, x: string, isDir: bool)
    requires Inv(fs) && d in fs.dirs && i < NFILEINFS && !fs.used[i] && IsName(x)
    ensures CountsOk(Created(fs, d, i, x, isDir)) <==> FreeSlot(fs.dirs[d], 0) < NFILEINFS
  {
    UnusedIsUnnamed(fs, i);
    assert |fs.used| == |fs.refcnt| == |fs.dirs[d]| == NFILEINFS;
    hide FreeSlot, Zeroed, BlocksOk, Links, Expected, Created;
    var fs' := Created(fs, d, i, x, isDir);
    forall n | 0 <= n < NFILEINFS
      ensures |fs'.used| == |fs'.refcnt| == NFILEINFS
      ensures |Links(fs'.dirs, n)| == Expected(fs', n) <==> n != i || FreeSlot(fs.dirs[d], 0) < NFILEINFS
    {
      assert |Links(fs.dirs, n)| == Expected(fs, n);
      CreatedLinks(fs, d, i, x, isDir, n);
      CreatedExpected(fs, d, i, x, isDir, n);
    }
    assert |Links(fs'.dirs, i)| == Expected(fs', i) <==> FreeSlot(fs.dirs[d], 0) < NFILEINFS;
  }

  // ----- removing -----

  /** The only live entry of an inode. */
  lemma OnlyLink(dirs: map<nat, seq<Entry>>, i: nat, d: nat, k: nat)
    requires |Links(dirs, i)| == 1 && d in dirs && k < |dirs[d]| && dirs[d][k].valid && dirs[d][k].ino == i
    ensures forall b, n :: b in dirs && 0 <= n < |dirs[b]| && dirs[b][n].valid && dirs[b][n].ino == i ==> (b, n) == (d, k)
  {
    assert (d, k) in Links(dirs, i);
    assert |Links(dirs, i) - {(d, k)}| == 0;
    forall b, n | b in dirs && 0 <= n < |dirs[b]| && dirs[b][n].valid && dirs[b][n].ino == i ensures (b, n) == (d, k) {
      assert (b, n) in Links(dirs, i);
      assert (b, n) !in Links(dirs, i) - {(d, k)};
    }
  }

  ghost predicate CanRemove(fs: Fs, r: Result) {
    && r.Some? && r.dir in fs.dirs && r.k < |fs.dirs[r.dir]| && EntryAt(fs, r).valid
    && EntryAt(fs, r).ino < |fs.used| == |fs.refcnt|
    && if EntryAt(fs, r).isDir then EntryAt(fs, r).ino in fs.dirs && !HasValid(fs.dirs[EntryAt(fs, r).ino])
       else fs.refcnt[EntryAt(fs, r).ino] == 0
  }

  /** The blocks after a removal. */
  lemma RemovedDirs(fs: Fs, r: Result, b: nat)
    requires Inv(fs) && CanRemove(fs, r)
    ensures var fs', e := Removed(fs, r), EntryAt(fs, r);
      && (b in fs'.dirs <==> b in fs.dirs && (e.isDir ==> b != e.ino))
      && (b in fs'.dirs ==> fs'.dirs[b] == if b == r.dir then fs.dirs[b][r.k := e.(valid := false)] else fs.dirs[b])
  {
    hide NamesOk, EntryOk, Links, Expected;
  }

  lemma RemovedEntry(fs: Fs, r: Result)
    requires Inv(fs) && CanRemove(fs, r)
    ensures var fs' := Removed(fs, r);
      forall b, k :: b in fs'.dirs && 0 <= k < |fs'.dirs[b]| ==> EntryOk(fs', fs'.dirs[b][k])
  {
    hide NamesOk, Links, Plain, HasValid, IsName;
    var fs', e := Removed(fs, r), EntryAt(fs, r);
    assert EntryOk(fs, e);
    assert |Links(fs.dirs, e.ino)| == Expected(fs, e.ino) == 1;
    OnlyLink(fs.dirs, e.ino, r.dir, r.k);
    forall b, k | b in fs'.dirs && 0 <= k < |fs'.dirs[b]| ensures EntryOk(fs', fs'.dirs[b][k]) {
      RemovedDirs(fs, r, b);
      assert EntryOk(fs, fs.dirs[b][k]);
    }
  }

  lemma RemovedKeeps(fs: Fs, r: Result)
    requires Inv(fs) && CanRemove(fs, r)
    ensures Inv(Removed(fs, r))
  {
    RemovedEntry(fs, r);
    RemovedCounts(fs, r);
    hide EntryOk, Links, Expected, CountsOk, NamesOk;
    var fs', e := Removed(fs, r), EntryAt(fs, r);
    assert e.ino > 0 by { EntryNamesNotRoot(fs, e, r); }
    DroppingKeepsNames(fs.dirs[r.dir], r.k);
    forall b | b in fs'.dirs ensures b < NFILEINFS && fs'.used[b] && |fs'.dirs[b]| == NFILEINFS && NamesOk(fs'.dirs[b]) {
      RemovedDirs(fs, r, b);
      if b == e.ino {
        FileIsNoDirectory(fs, r);
      }
    }
    RemovedDirs(fs, r, 0);
  }

  lemma EntryNamesNotRoot(fs: Fs, e: Entry, r: Result)
    requires Inv(fs) && CanRemove(fs, r) && e == EntryAt(fs, r)
    ensures e.ino > 0
  {
    assert EntryOk(fs, e);
  }

  lemma FileIsNoDirectory(fs: Fs, r: Result)
    requires Inv(fs) && CanRemove(fs, r)
    ensures EntryAt(fs, r).ino in fs.dirs ==> EntryAt(fs, r).isDir
  {
    assert EntryOk(fs, EntryAt(fs, r));
  }

  /** One live entry less names the inode given up, and a block without live entries goes. */
  lemma RemovedLinks(fs: Fs, r: Result, n: nat)
    requires CanRemove(fs, r) && (EntryAt(fs, r).isDir ==> EntryAt(fs, r).ino != r.dir)
    ensures |Links(Removed(fs, r).dirs, n)| == |Links(fs.dirs, n)| - if n == EntryAt(fs, r).ino then 1 else 0
  {
    hide Links, HasValid;
    var e := EntryAt(fs, r);
    var dropped := fs.dirs[r.dir := fs.dirs[r.dir][r.k := e.(valid := false)]];
    assert Removed(fs, r).dirs == if e.isDir then dropped - {e.ino} else dropped;
    CountPut(fs.dirs, r.dir, r.k, e.(valid := false), n);
    if e.isDir {
      CountEmptyBlock(dropped, e.ino, fs.dirs[e.ino], n);
    }
  }

  lemma RemovedExpected(fs: Fs, r: Result, n: nat)
    requires CanRemove(fs, r) && n < |fs.used|
    requires Expected(fs, EntryAt(fs, r).ino) == 1
    ensures |Removed(fs, r).used| == |Removed(fs, r).refcnt| == |fs.used|
    ensures n != EntryAt(fs, r).ino ==> Expected(Removed(fs, r), n) == Expected(fs, n)
    ensures n == EntryAt(fs, r).ino ==> Expected(Removed(fs, r), n) == 0
  {
    hide HasValid;
  }

  /** An empty directory does not hold its own entry, and what can be removed has one link. */
  lemma RemovedOnce(fs: Fs, r: Result)
    requires Inv(fs) && CanRemove(fs, r)
    ensures EntryAt(fs, r).isDir ==> EntryAt(fs, r).ino != r.dir
    ensures Expected(fs, EntryAt(fs, r).ino) == 1 && |fs.used| == NFILEINFS
  {
    hide Links, NamesOk, Plain;
    assert EntryOk(fs, EntryAt(fs, r));
  }

  lemma RemovedCounts(fs: Fs, r: Result)
    requires Inv(fs) && CanRemove(fs, r)
    ensures CountsOk(Removed(fs, r))
  {
    hide BlocksOk, Links, Expected, Removed, HasValid;
    RemovedOnce(fs, r);
    RemovedExpected(fs, r, 0);
    var fs' := Removed(fs, r);
    forall n | 0 <= n < NFILEINFS
      ensures |fs'.used| == |fs'.refcnt| == NFILEINFS && |Links(fs'.dirs, n)| == Expected(fs', n)
    {
      assert |Links(fs.dirs, n)| == Expected(fs, n);
      RemovedLinks(fs, r, n);
      RemovedExpected(fs, r, n);
    }
  }

  // ----- linking and unlinking a file that has more links -----

  ghost predicate IsFileInode(fs: Fs, ino: nat) {
    0 < ino < |fs.used| == |fs.refcnt| && fs.used[ino] && ino !in fs.dirs
  }

  /** A new entry for a file keeps everything in order if and only if its name is not live yet. */
  lemma LinkedKeepsIff(fs: Fs, ino: nat, d: nat, x: string)
    requires Inv(fs) && IsFileInode(fs, ino) && d in fs.dirs && IsName(x) && FreeSlot(fs.dirs[d], 0) < NFILEINFS
    ensures Inv(Linked(fs, ino, d, FreeSlot(fs.dirs[d], 0), x)) <==> NoLive(fs.dirs[d], x)
  {
    hide EntryOk, Links, Expected, CountsOk, FreeSlot, NamesOk;
    var es, j, e := fs.dirs[d], FreeSlot(fs.dirs[d], 0), Entry(true, ino, false, x);
    var fs' := Linked(fs, ino, d, j, x);
    LinkedCounts(fs, ino, d, j, x);
    LinkedEntries(fs, ino, d, j, x);
    assert Plain(x) == x;
    if NoLive(es, x) {
      FirstFitKeepsNames(es, e);
      assert forall b :: b in fs'.dirs ==> b in fs.dirs;
    } else {
      var k :| 0 <= k < |es| && es[k].valid && Plain(es[k].name) == x;
      SameNames(es[j := e], j, k);
    }
  }

  lemma SameNames(es: seq<Entry>, j: nat, k: nat)
    requires j < |es| && k < |es| && j != k && es[j].valid && es[k].valid && Plain(es[j].name) == Plain(es[k].name)
    ensures !NamesOk(es)
  {
    if j < k {
      assert Plain(es[j].name) == Plain(es[k].name);
    }
  }

  lemma LinkedEntries(fs: Fs, ino: nat, d: nat, j: nat, x: string)
    requires Inv(fs) && IsFileInode(fs, ino) && d in fs.dirs && IsName(x) && j < |fs.dirs[d]|
    ensures var fs' := Linked(fs, ino, d, j, x);
      forall b, k :: b in fs'.dirs && 0 <= k < |fs'.dirs[b]| ==> EntryOk(fs', fs'.dirs[b][k])
  {
    hide NamesOk, Links, CountsOk;
    var fs' := Linked(fs, ino, d, j, x);
    forall b, k | b in fs'.dirs && 0 <= k < |fs'.dirs[b]| ensures EntryOk(fs', fs'.dirs[b][k]) {
      assert EntryOk(fs, fs.dirs[b][k]);
    }
  }

  lemma LinkedCounts(fs: Fs, ino: nat, d: nat, j: nat, x: string)
    requires Inv(fs) && IsFileInode(fs, ino) && d in fs.dirs && j < |fs.dirs[d]| && !fs.dirs[d][j].valid
    ensures CountsOk(Linked(fs, ino, d, j, x))
  {
    hide BlocksOk, NamesOk, EntryOk;
    var fs' := Linked(fs, ino, d, j, x);
    forall n | 0 <= n < |fs.used| ensures |Links(fs'.dirs, n)| == Expected(fs', n) {
      assert |Links(fs.dirs, n)| == Expected(fs, n);
      CountPut(fs.dirs, d, j, Entry(true, ino, false, x), n);
    }
  }

  function Dropped(fs: Fs, ino: nat, d: nat, k: nat): Fs
    requires d in fs.dirs && k < |fs.dirs[d]| && ino < |fs.refcnt|
  {
    Put(fs, d, k, fs.dirs[d][k].(valid := false)).(refcnt := fs.refcnt[ino := fs.refcnt[ino] - 1])
  }

  lemma DroppedKeeps(fs: Fs, d: nat, k: nat)
    requires Inv(fs) && d in fs.dirs && k < |fs.dirs[d]| && fs.dirs[d][k].valid && !fs.dirs[d][k].isDir
    requires fs.dirs[d][k].ino < |fs.refcnt|
    ensures Inv(Dropped(fs, fs.dirs[d][k].ino, d, k))
  {
    DroppedEntries(fs, d, k);
    DroppedCounts(fs, d, k);
    hide EntryOk, Links, Expected, CountsOk, NamesOk;
    DroppingKeepsNames(fs.dirs[d], k);
  }

  lemma DroppedEntries(fs: Fs, d: nat, k: nat)
    requires Inv(fs) && d in fs.dirs && k < |fs.dirs[d]| && fs.dirs[d][k].ino < |fs.refcnt|
    ensures var fs' := Dropped(fs, fs.dirs[d][k].ino, d, k);
      forall b, n :: b in fs'.dirs && 0 <= n < |fs'.dirs[b]| ==> EntryOk(fs', fs'.dirs[b][n])
  {
    hide NamesOk, Links, CountsOk;
    var fs' := Dropped(fs, fs.dirs[d][k].ino, d, k);
    forall b, n | b in fs'.dirs && 0 <= n < |fs'.dirs[b]| ensures EntryOk(fs', fs'.dirs[b][n]) {
      assert EntryOk(fs, fs.dirs[b][n]);
    }
  }

  lemma DroppedCounts(fs: Fs, d: nat, k: nat)
    requires Inv(fs) && d in fs.dirs && k < |fs.dirs[d]| && fs.dirs[d][k].valid && !fs.dirs[d][k].isDir
    requires fs.dirs[d][k].ino < |fs.refcnt|
    ensures CountsOk(Dropped(fs, fs.dirs[d][k].ino, d, k))
  {
    var e := fs.dirs[d][k];
    assert EntryOk(fs, e);
    hide BlocksOk, NamesOk, EntryOk;
    var fs' := Dropped(fs, e.ino, d, k);
    forall n | 0 <= n < |fs.used| ensures |Links(fs'.dirs, n)| == Expected(fs', n) {
      assert |Links(fs.dirs, n)| == Expected(fs, n);
      CountPut(fs.dirs, d, k, e.(valid := false), n);
    }
  }

  // ----- lookups -----

  function Last(path: seq<string>): string
    requires path != []
  {
    path[|path| - 1]
  }

  /** The directory that holds the last component. */
  function Parent(fs: Fs, path: seq<string>): Spot
    requires path != []
  {
    Walk(fs, 0, path[..|path| - 1])
  }

  /** A lookup finds a live entry of the right name and kind in the directory that holds it. */
  lemma LookupFinds(fs: Fs, path: seq<string>, isDir: bool)
    requires Inv(fs) && IsPath(path) && Lookup(fs, path, isDir).Some?
    ensures var r := Lookup(fs, path, isDir);
      && path != [] && Parent(fs, path) == In(r.dir) && Named(EntryAt(fs, r), Last(path), isDir)
      && 0 < EntryAt(fs, r).ino < NFILEINFS && (isDir <==> EntryAt(fs, r).ino in fs.dirs) && fs.used[EntryAt(fs, r).ino]
  {
    var d := Parent(fs, path).dir;
    FindIsLive(fs, fs.dirs[d], 0, Last(path), isDir);
    assert EntryOk(fs, EntryAt(fs, Lookup(fs, path, isDir)));
  }

  /** A lookup that fails although the directory is there: the name is not live, or is live as the other kind. */
  lemma LookupMisses(fs: Fs, path: seq<string>, isDir: bool)
    requires Inv(fs) && IsPath(path) && path != [] && Parent(fs, path).In?
    ensures var es := fs.dirs[Parent(fs, path).dir];
      && (Lookup(fs, path, isDir).None? ==> NoLive(es, Last(path)) || exists k :: 0 <= k < |es| && Named(es[k], Last(path), !isDir))
      && (Find(es, 0, Last(path), isDir).Missing? ==> NoLive(es, Last(path)))
  {
    FindIsLive(fs, fs.dirs[Parent(fs, path).dir], 0, Last(path), isDir);
  }

  lemma {:induction false} WalkSplit(fs: Fs, d: nat, path: seq<string>)
    requires path != []
    ensures Walk(fs, d, path) ==
      match Walk(fs, d, path[..|path| - 1])
      case Nowhere => Nowhere
      case In(p) =>
        match Enter(fs.dirs[p], 0, Last(path))
        case At(k) => Walk(fs, fs.dirs[p][k].ino, [])
        case _ => Nowhere
    decreases |path|
  {
    if d in fs.dirs && |path| > 1 && Enter(fs.dirs[d], 0, path[0]).At? {
      WalkSplit(fs, fs.dirs[d][Enter(fs.dirs[d], 0, path[0]).k].ino, path[1..]);
      assert path[1..][..|path| - 2] == path[..|path| - 1][1..];
    } else if |path| == 1 {
      assert path[1..] == [];
    }
  }

  lemma {:induction false} FindThenEnter(es: seq<Entry>, k: nat, x: string)
    requires k <= |es| && Find(es, k, x, true).At?
    ensures Enter(es, k, x).At?
    decreases |es| - k
  {
    if !(es[k].valid && es[k].isDir && es[k].name == "/" + x) {
      FindThenEnter(es, k + 1, x);
    }
  }

  /** Looking a directory up and walking to it agree; only the mount root itself, whose path is empty,
      is not found by a lookup. */
  lemma LookupIsWalk(fs: Fs, path: seq<string>)
    requires Inv(fs) && IsPath(path)
    ensures path == [] ==> Lookup(fs, path, true).None? && Walk(fs, 0, path) == In(0)
    ensures path != [] ==> (Lookup(fs, path, true).Some? <==> Walk(fs, 0, path).In?)
    ensures Lookup(fs, path, true).Some? ==> Walk(fs, 0, path) == In(EntryAt(fs, Lookup(fs, path, true)).ino)
  {
    if path != [] {
      WalkSplit(fs, 0, path);
      if Parent(fs, path).In? {
        var es := fs.dirs[Parent(fs, path).dir];
        if Find(es, 0, Last(path), true).At? {
          FindThenEnter(es, 0, Last(path));
        }
        if Enter(es, 0, Last(path)).At? {
          EnterIsFind(fs, es, 0, Last(path));
          assert EntryOk(fs, es[Enter(es, 0, Last(path)).k]);
        }
      }
    }
  }

  // ----- when the operations keep the invariant -----

  /** A call that really creates something. */
  predicate Creates(fs: Fs, path: seq<string>, isDir: bool) {
    && path != [] && Parent(fs, path).In?
    && Find(fs.dirs[Parent(fs, path).dir], 0, Last(path), isDir).Missing? && FreeInode(fs.used, 0) < |fs.used|
  }

  predicate HasRoom(fs: Fs, path: seq<string>) {
    path != [] && Parent(fs, path).In? ==> FreeSlot(fs.dirs[Parent(fs, path).dir], 0) < NFILEINFS
  }

  /** Creating keeps the counts if and only if the directory has a free slot, or nothing is created. */
  lemma CreateKeepsIff(fs: Fs, path: seq<string>, isDir: bool)
    requires Inv(fs) && IsPath(path)
    ensures Inv(Create(fs, path, isDir).fs) <==> !Creates(fs, path, isDir) || HasRoom(fs, path)
  {
    if Creates(fs, path, isDir) {
      var d, i := Parent(fs, path).dir, FreeInode(fs.used, 0);
      LookupMisses(fs, path, isDir);
      CreatedCounts(fs, d, i, Last(path), isDir);
      CreatedBlocks(fs, d, i, Last(path), isDir);
    }
  }

  /** Removing an empty directory always keeps them. */
  lemma RmdirKeeps(fs: Fs, path: seq<string>)
    requires Inv(fs) && IsPath(path)
    ensures Inv(Remove(fs, path, true).fs)
  {
    var r := Lookup(fs, path, true);
    if r.Some? {
      LookupFinds(fs, path, true);
      if !HasValid(fs.dirs[EntryAt(fs, r).ino]) {
        RemovedKeeps(fs, r);
      }
    }
  }

  /** No directory has the new name; or the link is not made anyway, because there is no such file, the
      new name lies in the mount root itself, or its directory is full. */
  predicate LinkIsHarmless(fs: Fs, oldpath: seq<string>, newpath: seq<string>)
    requires newpath != []
  {
    || Lookup(fs, newpath, true).None?
    || Lookup(fs, oldpath, false).None?
    || |newpath| == 1
    || !HasRoom(fs, newpath)
  }

  /** Linking keeps them if and only if that holds: a directory hides files of its name from the check
      that the new name is not taken. */
  lemma LinkKeepsIff(fs: Fs, oldpath: seq<string>, newpath: seq<string>)
    requires Inv(fs) && IsPath(oldpath) && IsPath(newpath) && newpath != []
    ensures Inv(Link(fs, oldpath, newpath).fs) <==> LinkIsHarmless(fs, oldpath, newpath)
  {
    hide Inv, Lookup, Walk, Linked, FreeSlot;
    var up := newpath[..|newpath| - 1];
    var o, parent := Lookup(fs, oldpath, false), Lookup(fs, up, true);
    LookupIsWalk(fs, up);
    LookupHasParent(fs, newpath);
    if Lookup(fs, newpath, false).Some? {
      NotBothKinds(fs, newpath);
    } else if o.Some? && parent.Some? {
      LinkMade(fs, oldpath, newpath);
    }
  }

  /** The link that is made, if there is a slot for it. */
  lemma LinkMade(fs: Fs, oldpath: seq<string>, newpath: seq<string>)
    requires Inv(fs) && IsPath(oldpath) && IsPath(newpath) && newpath != [] && Lookup(fs, oldpath, false).Some?
    requires Lookup(fs, newpath, false).None? && Lookup(fs, newpath[..|newpath| - 1], true).Some?
    ensures HasRoom(fs, newpath) ==>
      (Inv(Link(fs, oldpath, newpath).fs) <==> Lookup(fs, newpath, true).None?)
    ensures !HasRoom(fs, newpath) ==> Link(fs, oldpath, newpath) == Refuse(fs)
  {
    hide Inv, Lookup, Walk, Linked, FreeSlot, IsName, NoLive;
    var up := newpath[..|newpath| - 1];
    var o, parent := Lookup(fs, oldpath, false), Lookup(fs, up, true);
    LookupIsWalk(fs, up);
    LookupFinds(fs, oldpath, false);
    LookupFinds(fs, up, true);
    var ino, d := EntryAt(fs, o).ino, EntryAt(fs, parent).ino;
    assert Parent(fs, newpath) == In(d);
    LiveNames(fs, d);
    TablesMatch(fs);
    if HasRoom(fs, newpath) {
      NameTaken(fs, newpath);
      LinkedKeepsIff(fs, ino, d, Last(newpath));
    }
  }

  lemma LookupHasParent(fs: Fs, path: seq<string>)
    requires path != []
    ensures Lookup(fs, path, true).Some? ==> Walk(fs, 0, path[..|path| - 1]).In?
  {
    hide Find;
  }

  lemma NotBothKinds(fs: Fs, path: seq<string>)
    requires Inv(fs) && IsPath(path) && Lookup(fs, path, false).Some?
    ensures Lookup(fs, path, true).None?
  {
    LookupFinds(fs, path, false);
    OneKindOnly(fs.dirs[Parent(fs, path).dir], Last(path));
    if Lookup(fs, path, true).Some? {
      LookupFinds(fs, path, true);
    }
  }

  /** What the check for the new name tells. */
  lemma NameTaken(fs: Fs, path: seq<string>)
    requires Inv(fs) && IsPath(path) && path != [] && Parent(fs, path).In? && Lookup(fs, path, false).None?
    ensures NoLive(fs.dirs[Parent(fs, path).dir], Last(path)) <==> Lookup(fs, path, true).None?
  {
    var es, x := fs.dirs[Parent(fs, path).dir], Last(path);
    LookupMisses(fs, path, false);
    LookupMisses(fs, path, true);
    PlainOfSlash(x);
    OneKindOnly(es, x);
    if Lookup(fs, path, true).Some? {
      LookupFinds(fs, path, true);
    }
  }

  /** A name is not live as a file and as a directory. */
  lemma OneKindOnly(es: seq<Entry>, x: string)
    requires NamesOk(es) && IsName(x)
    ensures forall k, n :: 0 <= k < |es| && 0 <= n < |es| ==> !(Named(es[k], x, true) && Named(es[n], x, false))
  {
    PlainOfSlash(x);
    forall k, n | 0 <= k < |es| && 0 <= n < |es| ensures !(Named(es[k], x, true) && Named(es[n], x, false)) {
      assert Plain(x) == x;
      assert k < n && es[k].valid && es[n].valid ==> Plain(es[k].name) != Plain(es[n].name);
      assert n < k && es[k].valid && es[n].valid ==> Plain(es[n].name) != Plain(es[k].name);
    }
  }

  /** The refcnt of the file found. */
  function RefCount(fs: Fs, r: Result): int
    requires r.Some? && r.dir in fs.dirs && r.k < |fs.dirs[r.dir]|
  {
    if EntryAt(fs, r).ino < |fs.refcnt| then fs.refcnt[EntryAt(fs, r).ino] else 0
  }

  /** Unlinking keeps them, and does not run into the assertion, if and only if the file is not found,
      has no further link, or lies below the mount root; and then its entry is gone. */
  lemma UnlinkKeepsIff(fs: Fs, path: seq<string>)
    requires Inv(fs) && IsPath(path) && path != []
    ensures var r, out := Lookup(fs, path, false), Unlink(fs, path);
      && (Inv(out.fs) <==> !out.halted)
      && (out.halted <==> r.Some? && RefCount(fs, r) > 0 && |path| == 1)
      && (r.None? ==> out == Refuse(fs))
      && (r.Some? && !out.halted ==>
        out.ret == 0 && r.dir in out.fs.dirs && out.fs.dirs[r.dir] == fs.dirs[r.dir][r.k := EntryAt(fs, r).(valid := false)])
  {
    var r := Lookup(fs, path, false);
    if r.Some? {
      LookupFinds(fs, path, false);
      var ino := EntryAt(fs, r).ino;
      assert |Links(fs.dirs, ino)| == Expected(fs, ino) >= 0;
      if fs.refcnt[ino] == 0 {
        RemovedKeeps(fs, r);
        RemovedDirs(fs, r, r.dir);
      } else {
        UnlinkDecrements(fs, path);
      }
    }
  }

  /** A file has at least one link. */
  lemma LinkCountPositive(fs: Fs, r: Result)
    requires Inv(fs) && r.Some? && r.dir in fs.dirs && r.k < |fs.dirs[r.dir]| && EntryAt(fs, r).valid
    ensures EntryAt(fs, r).ino < |fs.used| && |Links(fs.dirs, EntryAt(fs, r).ino)| >= 1
  {
    assert EntryOk(fs, EntryAt(fs, r));
    assert (r.dir, r.k) in Links(fs.dirs, EntryAt(fs, r).ino);
  }

  /** Lookups do not look at link counts. */
  lemma {:induction false} WalkIgnoresCounts(fs: Fs, refcnt: seq<int>, d: nat, path: seq<string>)
    ensures Walk(fs.(refcnt := refcnt), d, path) == Walk(fs, d, path)
    decreases |path|
  {
    if d in fs.dirs && path != [] && Enter(fs.dirs[d], 0, path[0]).At? {
      WalkIgnoresCounts(fs, refcnt, fs.dirs[d][Enter(fs.dirs[d], 0, path[0]).k].ino, path[1..]);
    }
  }

  lemma LookupIgnoresCounts(fs: Fs, refcnt: seq<int>, path: seq<string>, isDir: bool)
    ensures Lookup(fs.(refcnt := refcnt), path, isDir) == Lookup(fs, path, isDir)
  {
    if path != [] {
      WalkIgnoresCounts(fs, refcnt, 0, path[..|path| - 1]);
    }
  }

  lemma UnlinkDecrements(fs: Fs, path: seq<string>)
    requires Inv(fs) && IsPath(path) && path != [] && Lookup(fs, path, false).Some?
    requires RefCount(fs, Lookup(fs, path, false)) != 0
    ensures var r, out := Lookup(fs, path, false), Unlink(fs, path);
      && RefCount(fs, r) > 0 && EntryAt(fs, r).ino < |fs.refcnt|
      && (out.halted <==> |path| == 1) && (Inv(out.fs) <==> !out.halted)
      && (!out.halted ==> out == Outcome(Dropped(fs, EntryAt(fs, r).ino, r.dir, r.k), 0, false))
  {
    hide Inv, Links, Expected, Walk, Find, NameSlot, Lookup, BlocksOk, CountsOk, Remove;
    var r, up := Lookup(fs, path, false), path[..|path| - 1];
    TablesMatch(fs);
    LookupFinds(fs, path, false);
    FileHasLinks(fs, r);
    var ino := EntryAt(fs, r).ino;
    var fs1 := fs.(refcnt := fs.refcnt[ino := fs.refcnt[ino] - 1]);
    LookupIgnoresCounts(fs, fs1.refcnt, up, true);
    LookupIsWalk(fs, up);
    if |path| == 1 {
      OneTooFew(fs, fs1, ino);
    } else {
      LookupFinds(fs, up, true);
      LiveNames(fs, r.dir);
      ScanHitsLive(fs.dirs[r.dir], r.k, Last(path));
      DroppedKeeps(fs, r.dir, r.k);
    }
  }

  lemma LiveNames(fs: Fs, d: nat)
    requires Inv(fs) && d in fs.dirs
    ensures NamesOk(fs.dirs[d]) && |fs.dirs[d]| == NFILEINFS
  {
    hide NamesOk, EntryOk;
  }

  /** The link count of a live file is one less than its number of links. */
  lemma FileHasLinks(fs: Fs, r: Result)
    requires Inv(fs) && r.Some? && r.dir in fs.dirs && r.k < |fs.dirs[r.dir]| && EntryAt(fs, r).valid && !EntryAt(fs, r).isDir
    ensures 0 < EntryAt(fs, r).ino < |fs.refcnt| && fs.refcnt[EntryAt(fs, r).ino] >= 0
    ensures EntryAt(fs, r).ino !in fs.dirs && fs.used[EntryAt(fs, r).ino]
  {
    hide NamesOk, Links;
    LinkCountPositive(fs, r);
    assert EntryOk(fs, EntryAt(fs, r));
    assert |Links(fs.dirs, EntryAt(fs, r).ino)| == Expected(fs, EntryAt(fs, r).ino);
  }

  /** A count decremented without a link removed is wrong. */
  lemma OneTooFew(fs: Fs, fs1: Fs, ino: nat)
    requires Inv(fs) && 0 < ino < |fs.refcnt| && fs.used[ino] && ino !in fs.dirs
    requires fs1 == fs.(refcnt := fs.refcnt[ino := fs.refcnt[ino] - 1])
    ensures !Inv(fs1)
  {
    hide NamesOk, Links, EntryOk;
    assert |Links(fs.dirs, ino)| == Expected(fs, ino);
    assert |Links(fs1.dirs, ino)| != Expected(fs1, ino);
  }

  // ----- what the operations do to the names -----

  /** An entry under another name, before and after, does not show in a scan. */
  lemma {:induction false} FindSame(es: seq<Entry>, j: nat, e: Entry, k: nat, x: string, isDir: bool)
    requires j < |es| && k <= |es| && IsName(x)
    requires es[j].valid ==> Plain(es[j].name) != x
    requires e.valid ==> Plain(e.name) != x
    ensures Find(es[j := e], k, x, isDir) == Find(es, k, x, isDir) && Enter(es[j := e], k, x) == Enter(es, k, x)
    decreases |es| - k
  {
    PlainOfSlash(x);
    if k < |es| {
      FindSame(es, j, e, k + 1, x, isDir);
    }
  }

  /** Nor does a file entry, for a walk. */
  lemma {:induction false} EnterSame(es: seq<Entry>, j: nat, e: Entry, k: nat, x: string)
    requires j < |es| && k <= |es| && (es[j].valid ==> !es[j].isDir) && (e.valid ==> !e.isDir)
    ensures Enter(es[j := e], k, x) == Enter(es, k, x)
    decreases |es| - k
  {
    if k < |es| {
      EnterSame(es, j, e, k + 1, x);
    }
  }

  lemma {:induction false} WalkSame(fs: Fs, fs': Fs, b: nat, j: nat, e: Entry, d: nat, path: seq<string>)
    requires b in fs.dirs && j < |fs.dirs[b]| && fs'.dirs == fs.dirs[b := fs.dirs[b][j := e]]
    requires (fs.dirs[b][j].valid ==> !fs.dirs[b][j].isDir) && (e.valid ==> !e.isDir)
    ensures Walk(fs', d, path) == Walk(fs, d, path)
    decreases |path|
  {
    if d in fs.dirs && path != [] {
      EnterSame(fs.dirs[b], j, e, 0, path[0]);
      if Enter(fs.dirs[d], 0, path[0]).At? {
        EnteredSame(fs.dirs[b], j, e, path[0]);
        WalkSame(fs, fs', b, j, e, fs.dirs[d][Enter(fs.dirs[d], 0, path[0]).k].ino, path[1..]);
      }
    }
  }

  lemma EnteredSame(es: seq<Entry>, j: nat, e: Entry, x: string)
    requires j < |es| && (es[j].valid ==> !es[j].isDir) && (e.valid ==> !e.isDir)
    ensures Enter(es, 0, x).At? ==> es[j := e][Enter(es, 0, x).k] == es[Enter(es, 0, x).k]
  {
    if Enter(es, 0, x).At? {
      EnterFinds(es, 0, x);
    }
  }

  /** The inode that a name of that kind leads to, or -1. */
  function Leads(fs: Fs, path: seq<string>, isDir: bool): int {
    var r := Lookup(fs, path, isDir);
    if r.Some? then EntryAt(fs, r).ino else -1
  }

  /** Names in other directories, and other names in this one, lead where they led. */
  lemma OtherNamesStay(fs: Fs, fs': Fs, b: nat, j: nat, e: Entry, x: string, path: seq<string>)
    requires b in fs.dirs && j < |fs.dirs[b]| && fs'.dirs == fs.dirs[b := fs.dirs[b][j := e]]
    requires (fs.dirs[b][j].valid ==> !fs.dirs[b][j].isDir && Plain(fs.dirs[b][j].name) == x)
    requires (e.valid ==> !e.isDir && Plain(e.name) == x)
    requires IsPath(path) && path != [] && (Parent(fs, path) != In(b) || Last(path) != x)
    ensures Leads(fs', path, false) == Leads(fs, path, false)
  {
    WalkSame(fs, fs', b, j, e, 0, path[..|path| - 1]);
    if Parent(fs, path).In? {
      var d := Parent(fs, path).dir;
      if d == b {
        FindSame(fs.dirs[b], j, e, 0, Last(path), false);
        if Find(fs.dirs[b], 0, Last(path), false).At? {
          FoundIsNamed(fs.dirs[b], 0, Last(path));
          assert Plain(Last(path)) == Last(path);
        }
      }
    }
  }

  lemma {:induction false} FoundIsNamed(es: seq<Entry>, k: nat, x: string)
    requires k <= |es| && Find(es, k, x, false).At?
    ensures Named(es[Find(es, k, x, false).k], x, false)
    decreases |es| - k
  {
    if !(es[k].valid && !es[k].isDir && es[k].name == x) {
      FoundIsNamed(es, k + 1, x);
    }
  }

  /** What a successful link has done. */
  lemma LinkIsLinked(fs: Fs, oldpath: seq<string>, newpath: seq<string>)
    requires Inv(fs) && IsPath(oldpath) && IsPath(newpath) && newpath != []
    requires Link(fs, oldpath, newpath).ret == 0 && Lookup(fs, newpath, true).None?
    ensures Parent(fs, newpath).In? && Leads(fs, newpath, false) == -1
    ensures var ino, d := Leads(fs, oldpath, false), Parent(fs, newpath).dir;
      && ino >= 0 && IsFileInode(fs, ino) && d in fs.dirs && FreeSlot(fs.dirs[d], 0) < |fs.dirs[d]|
      && Link(fs, oldpath, newpath).fs == Linked(fs, ino, d, FreeSlot(fs.dirs[d], 0), Last(newpath))
      && Inv(Link(fs, oldpath, newpath).fs)
  {
    var up := newpath[..|newpath| - 1];
    LinkKeepsIff(fs, oldpath, newpath);
    LookupFinds(fs, oldpath, false);
    LookupFinds(fs, up, true);
    LookupIsWalk(fs, up);
    hide Inv;
  }

  /** After a successful link the new name leads to the old file, with one link more; all other names
      lead where they led. */
  lemma LinkAddsName(fs: Fs, oldpath: seq<string>, newpath: seq<string>, path: seq<string>)
    requires Inv(fs) && IsPath(oldpath) && IsPath(newpath) && newpath != [] && IsPath(path) && path != []
    requires Link(fs, oldpath, newpath).ret == 0 && Lookup(fs, newpath, true).None?
    ensures var fs', ino := Link(fs, oldpath, newpath).fs, Leads(fs, oldpath, false);
      && Leads(fs, newpath, false) == -1 && Leads(fs', newpath, false) == ino
      && 0 <= ino < |fs.refcnt| && fs'.refcnt == fs.refcnt[ino := fs.refcnt[ino] + 1] && fs'.used == fs.used
      && (Parent(fs, path) != Parent(fs, newpath) || Last(path) != Last(newpath) ==> Leads(fs', path, false) == Leads(fs, path, false))
  {
    hide *;
    LinkIsLinked(fs, oldpath, newpath);
    var ino, d, x := Leads(fs, oldpath, false), Parent(fs, newpath).dir, Last(newpath);
    var fs', j, e := Link(fs, oldpath, newpath).fs, FreeSlot(fs.dirs[d], 0), Entry(true, ino, false, x);
    LinkedParts(fs, ino, d, j, x);
    PlainOfLast(newpath);
    if Parent(fs, path) != Parent(fs, newpath) || Last(path) != Last(newpath) {
      OtherNamesStay(fs, fs', d, j, e, x, path);
    }
    NewNameIsFound(fs, fs', newpath, ino, d, j);
  }

  lemma LinkedParts(fs: Fs, ino: nat, d: nat, j: nat, x: string)
    requires d in fs.dirs && j < |fs.dirs[d]| && IsFileInode(fs, ino)
    ensures var fs' := Linked(fs, ino, d, j, x);
      && fs'.dirs == fs.dirs[d := fs.dirs[d][j := Entry(true, ino, false, x)]]
      && fs'.refcnt == fs.refcnt[ino := fs.refcnt[ino] + 1] && fs'.used == fs.used
    ensures ino < |fs.refcnt|
  {
  }

  lemma PlainOfLast(path: seq<string>)
    requires IsPath(path) && path != []
    ensures Plain(Last(path)) == Last(path) && IsName(Last(path))
  {
  }

  lemma NewNameIsFound(fs: Fs, fs': Fs, path: seq<string>, ino: nat, d: nat, j: nat)
    requires IsPath(path) && path != [] && Parent(fs, path) == In(d) && Inv(fs') && j < |fs.dirs[d]| && !fs.dirs[d][j].valid
    requires fs'.dirs == fs.dirs[d := fs.dirs[d][j := Entry(true, ino, false, Last(path))]]
    ensures Leads(fs', path, false) == ino
  {
    WalkSame(fs, fs', d, j, Entry(true, ino, false, Last(path)), 0, path[..|path| - 1]);
    LiveIsFound(fs', fs'.dirs[d], 0, j, Last(path), false);
  }

  /** A live entry is found. */
  lemma {:induction false} LiveIsFound(fs: Fs, es: seq<Entry>, k: nat, j: nat, x: string, isDir: bool)
    requires k <= j < |es| && NamesOk(es) && Named(es[j], x, isDir) && IsName(x)
    requires forall i :: 0 <= i < |es| ==> EntryOk(fs, es[i])
    ensures Find(es, k, x, isDir) == At(j)
    decreases |es| - k
  {
    PlainOfSlash(x);
    assert Plain(x) == x;
    if k < j {
      assert es[k].valid ==> Plain(es[k].name) != Plain(es[j].name);
      LiveIsFound(fs, es, k + 1, j, x, isDir);
    }
  }

  /** After a successful unlink the name leads nowhere; all others lead where they led. */
  lemma UnlinkRemovesName(fs: Fs, path: seq<string>, other: seq<string>)
    requires Inv(fs) && IsPath(path) && path != [] && IsPath(other) && other != []
    requires Leads(fs, path, false) >= 0 && !Unlink(fs, path).halted
    ensures var fs' := Unlink(fs, path).fs;
      && Leads(fs', path, false) == -1
      && (Parent(fs, other) != Parent(fs, path) || Last(other) != Last(path) ==> Leads(fs', other, false) == Leads(fs, other, false))
  {
    var r, x := Lookup(fs, path, false), Last(path);
    LookupFinds(fs, path, false);
    UnlinkKeepsIff(fs, path);
    UnlinkDirs(fs, path);
    var e, fs' := EntryAt(fs, r).(valid := false), Unlink(fs, path).fs;
    assert Plain(x) == x;
    if Parent(fs, other) != Parent(fs, path) || Last(other) != Last(path) {
      OtherNamesStay(fs, fs', r.dir, r.k, e, x, other);
    }
    WalkSame(fs, fs', r.dir, r.k, e, 0, path[..|path| - 1]);
    GoneIsNotFound(fs, r.dir, r.k, x);
  }

  lemma UnlinkDirs(fs: Fs, path: seq<string>)
    requires Inv(fs) && IsPath(path) && path != [] && Lookup(fs, path, false).Some? && !Unlink(fs, path).halted
    ensures var r := Lookup(fs, path, false);
      Unlink(fs, path).fs.dirs == fs.dirs[r.dir := fs.dirs[r.dir][r.k := EntryAt(fs, r).(valid := false)]]
  {
    LookupFinds(fs, path, false);
    if RefCount(fs, Lookup(fs, path, false)) != 0 {
      UnlinkDecrements(fs, path);
    }
  }

  lemma GoneIsNotFound(fs: Fs, d: nat, k: nat, x: string)
    requires Inv(fs) && d in fs.dirs && k < |fs.dirs[d]| && Named(fs.dirs[d][k], x, false) && IsName(x)
    ensures !Find(fs.dirs[d][k := fs.dirs[d][k].(valid := false)], 0, x, false).At?
  {
    var es := fs.dirs[d];
    var es' := es[k := es[k].(valid := false)];
    if Find(es', 0, x, false).At? {
      FoundIsNamed(es', 0, x);
      OnlyOneLive(es, k, Find(es', 0, x, false).k, x);
    }
  }

  lemma LiveNamesDiffer(es: seq<Entry>, p: nat, q: nat)
    requires NamesOk(es) && p < q < |es| && es[p].valid && es[q].valid
    ensures Plain(es[p].name) != Plain(es[q].name)
  {
  }

  lemma OnlyOneLive(es: seq<Entry>, k: nat, n: nat, x: string)
    requires NamesOk(es) && k < |es| && n < |es| && Named(es[k], x, false) && Named(es[n], x, false)
    ensures k == n
  {
    if k < n {
      LiveNamesDiffer(es, k, n);
    } else if n < k {
      LiveNamesDiffer(es, n, k);
    }
  }

  lemma SameSpot(fs: Fs, path: seq<string>, path': seq<string>)
    requires path != [] && path' != [] && Parent(fs, path) == Parent(fs, path') && Last(path) == Last(path')
    ensures Leads(fs, path, false) == Leads(fs, path', false)
  {
  }

  /** Links and unlinks of files move no directory. */
  lemma ParentStays(fs: Fs, fs': Fs, b: nat, j: nat, e: Entry, path: seq<string>)
    requires b in fs.dirs && j < |fs.dirs[b]| && fs'.dirs == fs.dirs[b := fs.dirs[b][j := e]] && path != []
    requires (fs.dirs[b][j].valid ==> !fs.dirs[b][j].isDir) && (e.valid ==> !e.isDir)
    ensures Parent(fs', path) == Parent(fs, path)
  {
    WalkSame(fs, fs', b, j, e, 0, path[..|path| - 1]);
  }

  lemma LinkParents(fs: Fs, oldpath: seq<string>, newpath: seq<string>, path: seq<string>)
    requires Inv(fs) && IsPath(oldpath) && IsPath(newpath) && newpath != [] && path != []
    requires Link(fs, oldpath, newpath).ret == 0 && Lookup(fs, newpath, true).None?
    ensures Parent(Link(fs, oldpath, newpath).fs, path) == Parent(fs, path) && |newpath| >= 2
  {
    LinkIsLinked(fs, oldpath, newpath);
    var ino, d := Leads(fs, oldpath, false), Parent(fs, newpath).dir;
    assert Lookup(fs, newpath[..|newpath| - 1], true).Some?;
    hide Link, Lookup, Inv, Leads, Parent, FreeSlot;
    LinkedParts(fs, ino, d, FreeSlot(fs.dirs[d], 0), Last(newpath));
    ParentStays(fs, Link(fs, oldpath, newpath).fs, d, FreeSlot(fs.dirs[d], 0), Entry(true, ino, false, Last(newpath)), path);
  }

  lemma UnlinkParents(fs: Fs, path: seq<string>, other: seq<string>)
    requires Inv(fs) && IsPath(path) && path != [] && other != []
    requires Lookup(fs, path, false).Some? && !Unlink(fs, path).halted
    ensures Parent(Unlink(fs, path).fs, other) == Parent(fs, other)
  {
    var r := Lookup(fs, path, false);
    LookupFinds(fs, path, false);
    UnlinkDirs(fs, path);
    hide Unlink, Lookup, Inv, Parent;
    ParentStays(fs, Unlink(fs, path).fs, r.dir, r.k, EntryAt(fs, r).(valid := false), other);
  }

  /** A linked file has a positive count. */
  lemma FoundCount(fs: Fs, path: seq<string>)
    requires Inv(fs) && IsPath(path) && Leads(fs, path, false) >= 0
    ensures Leads(fs, path, false) < |fs.refcnt| && fs.refcnt[Leads(fs, path, false)] >= 0
    ensures RefCount(fs, Lookup(fs, path, false)) == fs.refcnt[Leads(fs, path, false)]
  {
    LookupFinds(fs, path, false);
    LinkCountPositive(fs, Lookup(fs, path, false));
    assert |Links(fs.dirs, Leads(fs, path, false))| == Expected(fs, Leads(fs, path, false));
  }

  /** A link can be taken back: unlinking the new name restores the counts, and every file name leads
      where it led. */
  lemma UnlinkUndoesLink(fs: Fs, oldpath: seq<string>, newpath: seq<string>, path: seq<string>)
    requires Inv(fs) && IsPath(oldpath) && IsPath(newpath) && newpath != [] && IsPath(path) && path != []
    requires Link(fs, oldpath, newpath).ret == 0 && Lookup(fs, newpath, true).None?
    ensures |Link(fs, oldpath, newpath).fs.used| == |Link(fs, oldpath, newpath).fs.refcnt|
    ensures var out := Unlink(Link(fs, oldpath, newpath).fs, newpath);
      && !out.halted && out.ret == 0 && Inv(out.fs) && out.fs.used == fs.used && out.fs.refcnt == fs.refcnt
      && Leads(out.fs, path, false) == Leads(fs, path, false)
  {
    hide *;
    LinkIsLinked(fs, oldpath, newpath);
    LinkAddsName(fs, oldpath, newpath, path);
    LinkParents(fs, oldpath, newpath, path);
    LinkParents(fs, oldpath, newpath, newpath);
    var fs1, ino := Link(fs, oldpath, newpath).fs, Leads(fs, oldpath, false);
    TablesMatch(fs1);
    FoundCount(fs, oldpath);
    UndoUnlink(fs1, newpath, path, ino, fs);
    if Parent(fs, path) == Parent(fs, newpath) && Last(path) == Last(newpath) {
      SameSpot(fs, path, newpath);
    }
  }

  lemma TablesMatch(fs: Fs)
    requires Inv(fs)
    ensures |fs.used| == |fs.refcnt| == NFILEINFS
  {
  }

  /** A name that leads to an inode is found. */
  lemma FoundByName(fs: Fs, path: seq<string>)
    requires Leads(fs, path, false) >= 0
    ensures Lookup(fs, path, false).Some? && EntryAt(fs, Lookup(fs, path, false)).ino == Leads(fs, path, false)
  {
    hide Lookup;
  }

  lemma DroppedTables(fs: Fs, r: Result)
    requires r.Some? && r.dir in fs.dirs && r.k < |fs.dirs[r.dir]| && EntryAt(fs, r).ino < |fs.refcnt|
    ensures var ino := EntryAt(fs, r).ino; var fs' := Dropped(fs, ino, r.dir, r.k);
      fs'.used == fs.used && fs'.refcnt == fs.refcnt[ino := fs.refcnt[ino] - 1]
  {
  }

  lemma UndoUnlink(fs1: Fs, newpath: seq<string>, path: seq<string>, ino: nat, fs: Fs)
    requires Inv(fs1) && IsPath(newpath) && |newpath| >= 2 && IsPath(path) && path != []
    requires Leads(fs1, newpath, false) == ino < |fs.refcnt| && fs1.refcnt == fs.refcnt[ino := fs.refcnt[ino] + 1]
    requires fs.refcnt[ino] >= 0
    ensures var out := Unlink(fs1, newpath);
      && !out.halted && out.ret == 0 && Inv(out.fs) && out.fs.used == fs1.used && out.fs.refcnt == fs.refcnt
      && (if Parent(fs1, path) == Parent(fs1, newpath) && Last(path) == Last(newpath) then Leads(out.fs, path, false) == -1
          else Leads(out.fs, path, false) == Leads(fs1, path, false))
  {
    hide *;
    TablesMatch(fs1);
    FoundByName(fs1, newpath);
    FoundCount(fs1, newpath);
    UnlinkKeepsIff(fs1, newpath);
    UnlinkDecrements(fs1, newpath);
    UnlinkRemovesName(fs1, newpath, path);
    UnlinkParents(fs1, newpath, path);
    UnlinkParents(fs1, newpath, newpath);
    var out := Unlink(fs1, newpath);
    DroppedTables(fs1, Lookup(fs1, newpath, false));
    assert fs1.refcnt[ino := fs1.refcnt[ino] - 1] == fs.refcnt;
    if Parent(fs1, path) == Parent(fs1, newpath) && Last(path) == Last(newpath) {
      SameSpot(out.fs, path, newpath);
    }
  }

  /** But once a file of the mount root itself has been linked, unlinking its first name decrements the
      count and runs into the assertion. */
  lemma RootFileCannotBeUnlinked(fs: Fs, oldpath: seq<string>, newpath: seq<string>)
    requires Inv(fs) && IsPath(oldpath) && IsPath(newpath) && newpath != [] && |oldpath| == 1
    requires Link(fs, oldpath, newpath).ret == 0 && Lookup(fs, newpath, true).None?
    ensures |Link(fs, oldpath, newpath).fs.used| == |Link(fs, oldpath, newpath).fs.refcnt|
    ensures var out := Unlink(Link(fs, oldpath, newpath).fs, oldpath); out.halted && !Inv(out.fs)
  {
    LinkIsLinked(fs, oldpath, newpath);
    LinkAddsName(fs, oldpath, newpath, oldpath);
    var fs1 := Link(fs, oldpath, newpath).fs;
    FoundCount(fs, oldpath);
    if Parent(fs, oldpath) == Parent(fs, newpath) && Last(oldpath) == Last(newpath) {
      SameSpot(fs, oldpath, newpath);
    }
    FoundCount(fs1, oldpath);
    UnlinkKeepsIff(fs1, oldpath);
  }

  // ----- whole runs -----

  datatype Call =
    | CreateCall(path: seq<string>, isDir: bool)
    | RmdirCall(path: seq<string>)
    | LinkCall(oldpath: seq<string>, newpath: seq<string>)
    | UnlinkCall(path: seq<string>)

  predicate WellFormed(c: Call) {
    match c
    case CreateCall(path, _) => IsPath(path)
    case RmdirCall(path) => IsPath(path)
    case LinkCall(oldpath, newpath) => IsPath(oldpath) && IsPath(newpath) && newpath != []
    case UnlinkCall(path) => IsPath(path) && path != []
  }

  function Perform(fs: Fs, c: Call): Outcome
    requires |fs.used| == |fs.refcnt| && WellFormed(c)
  {
    match c
    case CreateCall(path, isDir) => Create(fs, path, isDir)
    case RmdirCall(path) => Remove(fs, path, true)
    case LinkCall(oldpath, newpath) => Link(fs, oldpath, newpath)
    case UnlinkCall(path) => Unlink(fs, path)
  }

  /** What a caller can check beforehand: room in the directory for what is created, no directory under
      the name of a link that will be made, and no unlinking of a file with more links in the mount root itself. */
  predicate Harmless(fs: Fs, c: Call)
    requires WellFormed(c)
  {
    match c
    case CreateCall(path, isDir) => !Creates(fs, path, isDir) || HasRoom(fs, path)
    case RmdirCall(_) => true
    case LinkCall(oldpath, newpath) => LinkIsHarmless(fs, oldpath, newpath)
    case UnlinkCall(path) => !(Lookup(fs, path, false).Some? && RefCount(fs, Lookup(fs, path, false)) > 0 && |path| == 1)
  }

  /** A call keeps names and link counts in order if and only if it is harmless. */
  lemma KeepsIffHarmless(fs: Fs, c: Call)
    requires Inv(fs) && WellFormed(c)
    ensures Inv(Perform(fs, c).fs) <==> Harmless(fs, c)
    ensures Harmless(fs, c) ==> !Perform(fs, c).halted
  {
    match c
    case CreateCall(path, isDir) => CreateKeepsIff(fs, path, isDir);
    case RmdirCall(path) => RmdirKeeps(fs, path);
    case LinkCall(oldpath, newpath) => LinkKeepsIff(fs, oldpath, newpath);
    case UnlinkCall(path) => UnlinkKeepsIff(fs, path);
  }

  /** The mount root alone. */
  function Fresh(): Fs {
    Fs(seq(NFILEINFS, i => i == 0), seq(NFILEINFS, i => 0), map[0 := Zeroed()])
  }

  lemma FreshInv()
    ensures Inv(Fresh())
  {
    ZeroedIsEmpty();
    forall i | 0 <= i < NFILEINFS ensures |Links(Fresh().dirs, i)| == Expected(Fresh(), i) {
      assert Links(Fresh().dirs, i) == {};
    }
  }

  /** The state after a run of calls each of which is harmless when it comes. */
  ghost predicate Reaches(fs: Fs, calls: seq<Call>, end: Fs)
    requires |fs.used| == |fs.refcnt|
    decreases |calls|
  {
    if calls == [] then end == fs
    else
      && WellFormed(calls[0]) && Harmless(fs, calls[0])
      && |Perform(fs, calls[0]).fs.used| == |Perform(fs, calls[0]).fs.refcnt|
      && Reaches(Perform(fs, calls[0]).fs, calls[1..], end)
  }

  lemma {:induction false} RunKeepsInv(fs: Fs, calls: seq<Call>, end: Fs)
    requires Inv(fs) && Reaches(fs, calls, end)
    ensures Inv(end)
    decreases |calls|
  {
    if calls != [] {
      KeepsIffHarmless(fs, calls[0]);
      hide Perform, Harmless, Inv;
      RunKeepsInv(Perform(fs, calls[0]).fs, calls[1..], end);
    }
  }

  /** After any run of harmless calls, each file has exactly refcnt + 1 live entries, and no name in a
      directory is live twice. */
  lemma LinkCounts(calls: seq<Call>, end: Fs, i: nat)
    requires |Fresh().used| == |Fresh().refcnt| && Reaches(Fresh(), calls, end) && i < NFILEINFS
    ensures |end.used| == |end.refcnt| == NFILEINFS
    ensures end.used[i] && i !in end.dirs ==> |Links(end.dirs, i)| == end.refcnt[i] + 1
    ensures !end.used[i] ==> Links(end.dirs, i) == {}
    ensures forall d, p, q :: d in end.dirs && 0 <= p < q < |end.dirs[d]| && end.dirs[d][p].valid && end.dirs[d][q].valid ==>
      end.dirs[d][p].name != end.dirs[d][q].name
  {
    FreshInv();
    RunKeepsInv(Fresh(), calls, end);
    assert |Links(end.dirs, i)| == Expected(end, i);
    forall d, p, q | d in end.dirs && 0 <= p < q < |end.dirs[d]| && end.dirs[d][p].valid && end.dirs[d][q].valid
      ensures end.dirs[d][p].name != end.dirs[d][q].name
    {
      LiveNamesDiffer(end.dirs[d], p, q);
    }
  }

  // ----- the file system as it updates its tables -----

  class FileSystem {
    var used: seq<bool>
    var refcnt: seq<int>
    var dirs: map<nat, seq<Entry>>

    function Value(): Fs
      reads this
    {
      Fs(used, refcnt, dirs)
    }

    constructor ()
      ensures Value() == Fresh()
    {
      used := seq(NFILEINFS, i => i == 0);
      refcnt := seq(NFILEINFS, i => 0);
      dirs := map[0 := Zeroed()];
    }

    /** Lines 86-206: scan for the last component. */
    static method ScanLast(es: seq<Entry>, x: string, isDir: bool) returns (f: Found)
      ensures f == Find(es, 0, x, isDir)
    {
      var ind := 0;
      while ind < |es|
        invariant ind <= |es| && Find(es, ind, x, isDir) == Find(es, 0, x, isDir)
      {
        if es[ind].valid {
          if es[ind].name == (if isDir then x else "/" + x) {
            return Clash;
          }
          if es[ind].isDir == isDir {
            if es[ind].name == (if isDir then "/" + x else x) {
              return At(ind);
            }
          }
        }
        ind := ind + 1;
      }
      return Missing;
    }

    /** Lines 208-218: scan for a directory on the way. */
    static method ScanOnTheWay(es: seq<Entry>, x: string) returns (f: Found)
      ensures f == Enter(es, 0, x)
    {
      var ind := 0;
      while ind < |es|
        invariant ind <= |es| && Enter(es, ind, x) == Enter(es, 0, x)
      {
        if es[ind].valid && es[ind].isDir && es[ind].name == "/" + x {
          return At(ind);
        }
        ind := ind + 1;
      }
      return Missing;
    }

    static method ScanFreeSlot(es: seq<Entry>) returns (j: nat)
      ensures j == FreeSlot(es, 0)
    {
      j := 0;
      while j < |es|
        invariant j <= |es| && FreeSlot(es, j) == FreeSlot(es, 0)
      {
        if !es[j].valid {
          return;
        }
        j := j + 1;
      }
    }

    static method ScanName(es: seq<Entry>, x: string) returns (j: nat)
      ensures j == NameSlot(es, 0, x)
    {
      j := 0;
      while j < |es|
        invariant j <= |es| && NameSlot(es, j, x) == NameSlot(es, 0, x)
      {
        if es[j].name == x {
          return;
        }
        j := j + 1;
      }
    }

    method ScanFreeInode() returns (i: nat)
      ensures i == FreeInode(used, 0)
    {
      i := 0;
      while i < |used|
        invariant i <= |used| && FreeInode(used, i) == FreeInode(used, 0)
      {
        if !used[i] {
          return;
        }
        i := i + 1;
      }
    }

    /** Lines 43-231: the way through the directories. */
    method WalkTo(path: seq<string>) returns (w: Spot)
      ensures w == Walk(Value(), 0, path)
    {
      var d, rest := 0, path;
      while true
        invariant Walk(Value(), 0, path) == Walk(Value(), d, rest)
        decreases |rest|
      {
        if d !in dirs {
          return Nowhere;
        }
        if rest == [] {
          return In(d);
        }
        var f := ScanOnTheWay(dirs[d], rest[0]);
        if !f.At? {
          return Nowhere;
        }
        d, rest := dirs[d][f.k].ino, rest[1..];
      }
    }

    /** fslookup without O_CREAT and O_RM. */
    method LookUp(path: seq<string>, isDir: bool) returns (r: Result)
      ensures r == Lookup(Value(), path, isDir)
    {
      if path == [] {
        return None;
      }
      var w := WalkTo(path[..|path| - 1]);
      if w.Nowhere? {
        return None;
      }
      var f := ScanLast(dirs[w.dir], path[|path| - 1], isDir);
      return if f.At? then Some(w.dir, f.k) else None;
    }

    /** Lines 249-337. */
    method MakeInode(d: nat, i: nat, x: string, isDir: bool)
      requires d in dirs && i < |used| == |refcnt|
      modifies this
      ensures Value() == Created(old(Value()), d, i, x, isDir)
    {
      var rec := dirs[d];
      used, refcnt := used[i := true], refcnt[i := 0];
      var j := ScanFreeSlot(rec);
      if j < |rec| {
        rec := rec[j := Entry(true, i, isDir, if isDir then "/" + x else x)];
        dirs := dirs[d := rec];
      }
      if isDir {
        dirs := dirs[i := Zeroed()];
      }
    }

    /** fsgetinode with O_CREAT. */
    method Open(path: seq<string>, isDir: bool) returns (ret: int)
      requires |used| == |refcnt|
      modifies this
      ensures Outcome(Value(), ret, false) == Create(old(Value()), path, isDir)
    {
      if path == [] {
        return -1;
      }
      var w := WalkTo(path[..|path| - 1]);
      if w.Nowhere? {
        return -1;
      }
      var f := ScanLast(dirs[w.dir], path[|path| - 1], isDir);
      if f.At? {
        return dirs[w.dir][f.k].ino;
      } else if f.Clash? {
        return -1;
      }
      var i := ScanFreeInode();
      if i == |used| {
        return -1;
      }
      MakeInode(w.dir, i, path[|path| - 1], isDir);
      return i;
    }

    static method AnyValid(es: seq<Entry>) returns (b: bool)
      ensures b == HasValid(es)
    {
      var j := 0;
      while j < |es|
        invariant j <= |es| && forall k :: 0 <= k < j ==> !es[k].valid
      {
        if es[j].valid {
          return true;
        }
        j := j + 1;
      }
      return false;
    }

    /** fslookup with O_RM. */
    method Delete(path: seq<string>, isDir: bool) returns (ret: int)
      requires |used| == |refcnt|
      modifies this
      ensures Outcome(Value(), ret, false) == Remove(old(Value()), path, isDir)
    {
      var r := LookUp(path, isDir);
      if r.None? {
        return -1;
      }
      var e := dirs[r.dir][r.k];
      if e.ino >= |used| {
        return -1;
      }
      if isDir {
        if e.ino !in dirs {
          return -1;
        }
        var full := AnyValid(dirs[e.ino]);
        if full {
          return -1;
        }
      }
      dirs := dirs[r.dir := dirs[r.dir][r.k := e.(valid := false)]];
      if e.isDir {
        dirs := dirs - {e.ino};
      }
      used, refcnt := used[e.ino := false], refcnt[e.ino := 0];
      return 0;
    }

    /** vfslink: lines 961-1128. */
    method VfsLink(oldpath: seq<string>, newpath: seq<string>) returns (ret: int)
      requires newpath != []
      modifies this
      ensures Outcome(Value(), ret, false) == Link(old(Value()), oldpath, newpath)
    {
      var oldnode := LookUp(oldpath, false);
      if oldnode.None? {
        return -1;
      }
      var newnode := LookUp(newpath, false);
      if newnode.Some? {
        return -1;
      }
      newnode := LookUp(newpath[..|newpath| - 1], true);
      if newnode.None? {
        return -1;
      }
      var ino, d := dirs[oldnode.dir][oldnode.k].ino, dirs[newnode.dir][newnode.k].ino;
      if d !in dirs || ino >= |refcnt| {
        return -1;
      }
      var newrec := dirs[d];
      var pp := ScanFreeSlot(newrec);
      if pp == |newrec| {
        return -1;
      }
      newrec := newrec[pp := Entry(true, ino, false, newpath[|newpath| - 1])];
      refcnt := refcnt[ino := refcnt[ino] + 1];
      dirs := dirs[d := newrec];
      return 0;
    }

    /** vfsunlink: lines 1203-1288. The count goes down before the directory is looked up, and the
        failed assertion of line 1263 leaves it so. */
    method VfsUnlink(path: seq<string>) returns (ret: int, halted: bool)
      requires |used| == |refcnt| && path != []
      modifies this
      ensures Outcome(Value(), ret, halted) == Unlink(old(Value()), path)
    {
      var filenode := LookUp(path, false);
      if filenode.None? {
        return -1, false;
      }
      var ino := dirs[filenode.dir][filenode.k].ino;
      if ino >= |used| {
        return -1, false;
      }
      if refcnt[ino] == 0 {
        ret := Delete(path, false);
        return ret, false;
      }
      refcnt := refcnt[ino := refcnt[ino] - 1];
      var recnode := LookUp(path[..|path| - 1], true);
      if recnode.None? {
        return -1, true;
      }
      var d := dirs[recnode.dir][recnode.k].ino;
      if d !in dirs {
        return -1, false;
      }
      var rec := dirs[d];
      var pp := ScanName(rec, path[|path| - 1]);
      if pp == |rec| {
        return -1, false;
      }
      rec := rec[pp := rec[pp].(valid := false)];
      dirs := dirs[d := rec];
      return 0, false;
    }
  }
}
