/** Runs from an empty file system to the calls that the condition of Directory.KeepsIffHarmless shuts
    out: each of them is reached by harmless calls, and then breaks the link counts. */
module DirectoryRuns {
  import opened Directory

  // ----- scans of blocks whose entries are known -----

  lemma {:induction false} FindAbsent(es: seq<Entry>, k: nat, x: string, isDir: bool)
    requires k <= |es| && IsName(x) && NoLive(es, x)
    ensures Find(es, k, x, isDir) == Missing
    decreases |es| - k
  {
    PlainOfSlash(x);
    if k < |es| {
      FindAbsent(es, k + 1, x, isDir);
    }
  }

  /** Entry j is the first live one under its name. */
  ghost predicate FirstLive(es: seq<Entry>, j: nat, x: string, isDir: bool) {
    && j < |es| && IsName(x) && Named(es[j], x, isDir)
    && forall i :: 0 <= i < j && es[i].valid ==> Plain(es[i].name) != x
  }

  lemma {:induction false} FindHere(es: seq<Entry>, k: nat, j: nat, x: string, isDir: bool)
    requires FirstLive(es, j, x, isDir) && k <= j
    ensures Find(es, k, x, isDir) == At(j) && (isDir ==> Enter(es, k, x) == At(j))
    decreases j - k
  {
    PlainOfSlash(x);
    if k < j {
      FindHere(es, k + 1, j, x, isDir);
    }
  }

  lemma FreeSlotIs(es: seq<Entry>, j: nat)
    requires j < |es| && !es[j].valid && forall i :: 0 <= i < j ==> es[i].valid
    ensures FreeSlot(es, 0) == j
  {
  }

  lemma FreeInodeIs(used: seq<bool>, i: nat)
    requires i < |used| && !used[i] && forall n :: 0 <= n < i ==> used[n]
    ensures FreeInode(used, 0) == i
  {
    NoFreeInodeBetween(used, 0, i);
  }

  lemma {:induction false} NoFreeInodeBetween(used: seq<bool>, k: nat, i: nat)
    requires k <= i < |used| && !used[i]
    ensures FreeInode(used, k) <= i
    decreases i - k
  {
    if used[k] {
      NoFreeInodeBetween(used, k + 1, i);
    }
  }

  // ----- runs -----

  lemma {:induction false} OneCallMore(fs: Fs, calls: seq<Call>, mid: Fs, c: Call)
    requires |fs.used| == |fs.refcnt| && Reaches(fs, calls, mid) && |mid.used| == |mid.refcnt|
    requires WellFormed(c) && Harmless(mid, c) && |Perform(mid, c).fs.used| == |Perform(mid, c).fs.refcnt|
    ensures Reaches(fs, calls + [c], Perform(mid, c).fs)
    decreases |calls|
  {
    if calls == [] {
      assert ([] + [c])[1..] == [];
      assert Reaches(Perform(mid, c).fs, [], Perform(mid, c).fs);
    } else {
      hide Perform, Harmless;
      OneCallMore(Perform(fs, calls[0]).fs, calls[1..], mid, c);
      assert (calls + [c])[1..] == calls[1..] + [c];
    }
  }

  // ----- a file with k + 1 names in the directory d -----

  const D: string := "d"
  const F: string := "f"
  const Blank: Entry := Entry(false, 0, false, "")

  /** Eighty names of two characters. */
  function Name(k: nat): (x: string)
    requires k < NFILEINFS
    ensures IsName(x)
  {
    [if k < 40 then 'a' else 'b', ('0' as int + k % 40) as char]
  }

  lemma NamesDiffer(j: nat, k: nat)
    requires j < NFILEINFS && k < NFILEINFS && j != k
    ensures Name(j) != Name(k)
  {
    assert ('0' as int + j % 40) as char == ('0' as int + k % 40) as char ==> j % 40 == k % 40;
  }

  function Block(k: int): (es: seq<Entry>)
    requires k < NFILEINFS
    ensures |es| == NFILEINFS
  {
    seq(NFILEINFS, i requires 0 <= i < NFILEINFS => if i <= k then Entry(true, 2, false, Name(i)) else Blank)
  }

  /** The root holds the directory d, inode 1, and that holds k + 1 names of inode 2, or none if k is -1. */
  function Stack(k: int): (fs: Fs)
    requires -1 <= k < NFILEINFS
    ensures |fs.used| == |fs.refcnt| == NFILEINFS
  {
    Fs(seq(NFILEINFS, i => if k < 0 then i <= 1 else i <= 2), seq(NFILEINFS, i => if i == 2 && k >= 0 then k else 0),
       map[0 := Zeroed()[0 := Entry(true, 1, true, "/" + D)], 1 := Block(k)])
  }

  lemma RootHoldsD(k: int)
    requires -1 <= k < NFILEINFS
    ensures Walk(Stack(k), 0, [D]) == In(1) && Lookup(Stack(k), [D], true) == Some(0, 0)
  {
    var es := Stack(k).dirs[0];
    PlainOfSlash(D);
    FindHere(es, 0, 0, D, true);
    assert [D][..0] == [] && [D][1..] == [];
    assert Walk(Stack(k), 1, []) == In(1);
    assert Walk(Stack(k), 0, []) == In(0);
  }

  lemma ParentIsD(k: int, x: string)
    requires -1 <= k < NFILEINFS
    ensures [D, x][..1] == [D] && Parent(Stack(k), [D, x]) == In(1) && Last([D, x]) == x
  {
    RootHoldsD(k);
    assert [D, x][..1] == [D];
  }

  lemma BlockHas(k: int, j: nat)
    requires j <= k < NFILEINFS
    ensures Find(Block(k), 0, Name(j), false) == At(j)
  {
    forall i | 0 <= i < j ensures Plain(Block(k)[i].name) != Name(j) {
      NamesDiffer(i, j);
    }
    FindHere(Block(k), 0, j, Name(j), false);
  }

  lemma BlockLacks(k: int, x: string, isDir: bool)
    requires -1 <= k < NFILEINFS && IsName(x) && forall i :: 0 <= i <= k ==> Name(i) != x
    ensures Find(Block(k), 0, x, isDir) == Missing
  {
    FindAbsent(Block(k), 0, x, isDir);
  }

  lemma LooksUp(k: int, x: string, isDir: bool)
    requires -1 <= k < NFILEINFS && IsName(x)
    ensures Lookup(Stack(k), [D, x], isDir) ==
      match Find(Block(k), 0, x, isDir) case At(j) => Some(1, j) case _ => None
  {
    ParentIsD(k, x);
  }

  lemma StackNext(k: nat)
    requires k + 1 < NFILEINFS
    ensures Linked(Stack(k), 2, 1, k + 1, Name(k + 1)) == Stack(k + 1)
  {
    var fs, fs' := Linked(Stack(k), 2, 1, k + 1, Name(k + 1)), Stack(k + 1);
    assert fs.refcnt == fs'.refcnt && fs.used == fs'.used;
    assert fs.dirs[1] == fs'.dirs[1];
    assert fs.dirs == fs'.dirs;
  }

  /** One link more. */
  lemma LinkStacks(k: nat)
    requires k + 1 < NFILEINFS
    ensures IsPath([D, Name(0)]) && IsPath([D, Name(k + 1)])
    ensures Link(Stack(k), [D, Name(0)], [D, Name(k + 1)]) == Outcome(Stack(k + 1), 0, false)
    ensures LinkIsHarmless(Stack(k), [D, Name(0)], [D, Name(k + 1)])
  {
    forall i | 0 <= i <= k ensures Name(i) != Name(k + 1) {
      NamesDiffer(i, k + 1);
    }
    BlockHas(k, 0);
    BlockLacks(k, Name(k + 1), false);
    BlockLacks(k, Name(k + 1), true);
    LooksUp(k, Name(0), false);
    LooksUp(k, Name(k + 1), false);
    LooksUp(k, Name(k + 1), true);
    RootHoldsD(k);
    ParentIsD(k, Name(k + 1));
    FreeSlotIs(Block(k), k + 1);
    StackNext(k);
  }

  function StackCalls(k: int): (calls: seq<Call>)
    requires -1 <= k < NFILEINFS
  {
    if k == -1 then [CreateCall([D], true)]
    else if k == 0 then StackCalls(-1) + [CreateCall([D, Name(0)], false)]
    else StackCalls(k - 1) + [LinkCall([D, Name(0)], [D, Name(k)])]
  }

  /** Making the directory in the root. */
  lemma DirectoryMade()
    ensures IsPath([D])
    ensures Create(Fresh(), [D], true).fs == Stack(-1) && HasRoom(Fresh(), [D])
  {
    ZeroedIsEmpty();
    assert [D][..0] == [];
    assert Walk(Fresh(), 0, []) == In(0);
    FindAbsent(Zeroed(), 0, D, true);
    FreeSlotIs(Zeroed(), 0);
    FreeInodeIs(Fresh().used, 1);
    assert Block(-1) == Zeroed();
    var fs, fs' := Created(Fresh(), 0, 1, D, true), Stack(-1);
    assert fs.used == fs'.used && fs.refcnt == fs'.refcnt;
    assert fs.dirs == fs'.dirs;
  }

  lemma FileMade()
    ensures IsPath([D, Name(0)])
    ensures Create(Stack(-1), [D, Name(0)], false).fs == Stack(0) && HasRoom(Stack(-1), [D, Name(0)])
  {
    ParentIsD(-1, Name(0));
    BlockLacks(-1, Name(0), false);
    FreeSlotIs(Block(-1), 0);
    FreeInodeIs(Stack(-1).used, 2);
    var fs, fs' := Created(Stack(-1), 1, 2, Name(0), false), Stack(0);
    assert fs.used == fs'.used && fs.refcnt == fs'.refcnt;
    assert fs.dirs[1] == fs'.dirs[1];
    assert fs.dirs == fs'.dirs;
  }

  lemma {:induction false} StackIsReached(k: int)
    requires -1 <= k < NFILEINFS
    ensures |Fresh().used| == |Fresh().refcnt|
    ensures Reaches(Fresh(), StackCalls(k), Stack(k))
    decreases k
  {
    hide Create, Link, Perform, Harmless, Stack, HasRoom, LinkIsHarmless, Creates, Reaches, Fresh, Name, StackCalls;
    FreshSize();
    if k == -1 {
      DirectoryIsReached();
    } else {
      StackIsReached(k - 1);
      StackCallMore(k);
      OneCallMore(Fresh(), StackCalls(k - 1), Stack(k - 1), StackCall(k));
      StackCallsMore(k);
    }
  }

  lemma FreshSize()
    ensures |Fresh().used| == |Fresh().refcnt| == NFILEINFS
  {
  }

  /** The call that leads from k names to k + 1. */
  function StackCall(k: nat): Call
    requires k < NFILEINFS
  {
    if k == 0 then CreateCall([D, Name(0)], false) else LinkCall([D, Name(0)], [D, Name(k)])
  }

  lemma StackCallsMore(k: nat)
    requires k < NFILEINFS
    ensures StackCalls(k) == StackCalls(k - 1) + [StackCall(k)]
  {
  }

  lemma StackCallMore(k: nat)
    requires k < NFILEINFS
    ensures WellFormed(StackCall(k)) && Harmless(Stack(k - 1), StackCall(k))
    ensures Perform(Stack(k - 1), StackCall(k)).fs == Stack(k)
  {
    hide Create, Link, Stack, HasRoom, LinkIsHarmless, Creates, Name;
    if k == 0 {
      FileMade();
    } else {
      LinkStacks(k - 1);
    }
  }

  lemma DirectoryIsReached()
    ensures |Fresh().used| == |Fresh().refcnt|
    ensures Reaches(Fresh(), StackCalls(-1), Stack(-1))
  {
    hide Create, Stack, HasRoom, Creates, Fresh;
    FreshSize();
    DirectoryMade();
    assert Reaches(Fresh(), [], Fresh());
    OneCallMore(Fresh(), [], Fresh(), CreateCall([D], true));
    assert [] + [CreateCall([D], true)] == StackCalls(-1);
  }

  /** A create in the full directory. */
  lemma CreateWithoutSlot()
    ensures IsPath([D, F]) && Create(Stack(79), [D, F], false).ret == 3
    ensures Creates(Stack(79), [D, F], false) && !HasRoom(Stack(79), [D, F])
  {
    ParentIsD(79, F);
    BlockLacks(79, F, false);
    FreeInodeIs(Stack(79).used, 3);
    assert forall i :: 0 <= i < NFILEINFS ==> Block(79)[i].valid;
  }

  /** Eighty names of one file fill the directory while 77 inodes are free: the next create there takes
      an inode and enters it nowhere. */
  lemma FullDirectoryIsReached()
    ensures |Fresh().used| == |Fresh().refcnt|
    ensures Reaches(Fresh(), StackCalls(79), Stack(79)) && Inv(Stack(79))
    ensures IsPath([D, F]) && Create(Stack(79), [D, F], false).ret == 3
    ensures !Inv(Create(Stack(79), [D, F], false).fs)
  {
    StackIsReached(79);
    hide *;
    FreshInv();
    RunKeepsInv(Fresh(), StackCalls(79), Stack(79));
    CreateWithoutSlot();
    CreateKeepsIff(Stack(79), [D, F], false);
  }

  // ----- a directory under the name of a new link -----

  /** After a subdirectory f has been made beside the file. */
  function Nested(): (fs: Fs)
    ensures |fs.used| == |fs.refcnt|
  {
    Created(Stack(0), 1, 3, F, true)
  }

  lemma NestedMade()
    ensures IsPath([D, F]) && Create(Stack(0), [D, F], true).fs == Nested() && HasRoom(Stack(0), [D, F])
  {
    ParentIsD(0, F);
    BlockLacks(0, F, true);
    FreeSlotIs(Block(0), 1);
    FreeInodeIs(Stack(0).used, 3);
  }

  /** The directories, and the walk from one to the other. */
  lemma NestedBlock()
    ensures 0 in Nested().dirs && Nested().dirs[0] == Stack(0).dirs[0]
    ensures 1 in Nested().dirs && Nested().dirs[1] == Block(0)[1 := Entry(true, 3, true, "/" + F)]
    ensures |Nested().refcnt| == NFILEINFS
  {
    FreeSlotIs(Block(0), 1);
  }

  lemma NestedWalk()
    ensures [D, F][..1] == [D] == [D, Name(0)][..1]
    ensures Walk(Nested(), 0, [D]) == In(1) && Walk(Nested(), 0, []) == In(0) && Lookup(Nested(), [D], true) == Some(0, 0)
  {
    hide Nested, Block, Name;
    NestedBlock();
    RootEntry(0);
    FindHere(Nested().dirs[0], 0, 0, D, true);
    assert [D][1..] == [] == [D][..0];
    assert Walk(Nested(), 1, []) == In(1);
  }

  /** The root's first entry leads to d. */
  lemma RootEntry(k: int)
    requires -1 <= k < NFILEINFS
    ensures 0 in Stack(k).dirs && |Stack(k).dirs[0]| == NFILEINFS && Stack(k).dirs[0][0] == Entry(true, 1, true, "/" + D)
    ensures FirstLive(Stack(k).dirs[0], 0, D, true) && !Stack(k).dirs[0][1].valid
  {
  }

  /** The file is the first entry of the block, the directory the second, and the third is free. */
  lemma NestedFinds()
    ensures var es := Nested().dirs[1];
      && Find(es, 0, Name(0), false) == At(0) && Find(es, 0, F, true) == At(1) && Find(es, 0, F, false) == Clash
      && FreeSlot(es, 0) == 2 && |es| == NFILEINFS && es[0].ino == 2
  {
    NestedBlock();
    var es := Nested().dirs[1];
    NestedEntries(es);
    FindHere(es, 0, 0, Name(0), false);
    FindHere(es, 0, 1, F, true);
    ClashAt(es, 0, 1, F);
    FreeSlotIs(es, 2);
  }

  lemma NestedEntries(es: seq<Entry>)
    requires es == Block(0)[1 := Entry(true, 3, true, "/" + F)]
    ensures |es| == NFILEINFS && es[0].ino == 2 && es[0].valid && es[1].valid && !es[2].valid
    ensures FirstLive(es, 0, Name(0), false) && FirstLive(es, 1, F, true)
  {
    assert Name(0) == ['a', '0'];
  }

  lemma NestedLink()
    ensures IsPath([D, Name(0)]) && IsPath([D, F])
    ensures Link(Nested(), [D, Name(0)], [D, F]).ret == 0
    ensures !LinkIsHarmless(Nested(), [D, Name(0)], [D, F])
  {
    hide Nested, Find, FreeSlot, Walk, Name;
    NestedBlock();
    NestedWalk();
    NestedFinds();
    RootEntry(0);
    assert Last([D, Name(0)]) == Name(0) && Last([D, F]) == F;
    assert Lookup(Nested(), [D, Name(0)], false) == Some(1, 0);
    assert Lookup(Nested(), [D, F], true) == Some(1, 1);
    assert Lookup(Nested(), [D, F], false) == None;
  }

  lemma {:induction false} ClashAt(es: seq<Entry>, k: nat, j: nat, x: string)
    requires FirstLive(es, j, x, true) && k <= j
    ensures Find(es, k, x, false) == Clash
    decreases j - k
  {
    if k < j {
      ClashAt(es, k + 1, j, x);
    }
  }

  /** The link succeeds although a directory has its name, and the name is then live twice. */
  lemma HiddenDirectoryIsReached()
    ensures |Fresh().used| == |Fresh().refcnt|
    ensures Reaches(Fresh(), StackCalls(0) + [CreateCall([D, F], true)], Nested()) && Inv(Nested())
    ensures IsPath([D, Name(0)]) && IsPath([D, F])
    ensures Link(Nested(), [D, Name(0)], [D, F]).ret == 0 && !Inv(Link(Nested(), [D, Name(0)], [D, F]).fs)
  {
    hide Nested, Create, Link, Stack, HasRoom, Creates, Fresh, Reaches, StackCalls;
    FreshSize();
    StackIsReached(0);
    NestedMade();
    OneCallMore(Fresh(), StackCalls(0), Stack(0), CreateCall([D, F], true));
    FreshInv();
    RunKeepsInv(Fresh(), StackCalls(0) + [CreateCall([D, F], true)], Nested());
    NestedLink();
    LinkKeepsIff(Nested(), [D, Name(0)], [D, F]);
  }

  // ----- a linked file of the mount root -----

  /** The directory d, and the file f beside it in the mount root. */
  function Beside(): (fs: Fs)
    ensures |fs.used| == |fs.refcnt|
  {
    Created(Stack(-1), 0, 2, F, false)
  }

  lemma RootBlock()
    ensures IsPath([F]) && Create(Stack(-1), [F], false).fs == Beside() && HasRoom(Stack(-1), [F])
    ensures 0 in Beside().dirs && Beside().dirs[0] == Stack(-1).dirs[0][1 := Entry(true, 2, false, F)]
    ensures 1 in Beside().dirs && Beside().dirs[1] == Zeroed()
  {
    var es := Stack(-1).dirs[0];
    PlainOfSlash(D);
    assert [F][..0] == [] && Walk(Stack(-1), 0, []) == In(0);
    FindAbsent(es, 0, F, false);
    FreeSlotIs(es, 1);
    FreeInodeIs(Stack(-1).used, 2);
    assert Block(-1) == Zeroed();
  }

  /** The walk to d, and what the two directories hold. */
  lemma RootWalk()
    ensures [F][..0] == [] && [D][..0] == [] && [D, F][..1] == [D]
    ensures Walk(Beside(), 0, []) == In(0) && Walk(Beside(), 0, [D]) == In(1)
    ensures Find(Beside().dirs[0], 0, F, false) == At(1) && Find(Beside().dirs[0], 0, D, true) == At(0)
  {
    hide Beside, Zeroed;
    RootBlock();
    RootEntry(-1);
    BesideEntries(Beside().dirs[0]);
    FindHere(Beside().dirs[0], 0, 0, D, true);
    FindHere(Beside().dirs[0], 0, 1, F, false);
    assert [D][1..] == [];
    assert Walk(Beside(), 1, []) == In(1);
  }

  lemma BesideEntries(es: seq<Entry>)
    requires es == Stack(-1).dirs[0][1 := Entry(true, 2, false, F)]
    ensures es[0] == Entry(true, 1, true, "/" + D) && es[1] == Entry(true, 2, false, F)
    ensures FirstLive(es, 0, D, true) && FirstLive(es, 1, F, false)
  {
    PlainOfSlash(D);
  }

  lemma EmptyFinds(x: string)
    requires IsName(x)
    ensures Find(Zeroed(), 0, x, false) == Find(Zeroed(), 0, x, true) == Missing && FreeSlot(Zeroed(), 0) == 0
  {
    ZeroedIsEmpty();
    FindAbsent(Zeroed(), 0, x, false);
    FindAbsent(Zeroed(), 0, x, true);
    FreeSlotIs(Zeroed(), 0);
  }

  lemma RootLink()
    ensures IsPath([F]) && IsPath([D, F])
    ensures Link(Beside(), [F], [D, F]).ret == 0 && Lookup(Beside(), [D, F], true).None?
  {
    hide Zeroed, Find, FreeSlot, Walk;
    RootBlock();
    ZeroedIsEmpty();
    BesideEntries(Beside().dirs[0]);
    RootWalk();
    EmptyFinds(F);
    assert |Beside().refcnt| == NFILEINFS;
    hide Beside;
    assert Lookup(Beside(), [F], false) == Some(0, 1);
    assert Lookup(Beside(), [D], true) == Some(0, 0);
    assert Lookup(Beside(), [D, F], false) == None;
  }

  lemma LinkSizes(fs: Fs, oldpath: seq<string>, newpath: seq<string>)
    requires |fs.used| == |fs.refcnt| && newpath != []
    ensures |Link(fs, oldpath, newpath).fs.used| == |Link(fs, oldpath, newpath).fs.refcnt|
  {
    hide Lookup, FreeSlot;
  }

  /** Linked once, it cannot be unlinked by its first name: the assertion of line 1263 fails. */
  lemma StuckRootFileIsReached()
    ensures |Fresh().used| == |Fresh().refcnt|
    ensures IsPath([F]) && IsPath([D, F])
    ensures var fs := Link(Beside(), [F], [D, F]).fs;
      && Reaches(Fresh(), StackCalls(-1) + [CreateCall([F], false)] + [LinkCall([F], [D, F])], fs)
      && |fs.used| == |fs.refcnt| && Unlink(fs, [F]).halted && !Inv(Unlink(fs, [F]).fs)
  {
    hide Beside, Create, Link, Unlink, Stack, HasRoom, Creates, Fresh, Lookup, Reaches;
    FreshSize();
    StackIsReached(-1);
    RootBlock();
    OneCallMore(Fresh(), StackCalls(-1), Stack(-1), CreateCall([F], false));
    RootLink();
    LinkSizes(Beside(), [F], [D, F]);
    OneCallMore(Fresh(), StackCalls(-1) + [CreateCall([F], false)], Beside(), LinkCall([F], [D, F]));
    FreshInv();
    RunKeepsInv(Fresh(), StackCalls(-1) + [CreateCall([F], false)], Beside());
    RootFileCannotBeUnlinked(Beside(), [F], [D, F]);
  }
}
