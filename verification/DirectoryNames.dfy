/** What names lead to, and what creating, removing, linking and unlinking do to them. */
module DirectoryNames {
  import opened Directory

  // ----- lookups follow the live entries -----

  /** A live entry of directory d says that x, of that kind, is inode i. */
  ghost predicate Says(fs: Fs, d: nat, x: string, isDir: bool, i: nat) {
    d in fs.dirs && exists k :: 0 <= k < |fs.dirs[d]| && Named(fs.dirs[d][k], x, isDir) && fs.dirs[d][k].ino == i
  }

  /** From the root through the directories ds along the path. */
  ghost predicate Chain(fs: Fs, ds: seq<nat>, path: seq<string>) {
    && |ds| == |path| + 1 && ds[0] == 0
    && forall n :: 0 <= n < |path| ==> Says(fs, ds[n], path[n], true, ds[n + 1])
  }

  /** Through the directories ds to the last component. */
  ghost predicate LeadsAlong(fs: Fs, ds: seq<nat>, path: seq<string>, isDir: bool, i: nat)
    requires path != []
  {
    Chain(fs, ds, path[..|path| - 1]) && Says(fs, ds[|path| - 1], Last(path), isDir, i)
  }

  /** One component: both scans find an inode exactly if a live entry says so. */
  lemma ScanIff(fs: Fs, d: nat, x: string, isDir: bool, i: nat)
    requires Inv(fs) && d in fs.dirs && IsName(x)
    ensures var es, f := fs.dirs[d], Find(fs.dirs[d], 0, x, isDir);
      Says(fs, d, x, isDir, i) <==> f.At? && es[f.k].ino == i
    ensures var es, f := fs.dirs[d], Enter(fs.dirs[d], 0, x);
      Says(fs, d, x, true, i) <==> f.At? && es[f.k].ino == i
  {
    hide Links, Expected, CountsOk, NamesOk, EntryOk, Plain;
    ScanIsSaid(fs, d, x, isDir);
    ScanIsSaid(fs, d, x, true);
    if Says(fs, d, x, isDir, i) {
      SaidIsScanned(fs, d, x, isDir, i);
    }
    if Says(fs, d, x, true, i) {
      SaidIsScanned(fs, d, x, true, i);
    }
  }

  lemma ScanIsSaid(fs: Fs, d: nat, x: string, isDir: bool)
    requires Inv(fs) && d in fs.dirs && IsName(x)
    ensures var es, f := fs.dirs[d], Find(fs.dirs[d], 0, x, isDir); f.At? ==> Says(fs, d, x, isDir, es[f.k].ino)
    ensures Enter(fs.dirs[d], 0, x).At? ==> Enter(fs.dirs[d], 0, x) == Find(fs.dirs[d], 0, x, true)
  {
    hide Links, Expected, CountsOk, NamesOk, EntryOk, Plain;
    FindIsLive(fs, fs.dirs[d], 0, x, isDir);
    if Enter(fs.dirs[d], 0, x).At? {
      EnterIsFind(fs, fs.dirs[d], 0, x);
    }
  }

  lemma SaidIsScanned(fs: Fs, d: nat, x: string, isDir: bool, i: nat)
    requires Inv(fs) && Says(fs, d, x, isDir, i) && IsName(x)
    ensures var es, f := fs.dirs[d], Find(fs.dirs[d], 0, x, isDir); f.At? && es[f.k].ino == i
    ensures isDir ==> Enter(fs.dirs[d], 0, x).At?
  {
    hide Links, Expected, CountsOk, NamesOk, EntryOk, Plain;
    var k :| 0 <= k < |fs.dirs[d]| && Named(fs.dirs[d][k], x, isDir) && fs.dirs[d][k].ino == i;
    LiveIsFound(fs, fs.dirs[d], 0, k, x, isDir);
    if isDir {
      FindThenEnter(fs.dirs[d], 0, x);
    }
  }

  /** The last component of a walk. */
  lemma WalkOn(fs: Fs, path: seq<string>, i: nat)
    requires Inv(fs) && IsPath(path) && path != []
    ensures Walk(fs, 0, path) == In(i) <==> Parent(fs, path).In? && Says(fs, Parent(fs, path).dir, Last(path), true, i)
  {
    WalkSplit(fs, 0, path);
    if Parent(fs, path).In? {
      var d := Parent(fs, path).dir;
      ScanIff(fs, d, Last(path), true, i);
      var f := Enter(fs.dirs[d], 0, Last(path));
      if f.At? {
        EnterFinds(fs.dirs[d], 0, Last(path));
        assert EntryOk(fs, fs.dirs[d][f.k]);
      }
    }
  }

  lemma {:induction false} ChainIsWalked(fs: Fs, ds: seq<nat>, path: seq<string>)
    requires Inv(fs) && IsPath(path) && Chain(fs, ds, path)
    ensures Walk(fs, 0, path) == In(ds[|path|])
    decreases |path|
  {
    hide Inv, Says, Walk;
    if path == [] {
      WalkNowhereElse(fs);
    } else {
      ChainIsWalked(fs, ds[..|path|], path[..|path| - 1]);
      WalkOn(fs, path, ds[|path|]);
    }
  }

  lemma WalkNowhereElse(fs: Fs)
    requires Inv(fs)
    ensures Walk(fs, 0, []) == In(0)
  {
  }

  lemma {:induction false} WalkIsChain(fs: Fs, path: seq<string>) returns (ds: seq<nat>)
    requires Inv(fs) && IsPath(path) && Walk(fs, 0, path).In?
    ensures Chain(fs, ds, path) && ds[|path|] == Walk(fs, 0, path).dir
    decreases |path|
  {
    hide Inv, Says, Walk;
    if path == [] {
      WalkNowhereElse(fs);
      ds := [0];
    } else {
      WalkOn(fs, path, Walk(fs, 0, path).dir);
      var up := WalkIsChain(fs, path[..|path| - 1]);
      ds := up + [Walk(fs, 0, path).dir];
    }
  }

  /** A name leads to an inode exactly if live entries lead there from the root, directory by directory. */
  lemma LeadsIff(fs: Fs, path: seq<string>, isDir: bool, i: nat)
    requires Inv(fs) && IsPath(path) && path != []
    ensures Leads(fs, path, isDir) == i <==> exists ds :: LeadsAlong(fs, ds, path, isDir, i)
  {
    hide Inv, Says, Walk, Find, Enter, Chain;
    var up := path[..|path| - 1];
    if ds :| LeadsAlong(fs, ds, path, isDir, i) {
      ChainLength(fs, ds, up);
      ChainIsWalked(fs, ds, up);
      ScanIff(fs, ds[|path| - 1], Last(path), isDir, i);
    }
    if Leads(fs, path, isDir) == i {
      var ds := WalkIsChain(fs, up);
      ChainLength(fs, ds, up);
      ScanIff(fs, ds[|path| - 1], Last(path), isDir, i);
      assert LeadsAlong(fs, ds, path, isDir, i);
    }
  }

  lemma ChainLength(fs: Fs, ds: seq<nat>, path: seq<string>)
    requires Chain(fs, ds, path)
    ensures |ds| == |path| + 1
  {
  }

  // ----- directories form a tree -----

  lemma OneEntry(fs: Fs, d: nat, x: string, e: nat, y: string, i: nat)
    requires Inv(fs) && Says(fs, d, x, true, i) && Says(fs, e, y, true, i)
    ensures d == e && x == y
  {
    hide NamesOk, Links, Plain, IsName;
    var k :| 0 <= k < |fs.dirs[d]| && Named(fs.dirs[d][k], x, true) && fs.dirs[d][k].ino == i;
    var n :| 0 <= n < |fs.dirs[e]| && Named(fs.dirs[e][n], y, true) && fs.dirs[e][n].ino == i;
    assert EntryOk(fs, fs.dirs[d][k]);
    assert |Links(fs.dirs, i)| == Expected(fs, i) == 1;
    OnlyLink(fs.dirs, i, d, k);
    assert ("/" + x)[1..] == x && ("/" + y)[1..] == y;
  }

  lemma RootHasNoName(fs: Fs, d: nat, x: string, isDir: bool)
    requires Inv(fs)
    ensures !Says(fs, d, x, isDir, 0)
  {
    assert d in fs.dirs ==> forall k :: 0 <= k < |fs.dirs[d]| ==> EntryOk(fs, fs.dirs[d][k]);
  }

  /** Two paths to the same directory are the same path. */
  lemma {:induction false} PathsAreUnique(fs: Fs, p: seq<string>, q: seq<string>)
    requires Inv(fs) && IsPath(p) && IsPath(q) && Walk(fs, 0, p).In? && Walk(fs, 0, p) == Walk(fs, 0, q)
    ensures p == q
    decreases |p| + |q|
  {
    hide Inv, Says, Walk;
    var d := Walk(fs, 0, p).dir;
    WalkNowhereElse(fs);
    if p != [] {
      WalkOn(fs, p, d);
    }
    if q != [] {
      WalkOn(fs, q, d);
    }
    if p == [] && q != [] {
      RootHasNoName(fs, Parent(fs, q).dir, Last(q), true);
    } else if p != [] && q == [] {
      RootHasNoName(fs, Parent(fs, p).dir, Last(p), true);
    } else if p != [] {
      OneEntry(fs, Parent(fs, p).dir, Last(p), Parent(fs, q).dir, Last(q), d);
      PathsAreUnique(fs, p[..|p| - 1], q[..|q| - 1]);
      assert p == p[..|p| - 1] + [Last(p)] && q == q[..|q| - 1] + [Last(q)];
    }
  }

  lemma SamePath(fs: Fs, p: seq<string>, q: seq<string>)
    requires Inv(fs) && IsPath(p) && IsPath(q) && p != [] && q != []
    requires Parent(fs, p).In? && Parent(fs, p) == Parent(fs, q) && Last(p) == Last(q)
    ensures p == q
  {
    hide Inv, Walk;
    PathsAreUnique(fs, p[..|p| - 1], q[..|q| - 1]);
    assert p == p[..|p| - 1] + [Last(p)] && q == q[..|q| - 1] + [Last(q)];
  }

  // ----- one name more -----

  /** big has one name more than small: the live entry e at j in directory d, and if that is a
      directory, its block, in which nothing is live. */
  ghost predicate OneMore(small: Fs, big: Fs, d: nat, j: nat, e: Entry) {
    && Inv(small) && Inv(big) && d in small.dirs && j < |small.dirs[d]| && !small.dirs[d][j].valid && e.valid
    && (if e.isDir then e.ino !in small.dirs && e.ino in big.dirs && !HasValid(big.dirs[e.ino])
          && big.dirs - {e.ino} == small.dirs[d := small.dirs[d][j := e]]
        else big.dirs == small.dirs[d := small.dirs[d][j := e]])
  }

  lemma OneMoreBlocks(small: Fs, big: Fs, d: nat, j: nat, e: Entry, b: nat)
    requires OneMore(small, big, d, j, e) && b in small.dirs
    ensures b in big.dirs && big.dirs[b] == if b == d then small.dirs[b][j := e] else small.dirs[b]
    ensures d in big.dirs && big.dirs[d][j] == e
  {
    hide Inv;
    var dirs := small.dirs[d := small.dirs[d][j := e]];
    assert d in dirs && dirs[d][j] == e && b in dirs;
    assert e.isDir ==> d in big.dirs - {e.ino} && b in big.dirs - {e.ino};
  }

  /** The new name is as it should be. */
  lemma NewName(small: Fs, big: Fs, d: nat, j: nat, e: Entry)
    requires OneMore(small, big, d, j, e)
    ensures EntryOk(big, e) && IsName(Plain(e.name)) && Named(e, Plain(e.name), e.isDir) && NoLive(small.dirs[d], Plain(e.name))
  {
    OneMoreBlocks(small, big, d, j, e, d);
    var es, es' := small.dirs[d], big.dirs[d];
    assert EntryOk(big, es'[j]);
    forall k | 0 <= k < |es| && es[k].valid ensures Plain(es[k].name) != Plain(e.name) {
      assert es'[k] == es[k];
      if k < j {
        LiveNamesDiffer(es', k, j);
      } else {
        LiveNamesDiffer(es', j, k);
      }
    }
  }

  /** Names that are not live are not said. */
  lemma NotSaid(fs: Fs, d: nat, x: string, isDir: bool, i: nat)
    requires d in fs.dirs && NoLive(fs.dirs[d], x) && IsName(x)
    ensures !Says(fs, d, x, isDir, i)
  {
    PlainOfSlash(x);
    assert Plain(x) == x;
  }

  /** What is said before and after. */
  lemma SaidOneMore(small: Fs, big: Fs, d: nat, j: nat, e: Entry, b: nat, x: string, isDir: bool, i: nat)
    requires OneMore(small, big, d, j, e) && b in small.dirs && IsName(x)
    ensures Says(big, b, x, isDir, i) <==>
      Says(small, b, x, isDir, i) || (b == d && x == Plain(e.name) && isDir == e.isDir && i == e.ino)
  {
    hide Inv, EntryOk, NoLive;
    OneMoreBlocks(small, big, d, j, e, b);
    NewName(small, big, d, j, e);
    assert Plain("/" + x) == x && Plain(x) == x by { PlainOfSlash(x); }
    var es, es' := small.dirs[b], big.dirs[b];
    assert forall k :: 0 <= k < |es| && (b != d || k != j) ==> es'[k] == es[k];
    if k :| 0 <= k < |es'| && Named(es'[k], x, isDir) && es'[k].ino == i {
      assert (b == d && k == j) || Named(es[k], x, isDir);
    }
    if k :| 0 <= k < |es| && Named(es[k], x, isDir) && es[k].ino == i {
      assert Named(es'[k], x, isDir);
    }
    if b == d && x == Plain(e.name) && isDir == e.isDir && i == e.ino {
      assert Named(es'[j], x, isDir);
    }
  }

  lemma LeadsSays(fs: Fs, path: seq<string>, isDir: bool, i: nat)
    requires Inv(fs) && IsPath(path) && path != []
    ensures Leads(fs, path, isDir) == i <==> Parent(fs, path).In? && Says(fs, Parent(fs, path).dir, Last(path), isDir, i)
  {
    hide Inv, Says, Walk, Find, Enter;
    if Parent(fs, path).In? {
      ScanIff(fs, Parent(fs, path).dir, Last(path), isDir, i);
    }
  }

  lemma NothingSaid(fs: Fs, d: nat, x: string, isDir: bool, i: nat)
    requires d in fs.dirs && !HasValid(fs.dirs[d])
    ensures !Says(fs, d, x, isDir, i)
  {
  }

  /** Walks end where they ended; only the one to the new directory ended nowhere. */
  lemma {:induction false} WalkOneMore(small: Fs, big: Fs, d: nat, j: nat, e: Entry, q: seq<string>)
    requires OneMore(small, big, d, j, e) && IsPath(q)
    ensures Walk(big, 0, q) == Walk(small, 0, q) ||
      (e.isDir && Walk(big, 0, q) == In(e.ino) && Walk(small, 0, q).Nowhere?)
    decreases |q|
  {
    hide Inv, Says, Walk, HasValid;
    if q == [] {
      WalkNowhereElse(small);
      WalkNowhereElse(big);
    } else {
      WalkOneMore(small, big, d, j, e, q[..|q| - 1]);
      var wb, ws := Walk(big, 0, q), Walk(small, 0, q);
      if wb.In? {
        WalkOn(big, q, wb.dir);
        WalkOn(small, q, wb.dir);
        var b := Parent(big, q).dir;
        if Parent(small, q).Nowhere? {
          NothingSaid(big, b, Last(q), true, wb.dir);
        } else {
          SaidOneMore(small, big, d, j, e, b, Last(q), true, wb.dir);
          if ws.In? && ws != wb {
            WalkOn(small, q, ws.dir);
            NewName(small, big, d, j, e);
            NotSaid(small, d, Last(q), true, ws.dir);
          }
        }
      } else if ws.In? {
        WalkOn(small, q, ws.dir);
        WalkOn(big, q, ws.dir);
        SaidOneMore(small, big, d, j, e, Parent(small, q).dir, Last(q), true, ws.dir);
      }
    }
  }

  /** Other names lead where they led. */
  lemma OthersOneMore(small: Fs, big: Fs, d: nat, j: nat, e: Entry, path: seq<string>, isDir: bool)
    requires OneMore(small, big, d, j, e) && IsPath(path) && path != []
    requires Parent(small, path) != In(d) || Last(path) != Plain(e.name)
    ensures Leads(big, path, isDir) == Leads(small, path, isDir)
  {
    hide Inv, Says, Walk, HasValid, Leads, OneMore;
    OneMoreInv(small, big, d, j, e);
    WalkOneMore(small, big, d, j, e, path[..|path| - 1]);
    LeadsRange(small, path, isDir);
    LeadsRange(big, path, isDir);
    var lb, ls := Leads(big, path, isDir), Leads(small, path, isDir);
    if lb >= 0 {
      LeadsSays(big, path, isDir, lb);
      LeadsSays(small, path, isDir, lb);
      if Parent(small, path).Nowhere? {
        OneMoreEmpty(small, big, d, j, e);
        NothingSaid(big, e.ino, Last(path), isDir, lb);
      } else {
        SaidOneMore(small, big, d, j, e, Parent(small, path).dir, Last(path), isDir, lb);
      }
    } else if ls >= 0 {
      LeadsSays(small, path, isDir, ls);
      LeadsSays(big, path, isDir, ls);
      SaidOneMore(small, big, d, j, e, Parent(small, path).dir, Last(path), isDir, ls);
    }
  }

  lemma OneMoreInv(small: Fs, big: Fs, d: nat, j: nat, e: Entry)
    requires OneMore(small, big, d, j, e)
    ensures Inv(small) && Inv(big)
  {
  }

  lemma OneMoreEmpty(small: Fs, big: Fs, d: nat, j: nat, e: Entry)
    requires OneMore(small, big, d, j, e) && e.isDir
    ensures e.ino in big.dirs && !HasValid(big.dirs[e.ino])
  {
  }

  lemma LeadsRange(fs: Fs, path: seq<string>, isDir: bool)
    requires Inv(fs) && IsPath(path)
    ensures Leads(fs, path, isDir) == -1 || 0 < Leads(fs, path, isDir) < NFILEINFS
  {
    if Lookup(fs, path, isDir).Some? {
      LookupFinds(fs, path, isDir);
    }
  }

  /** The new name leads to the new inode, as what it is, and led nowhere. */
  lemma NewOneMore(small: Fs, big: Fs, d: nat, j: nat, e: Entry, path: seq<string>, isDir: bool)
    requires OneMore(small, big, d, j, e) && IsPath(path) && path != []
    requires Parent(small, path) == In(d) && Last(path) == Plain(e.name)
    ensures Leads(small, path, isDir) == -1
    ensures Leads(big, path, isDir) == if isDir == e.isDir then e.ino else -1
  {
    hide Inv, Says, Walk, HasValid, Leads, OneMore;
    OneMoreInv(small, big, d, j, e);
    WalkOneMore(small, big, d, j, e, path[..|path| - 1]);
    LeadsRange(small, path, isDir);
    LeadsRange(big, path, isDir);
    NewName(small, big, d, j, e);
    var lb, ls := Leads(big, path, isDir), Leads(small, path, isDir);
    if ls >= 0 {
      LeadsSays(small, path, isDir, ls);
      NotSaid(small, d, Last(path), isDir, ls);
    }
    if lb >= 0 {
      LeadsSays(big, path, isDir, lb);
      SaidOneMore(small, big, d, j, e, d, Last(path), isDir, lb);
      NotSaid(small, d, Last(path), isDir, lb);
    }
    if isDir == e.isDir {
      LeadsSays(big, path, isDir, e.ino);
      SaidOneMore(small, big, d, j, e, d, Last(path), isDir, e.ino);
    }
  }

  /** One name more: it leads to the new inode, and all other paths lead where they led. */
  lemma NamesOneMore(small: Fs, big: Fs, d: nat, j: nat, e: Entry, path: seq<string>, other: seq<string>, isDir: bool)
    requires OneMore(small, big, d, j, e) && IsPath(path) && path != [] && IsPath(other) && other != []
    requires Parent(small, path) == In(d) && Last(path) == Plain(e.name)
    ensures Leads(small, path, isDir) == -1
    ensures Leads(big, path, isDir) == if isDir == e.isDir then e.ino else -1
    ensures other != path ==> Leads(big, other, isDir) == Leads(small, other, isDir)
  {
    hide Inv, Says, Walk, HasValid, Leads, OneMore;
    OneMoreInv(small, big, d, j, e);
    NewOneMore(small, big, d, j, e, path, isDir);
    if other != path {
      if Parent(small, other) == In(d) && Last(other) == Last(path) {
        SamePath(small, path, other);
      } else {
        OthersOneMore(small, big, d, j, e, other, isDir);
      }
    }
  }

  // ----- creating -----

  /** A path has no live name in a directory that is there. */
  ghost predicate IsVacant(fs: Fs, path: seq<string>) {
    path != [] && Parent(fs, path).In? && Leads(fs, path, true) == -1 && Leads(fs, path, false) == -1
  }

  /** Something is created exactly if the name is vacant and some inode is not in use. */
  lemma CreatesIff(fs: Fs, path: seq<string>, isDir: bool)
    requires Inv(fs) && IsPath(path)
    ensures Creates(fs, path, isDir) <==> IsVacant(fs, path) && exists i :: 0 <= i < |fs.used| && !fs.used[i]
  {
    if path != [] && Parent(fs, path).In? {
      VacantIff(fs, path, isDir);
    }
    hide Inv;
  }

  lemma VacantIff(fs: Fs, path: seq<string>, isDir: bool)
    requires Inv(fs) && IsPath(path) && path != [] && Parent(fs, path).In?
    ensures Find(fs.dirs[Parent(fs, path).dir], 0, Last(path), isDir).Missing?
      <==> Leads(fs, path, true) == -1 && Leads(fs, path, false) == -1
  {
    hide Inv, Walk, EntryOk, NoLive;
    var d, x := Parent(fs, path).dir, Last(path);
    var f := Find(fs.dirs[d], 0, x, isDir);
    LookupMisses(fs, path, isDir);
    if f.Missing? {
      NoLiveLeads(fs, path, true);
      NoLiveLeads(fs, path, false);
    } else if f.Clash? {
      var i := ClashSays(fs, d, x, isDir);
      LeadsSays(fs, path, !isDir, i);
    }
  }

  lemma NoLiveLeads(fs: Fs, path: seq<string>, isDir: bool)
    requires Inv(fs) && IsPath(path) && path != [] && Parent(fs, path).In? && NoLive(fs.dirs[Parent(fs, path).dir], Last(path))
    ensures Leads(fs, path, isDir) == -1
  {
    hide Inv, Walk, NoLive, Leads;
    LeadsRange(fs, path, isDir);
    var i := Leads(fs, path, isDir);
    if i >= 0 {
      LeadsSays(fs, path, isDir, i);
      NotSaid(fs, Parent(fs, path).dir, Last(path), isDir, i);
    }
  }

  lemma ClashSays(fs: Fs, d: nat, x: string, isDir: bool) returns (i: nat)
    requires Inv(fs) && d in fs.dirs && IsName(x) && Find(fs.dirs[d], 0, x, isDir).Clash?
    ensures Says(fs, d, x, !isDir, i)
  {
    FindIsLive(fs, fs.dirs[d], 0, x, isDir);
    var k :| 0 <= k < |fs.dirs[d]| && Named(fs.dirs[d][k], x, !isDir);
    i := fs.dirs[d][k].ino;
  }

  /** Opening with O_CREAT takes what the name leads to, or an inode that was not in use, or fails and
      changes nothing. */
  lemma CreateDecides(fs: Fs, path: seq<string>, isDir: bool)
    requires Inv(fs) && IsPath(path)
    ensures var out, i := Create(fs, path, isDir), Leads(fs, path, isDir);
      if i >= 0 then out == Outcome(fs, i, false)
      else if Creates(fs, path, isDir) then
        0 < out.ret < |fs.used| && !fs.used[out.ret] && !out.halted && out.ret !in fs.dirs
        && out.fs.used == fs.used[out.ret := true] && out.fs.refcnt == fs.refcnt[out.ret := 0]
        && out.fs.dirs.Keys == fs.dirs.Keys + (if isDir then {out.ret as nat} else {})
      else out == Refuse(fs)
  {
    if Creates(fs, path, isDir) {
      UnusedIsUnnamed(fs, FreeInode(fs.used, 0));
    }
    hide Inv;
  }

  /** What is created, given a slot, is found under its name, and every other path leads where it led. */
  lemma CreateAddsName(fs: Fs, path: seq<string>, isDir: bool, other: seq<string>, kind: bool)
    requires Inv(fs) && IsPath(path) && Creates(fs, path, isDir) && HasRoom(fs, path) && IsPath(other) && other != []
    ensures var out := Create(fs, path, isDir);
      && Leads(fs, path, kind) == -1
      && Leads(out.fs, path, kind) == (if kind == isDir then out.ret else -1)
      && (other != path ==> Leads(out.fs, other, kind) == Leads(fs, other, kind))
      && (isDir ==> out.ret in out.fs.dirs && !HasValid(out.fs.dirs[out.ret]))
  {
    hide Inv, Walk, Leads, OneMore, HasValid, Zeroed, FreeSlot, Find, Plain;
    TablesMatch(fs);
    CreateIsOneMore(fs, path, isDir);
    var d, i, x := Parent(fs, path).dir, FreeInode(fs.used, 0), Last(path);
    PlainOfNew(i, x, isDir);
    ZeroedIsEmpty();
    NamesOneMore(fs, Create(fs, path, isDir).fs, d, FreeSlot(fs.dirs[d], 0), NewEntry(i, x, isDir), path, other, kind);
  }

  lemma CreateIsOneMore(fs: Fs, path: seq<string>, isDir: bool)
    requires Inv(fs) && IsPath(path) && Creates(fs, path, isDir) && HasRoom(fs, path)
    ensures var d, i := Parent(fs, path).dir, FreeInode(fs.used, 0);
      && d in fs.dirs
      && OneMore(fs, Create(fs, path, isDir).fs, d, FreeSlot(fs.dirs[d], 0), NewEntry(i, Last(path), isDir))
  {
    CreateKeepsIff(fs, path, isDir);
    var d, i, x := Parent(fs, path).dir, FreeInode(fs.used, 0), Last(path);
    UnusedIsUnnamed(fs, i);
    ZeroedIsEmpty();
    assert |fs.dirs[d]| == NFILEINFS;
    hide Inv, Walk, HasValid, FreeSlot, Zeroed, Find;
    var dirs := fs.dirs[d := fs.dirs[d][FreeSlot(fs.dirs[d], 0) := NewEntry(i, x, isDir)]];
    assert Create(fs, path, isDir).fs.dirs == if isDir then dirs[i := Zeroed()] else dirs;
    assert isDir ==> dirs[i := Zeroed()] - {i} == dirs;
  }

  /** Without a slot the inode is taken all the same, and no name leads to it: every path leads where it led. */
  lemma CreateLosesInode(fs: Fs, path: seq<string>, isDir: bool, other: seq<string>, kind: bool)
    requires Inv(fs) && IsPath(path) && Creates(fs, path, isDir) && !HasRoom(fs, path)
    ensures var out := Create(fs, path, isDir);
      && out.ret >= 0 && out.fs.used != fs.used && Leads(fs, path, kind) == -1
      && Leads(out.fs, other, kind) == Leads(fs, other, kind)
  {
    CreateDecides(fs, path, isDir);
    CreatesIff(fs, path, isDir);
    var d, i, x := Parent(fs, path).dir, FreeInode(fs.used, 0), Last(path);
    UnusedIsUnnamed(fs, i);
    assert |fs.dirs[d]| == NFILEINFS;
    var fs' := Create(fs, path, isDir).fs;
    assert fs'.used[i] && !fs.used[i];
    assert fs'.dirs == if isDir then fs.dirs[i := Zeroed()] else fs.dirs;
    if other != [] {
      hide Inv, Create;
      WalkExtra(fs, fs', i, Zeroed(), 0, other[..|other| - 1]);
      UnchangedBlock(fs, fs', i, Zeroed(), other);
    }
  }

  lemma UnchangedBlock(fs: Fs, fs': Fs, i: nat, es: seq<Entry>, other: seq<string>)
    requires other != [] && i !in fs.dirs && (fs'.dirs == fs.dirs || fs'.dirs == fs.dirs[i := es])
    requires Parent(fs', other) == Parent(fs, other)
    ensures forall kind :: Leads(fs', other, kind) == Leads(fs, other, kind)
  {
    if Parent(fs, other).In? {
      assert fs'.dirs[Parent(fs, other).dir] == fs.dirs[Parent(fs, other).dir];
    }
  }

  /** A block that no entry names is on nobody's way. */
  lemma {:induction false} WalkExtra(fs: Fs, fs': Fs, i: nat, es: seq<Entry>, d: nat, q: seq<string>)
    requires i !in fs.dirs && d != i && (fs'.dirs == fs.dirs || fs'.dirs == fs.dirs[i := es])
    requires forall b, k :: b in fs.dirs && 0 <= k < |fs.dirs[b]| && fs.dirs[b][k].valid ==> fs.dirs[b][k].ino != i
    ensures Walk(fs', d, q) == Walk(fs, d, q)
    decreases |q|
  {
    if d in fs.dirs && q != [] && Enter(fs.dirs[d], 0, q[0]).At? {
      EnterFinds(fs.dirs[d], 0, q[0]);
      WalkExtra(fs, fs', i, es, fs.dirs[d][Enter(fs.dirs[d], 0, q[0]).k].ino, q[1..]);
    }
  }

  // ----- removing a directory -----

  /** Removing a directory succeeds exactly if there is one of that name with nothing live in it; then
      its inode and block are given up. Otherwise nothing changes. */
  lemma RmdirDecides(fs: Fs, path: seq<string>)
    requires Inv(fs) && IsPath(path)
    ensures var out, i := Remove(fs, path, true), Leads(fs, path, true);
      if i >= 0 && i in fs.dirs && !HasValid(fs.dirs[i]) then
        out.ret == 0 && !out.halted && i < |fs.used| == |fs.refcnt| && fs.used[i]
        && out.fs.used == fs.used[i := false] && out.fs.refcnt == fs.refcnt[i := 0]
        && out.fs.dirs.Keys == fs.dirs.Keys - {i}
      else out == Refuse(fs)
    ensures Leads(fs, path, true) >= 0 ==> Leads(fs, path, true) in fs.dirs
  {
    if Lookup(fs, path, true).Some? {
      LookupFinds(fs, path, true);
    }
    TablesMatch(fs);
    hide Inv, Lookup, HasValid;
  }

  /** A directory removed: its name leads nowhere, and every other path leads where it led. */
  lemma RmdirRemovesName(fs: Fs, path: seq<string>, other: seq<string>, kind: bool)
    requires Inv(fs) && IsPath(path) && IsPath(other) && other != [] && Remove(fs, path, true).ret == 0
    ensures var fs' := Remove(fs, path, true).fs;
      && Leads(fs', path, kind) == -1
      && (other != path ==> Leads(fs', other, kind) == Leads(fs, other, kind))
  {
    var r := Lookup(fs, path, true);
    LookupFinds(fs, path, true);
    RmdirIsOneLess(fs, path);
    PlainOfSlash(Last(path));
    var fs', e := Remove(fs, path, true).fs, EntryAt(fs, r);
    assert Plain(e.name) == Last(path);
    hide Inv, Walk, Leads, OneMore, HasValid, Remove;
    ParentOneMore(fs', fs, r.dir, r.k, e, path);
    NamesOneMore(fs', fs, r.dir, r.k, e, path, other, kind);
  }

  /** The directory that holds the name is there before and after. */
  lemma ParentOneMore(small: Fs, big: Fs, d: nat, j: nat, e: Entry, path: seq<string>)
    requires OneMore(small, big, d, j, e) && IsPath(path) && path != [] && Parent(big, path) == In(d)
    ensures Parent(small, path) == In(d)
  {
    hide Inv, Walk, HasValid;
    WalkOneMore(small, big, d, j, e, path[..|path| - 1]);
  }

  lemma RmdirIsOneLess(fs: Fs, path: seq<string>)
    requires Inv(fs) && IsPath(path) && Remove(fs, path, true).ret == 0
    ensures var r := Lookup(fs, path, true);
      r.Some? && OneMore(Remove(fs, path, true).fs, fs, r.dir, r.k, EntryAt(fs, r))
  {
    hide Inv, Walk, HasValid, Find, Lookup, OneMore, Removed;
    LookupFinds(fs, path, true);
    RmdirKeeps(fs, path);
    TablesMatch(fs);
    RemovedIsOneLess(fs, Lookup(fs, path, true));
  }

  lemma RemovedIsOneLess(fs: Fs, r: Result)
    requires Inv(fs) && CanRemove(fs, r) && EntryAt(fs, r).isDir && Inv(Removed(fs, r))
    ensures OneMore(Removed(fs, r), fs, r.dir, r.k, EntryAt(fs, r))
  {
    hide Inv, HasValid;
    RemovedOnce(fs, r);
    var e, fs', es := EntryAt(fs, r), Removed(fs, r), fs.dirs[r.dir];
    var dirs := fs.dirs[r.dir := es[r.k := e.(valid := false)]];
    assert fs'.dirs == dirs - {e.ino};
    assert es[r.k := e.(valid := false)][r.k := e] == es;
    assert fs.dirs - {e.ino} == fs'.dirs[r.dir := fs'.dirs[r.dir][r.k := e]];
  }

  lemma LeadsVacant(fs: Fs, path: seq<string>)
    requires Inv(fs) && IsPath(path) && Creates(fs, path, true)
    ensures path != [] && Leads(fs, path, true) == -1 && Leads(fs, path, false) == -1
  {
    CreatesIff(fs, path, true);
  }

  /** A directory created and removed again leaves every path as it was, and the same inodes in use. */
  lemma RmdirUndoesCreate(fs: Fs, path: seq<string>, other: seq<string>, kind: bool)
    requires Inv(fs) && IsPath(path) && Creates(fs, path, true) && HasRoom(fs, path) && IsPath(other) && other != []
    ensures var fs1 := Create(fs, path, true).fs;
      && |fs1.used| == |fs1.refcnt|
      && var out := Remove(fs1, path, true);
         out.ret == 0 && Inv(out.fs) && out.fs.used == fs.used && out.fs.dirs.Keys == fs.dirs.Keys
         && Leads(out.fs, other, kind) == Leads(fs, other, kind)
  {
    hide *;
    TablesMatch(fs);
    LeadsVacant(fs, path);
    CreateDecides(fs, path, true);
    CreateAddsName(fs, path, true, path, true);
    CreateAddsName(fs, path, true, other, kind);
    CreateKeepsIff(fs, path, true);
    var fs1 := Create(fs, path, true).fs;
    TablesMatch(fs1);
    RmdirDecides(fs1, path);
    RmdirKeeps(fs1, path);
    RmdirRemovesName(fs1, path, other, kind);
  }

  // ----- linking and unlinking -----

  /** A link is made exactly if the old name leads to a file, the new one to none, its directory is there
      and not the mount root, and has a slot. Otherwise nothing changes. */
  lemma LinkDecides(fs: Fs, oldpath: seq<string>, newpath: seq<string>)
    requires Inv(fs) && IsPath(oldpath) && IsPath(newpath) && newpath != []
    ensures var out, i := Link(fs, oldpath, newpath), Leads(fs, oldpath, false);
      if i >= 0 && Leads(fs, newpath, false) == -1 && |newpath| > 1 && Parent(fs, newpath).In? && HasRoom(fs, newpath) then
        out.ret == 0 && !out.halted && i < |fs.refcnt|
        && out.fs.used == fs.used && out.fs.refcnt == fs.refcnt[i := fs.refcnt[i] + 1] && out.fs.dirs.Keys == fs.dirs.Keys
      else out == Refuse(fs)
  {
    hide Inv, Lookup, Walk;
    TablesMatch(fs);
    var up := newpath[..|newpath| - 1];
    LookupIsWalk(fs, up);
    if Lookup(fs, oldpath, false).Some? {
      LookupFinds(fs, oldpath, false);
    }
    if Parent(fs, newpath).In? {
      LiveNames(fs, Parent(fs, newpath).dir);
    }
  }

  /** A link made under a name that no directory has: the new name leads to the old file, and every
      other path, of files and directories, leads where it led. */
  lemma LinkKeepsOthers(fs: Fs, oldpath: seq<string>, newpath: seq<string>, other: seq<string>, kind: bool)
    requires Inv(fs) && IsPath(oldpath) && IsPath(newpath) && newpath != [] && IsPath(other) && other != []
    requires Link(fs, oldpath, newpath).ret == 0 && Lookup(fs, newpath, true).None?
    ensures var fs' := Link(fs, oldpath, newpath).fs;
      && Leads(fs', newpath, kind) == (if kind then -1 else Leads(fs, oldpath, false))
      && (other != newpath ==> Leads(fs', other, kind) == Leads(fs, other, kind))
  {
    LinkIsLinked(fs, oldpath, newpath);
    var ino, d, x := Leads(fs, oldpath, false), Parent(fs, newpath).dir, Last(newpath);
    hide Inv, Walk, Leads, Lookup, Link, FreeSlot, HasValid;
    LinkedParts(fs, ino, d, FreeSlot(fs.dirs[d], 0), x);
    PlainOfLast(newpath);
    NamesOneMore(fs, Link(fs, oldpath, newpath).fs, d, FreeSlot(fs.dirs[d], 0), Entry(true, ino, false, x), newpath, other, kind);
  }

  /** Unlinking takes one off the count of a file with further links, and gives up the inode of one
      without; a name that leads to no file changes nothing. */
  lemma UnlinkDecides(fs: Fs, path: seq<string>)
    requires Inv(fs) && IsPath(path) && path != []
    ensures var out, i := Unlink(fs, path), Leads(fs, path, false);
      if i < 0 then out == Refuse(fs)
      else
        i < |fs.used| == |fs.refcnt| && fs.used[i] && fs.refcnt[i] >= 0
        && out.fs.used == (if fs.refcnt[i] == 0 then fs.used[i := false] else fs.used)
        && out.fs.refcnt == fs.refcnt[i := if fs.refcnt[i] == 0 then 0 else fs.refcnt[i] - 1]
        && (out.halted <==> fs.refcnt[i] > 0 && |path| == 1) && (!out.halted ==> out.ret == 0)
  {
    var r := Lookup(fs, path, false);
    if r.Some? {
      LookupFinds(fs, path, false);
      FoundCount(fs, path);
      UnlinkKeepsIff(fs, path);
    }
    hide Inv, Lookup, NameSlot;
  }

  /** A name unlinked leads nowhere, and every other path leads where it led. */
  lemma UnlinkKeepsOthers(fs: Fs, path: seq<string>, other: seq<string>, kind: bool)
    requires Inv(fs) && IsPath(path) && path != [] && IsPath(other) && other != []
    requires Leads(fs, path, false) >= 0 && !Unlink(fs, path).halted
    ensures var fs' := Unlink(fs, path).fs;
      && Leads(fs', path, kind) == -1
      && (other != path ==> Leads(fs', other, kind) == Leads(fs, other, kind))
  {
    var r := Lookup(fs, path, false);
    LookupFinds(fs, path, false);
    UnlinkKeepsIff(fs, path);
    UnlinkDirs(fs, path);
    var fs', e := Unlink(fs, path).fs, EntryAt(fs, r);
    assert Plain(Last(path)) == Last(path);
    hide Inv, Walk, Leads, Lookup, Unlink, HasValid;
    var es := fs.dirs[r.dir];
    assert es[r.k := e.(valid := false)][r.k := e] == es;
    assert fs.dirs == fs'.dirs[r.dir := fs'.dirs[r.dir][r.k := e]];
    ParentOneMore(fs', fs, r.dir, r.k, e, path);
    NamesOneMore(fs', fs, r.dir, r.k, e, path, other, kind);
  }
}
