/** What mkdir, create, cd and rm (fs/dir.c) do, told by entries and paths: of the tree
    first, then of the record logs and of what pwd prints. */
module DirMeaning {
  import opened Words
  import opened DirLog
  import opened DirMap
  import opened DirTree
  import opened DirFile
  import DirCommands

  // ------------------------------------------------------------------ on the tree

  /** `cd` moves to where the entry leads if that is a directory. A name other than `.`
      and `..` is put at the end of the path, `..` takes the last one off. */
  lemma CdMeans(t: Tree, n: Name)
    requires IsTree(t) && Enabled(t, Cd(n))
    ensures Placed(t, t.cwd) && IsTree(Step(t, Cd(n)))
    ensures var t' := Step(t, Cd(n));
            && t'.all == t.all && t'.dirs == t.dirs && t'.depth == t.depth
            && t'.cwd == (if Walk(t, t.cwd, [n]) in t.dirs then Walk(t, t.cwd, [n]) else t.cwd)
            && (forall d :: d in t.dirs ==> Path(t', d) == Path(t, d))
            && (!Dotted(n) && n in t.dirs[t.cwd] && t.dirs[t.cwd][n] in t.dirs ==>
                  t'.cwd == t.dirs[t.cwd][n] && Path(t', t'.cwd) == Path(t, t.cwd) + [n])
            && (n !in t.dirs[t.cwd] || t.dirs[t.cwd][n] !in t.dirs ==> t' == t)
            && (n == DOT ==> t' == t)
            && (n == DOTDOT ==>
                  if t.cwd == ROOT then t' == t
                  else |Path(t, t.cwd)| > 0 && Path(t', t'.cwd) == Path(t, t.cwd)[..|Path(t, t.cwd)| - 1])
  {
    hide Path, Linked, Reached, Walk;
    PlacedAt(t, t.cwd);
    StepKeepsTree(t, Cd(n));
    NotNegative(t);
    OneStep(t, n);
    var t' := Step(t, Cd(n));
    forall d | d in t.dirs ensures Path(t', d) == Path(t, d) {
      PathsAgree(t', t, d);
    }
    if n in t.dirs[t.cwd] && t.dirs[t.cwd][n] in t.dirs && !Dotted(n) {
      PathOfChild(t, t.cwd, n);
    }
    PathOfParent(t, t.cwd);
  }

  lemma OneStep(t: Tree, n: Name)
    requires t.cwd in t.dirs
    ensures Walk(t, t.cwd, [n]) == if n in t.dirs[t.cwd] then t.dirs[t.cwd][n] else -1
  {
    assert [n][1..] == [];
  }

  /** Making a new name adds its entry and its inode and nothing else. The inode is a
      directory after mkdir only, and then one level further down. */
  lemma MakeMeans(t: Tree, n: Name, nr: int, dir: bool)
    requires var c := if dir then Mkdir(n, nr) else Create(n, nr); IsTree(t) && Enabled(t, c)
    ensures Placed(t, t.cwd)
    ensures var c := if dir then Mkdir(n, nr) else Create(n, nr);
            var t' := Step(t, c);
            && IsTree(t')
            && (n in t.dirs[t.cwd] ==> t' == t)
            && (n !in t.dirs[t.cwd] ==>
                  && !Dotted(n) && t'.all == t.all + {nr} && t'.cwd == t.cwd
                  && t'.dirs.Keys == t.dirs.Keys + (if dir then {nr} else {})
                  && (forall d, m, e :: Link(t', d, m, e) <==> Link(t, d, m, e) || (d == t.cwd && m == n && e == nr))
                  && (forall d :: d in t.dirs ==> DotsKept(t, t', d) && Path(t', d) == Path(t, d))
                  && (dir ==> Path(t', nr) == Path(t, t.cwd) + [n]))
  {
    hide Path, Linked, Reached, DirTree.Make, Link, Placed;
    var c := if dir then Mkdir(n, nr) else Create(n, nr);
    PlacedAt(t, t.cwd);
    PlacedFacts(t, t.cwd);
    StepKeepsTree(t, c);
    if n !in t.dirs[t.cwd] {
      var t' := Step(t, c);
      assert t' == DirTree.Make(t, n, nr, dir);
      NewName(t, n);
      MakeLinks(t, n, nr, dir);
      MakeAll(t, n, nr, dir);
      forall d ensures d in t'.dirs <==> d in t.dirs || (dir && d == nr) {
        MakeDirs(t, n, nr, dir, d);
      }
      forall d | d in t.dirs ensures DotsKept(t, t', d) && Path(t', d) == Path(t, d) {
        MakeDirs(t, n, nr, dir, d);
        PathsAgree(t, t', d);
      }
      if dir {
        assert Link(t', t'.cwd, n, nr);
        LinkIsFunctional(t', t'.cwd, n, nr);
        PathOfChild(t', t'.cwd, n);
      }
    }
  }

  lemma NewName(t: Tree, n: Name)
    requires Placed(t, t.cwd) && n !in t.dirs[t.cwd]
    ensures !Dotted(n)
  {
  }

  /** `rm` takes away the entry and its inode if the inode is no directory, or one with
      no entry left; for `.`, `..`, a name not there and a directory in use, nothing. */
  lemma RmMeans(t: Tree, n: Name)
    requires IsTree(t) && Enabled(t, Rm(n))
    ensures Placed(t, t.cwd)
    ensures var t' := Step(t, Rm(n));
            && IsTree(t')
            && var nr := if n in t.dirs[t.cwd] then t.dirs[t.cwd][n] else -1;
            && var allowed := Link(t, t.cwd, n, nr) && !exists m, e :: Link(t, nr, m, e);
            && (!allowed ==> t' == t)
            && (allowed ==>
                  && t'.all == t.all - {nr} && t'.cwd == t.cwd && t'.dirs.Keys == t.dirs.Keys - {nr}
                  && (forall d, m, e :: Link(t', d, m, e) <==> Link(t, d, m, e) && !(d == t.cwd && m == n))
                  && (forall d :: d in t'.dirs ==> DotsKept(t, t', d) && Path(t', d) == Path(t, d)))
  {
    hide Path, Linked, Reached, Unlink, Placed, Empty;
    PlacedAt(t, t.cwd);
    StepKeepsTree(t, Rm(n));
    var t' := Step(t, Rm(n));
    if n in t.dirs[t.cwd] && !Dotted(n) {
      var nr := t.dirs[t.cwd][n];
      EmptyIsLinkless(t, nr);
      if Empty(t, nr) {
        assert t' == Unlink(t, n);
        UnlinkLinks(t, n);
        UnlinkAll(t, n);
        forall d | d in t'.dirs ensures DotsKept(t, t', d) && Path(t', d) == Path(t, d) {
          UnlinkDirs(t, n, d);
          PathsAgree(t', t, d);
        }
      }
    }
  }

  lemma UnlinkAll(t: Tree, n: Name)
    requires Rooted(t) && n in t.dirs[t.cwd] && t.dirs[t.cwd][n] != t.cwd
    ensures Unlink(t, n).all == t.all - {t.dirs[t.cwd][n]} && Unlink(t, n).cwd == t.cwd
    ensures Unlink(t, n).dirs.Keys == t.dirs.Keys - {t.dirs[t.cwd][n]}
  {
  }

  lemma EmptyIsLinkless(t: Tree, d: int)
    ensures Empty(t, d) <==> !exists n, c :: Link(t, d, n, c)
  {
    if d in t.dirs && !Empty(t, d) {
      var n :| n in t.dirs[d] && !Dotted(n);
      assert Link(t, d, n, t.dirs[d][n]);
    }
  }

  // ------------------------------------------------------------------------ paths

  /** Where all entries of one tree are entries of the other, paths are the same. */
  lemma PathsAgree(a: Tree, b: Tree, d: int)
    requires IsTree(a) && IsTree(b) && d in a.dirs && d in b.dirs
    requires forall e, n, c :: Link(a, e, n, c) ==> Link(b, e, n, c)
    ensures Path(a, d) == Path(b, d)
  {
    hide Path, IsTree, Walk, Link;
    PathLeadsThere(a, d);
    WalksAgree(a, b, d);
    PathIsTheWalk(b, d, Path(a, d));
  }

  lemma {:induction false} WalksAgree(a: Tree, b: Tree, d: int)
    requires IsTree(a) && IsTree(b) && d in a.dirs
    requires forall e, n, c :: Link(a, e, n, c) ==> Link(b, e, n, c)
    ensures Walk(b, ROOT, Path(a, d)) == d
    decreases Depth(a, d)
  {
    hide Linked, Reached, Walk, Link;
    PlacedAt(a, d);
    NotNegative(b);
    if d == ROOT {
      StandStill(b, ROOT);
    } else {
      var up := a.dirs[d][DOTDOT];
      PlacedAt(a, up);
      WalksAgree(a, b, up);
      LinkIsFunctional(b, up, NameOf(a, d), d);
      WalkAppend(b, ROOT, Path(a, up), NameOf(a, d));
    }
  }

  lemma PathOfChild(t: Tree, d: int, n: Name)
    requires IsTree(t) && d in t.dirs && n in t.dirs[d] && !Dotted(n) && t.dirs[d][n] in t.dirs
    ensures Path(t, t.dirs[d][n]) == Path(t, d) + [n]
  {
    hide Path, Linked, Reached, Walk;
    PathLeadsThere(t, d);
    NotNegative(t);
    WalkAppend(t, ROOT, Path(t, d), n);
    PathIsTheWalk(t, t.dirs[d][n], Path(t, d) + [n]);
  }

  lemma PathOfParent(t: Tree, d: int)
    requires IsTree(t) && d in t.dirs
    ensures Placed(t, d) && t.dirs[d][DOTDOT] in t.dirs
    ensures d != ROOT ==> |Path(t, d)| > 0 && Path(t, t.dirs[d][DOTDOT]) == Path(t, d)[..|Path(t, d)| - 1]
  {
    hide Linked, Reached;
    PlacedAt(t, d);
  }

  // ------------------------------------------------------------------ on the logs

  /** cd moves to the inode that the entry of the current directory gives, if that is a
      directory; no log changes. */
  lemma CdOnLogs(v: DirCommands.Volume, n: Name, heap: DirCommands.Heap)
    requires DirCommands.Valid(v) && DirCommands.May(v, Cd(n))
    ensures DirCommands.IsDir(v, v.cwd) && v.cwd in v.depth
    ensures var here := Entries(v.inodes[v.cwd].records);
            DirCommands.Step(v, Cd(n), heap)
            == v.(cwd := if n in here && DirCommands.IsDir(v, here[n]) then here[n] else v.cwd)
  {
    hide Entries, Unique, Lookup, Find, AllWhole, DirCommands.Scanned, IsTree;
    DirCommands.ViewFacts(v);
    DirCommands.ScansAreWhole(v, heap);
    DirCommands.NotNegativeCwd(v);
    LookupIsGet(v.inodes[v.cwd].records, n);
    assert -ENOENT !in v.inodes;
  }

  /** The log of the current directory gets the entry; a new directory has `.` and `..`,
      made of byte 46. */
  lemma MakeOnLogs(v: DirCommands.Volume, n: Name, nr: int, dir: bool, heap: DirCommands.Heap)
    requires DirCommands.Valid(v) && DirCommands.May(v, if dir then Mkdir(n, nr) else Create(n, nr))
    ensures DirCommands.IsDir(v, v.cwd) && v.cwd in v.depth
    ensures var v' := DirCommands.Step(v, if dir then Mkdir(n, nr) else Create(n, nr), heap);
            var here := Entries(v.inodes[v.cwd].records);
            && (n in here ==> v' == v)
            && (n !in here ==>
                  && v'.cwd == v.cwd && nr !in v.inodes && v'.inodes.Keys == v.inodes.Keys + {nr}
                  && (forall d :: d in v.inodes && d != v.cwd ==> v'.inodes[d] == v.inodes[d])
                  && DirCommands.IsDir(v', v.cwd) && Entries(v'.inodes[v.cwd].records) == here[n := nr]
                  && (if dir
                      then DirCommands.IsDir(v', nr) && Entries(v'.inodes[nr].records) == map[[46] := nr, [46, 46] := v.cwd]
                      else v'.inodes[nr] == DirCommands.Plain))
  {
    hide Entries, Unique, Lookup, Find, AllWhole, Add, DirCommands.EmptyDir, DirCommands.Scanned, IsTree, DirCommands.Fits;
    DirCommands.ViewFacts(v);
    DirCommands.ScansAreWhole(v, heap);
    DirCommands.NotNegativeCwd(v);
    LookupIsGet(v.inodes[v.cwd].records, n);
    if n !in Entries(v.inodes[v.cwd].records) {
      AddIsInsert(v.inodes[v.cwd].records, n, nr);
      DirCommands.EmptyDirEntries(nr, v.cwd);
    }
  }

  /** The entry leaves the log of the current directory and its inode goes, if it is not
      a directory that still has entries. */
  lemma RmOnLogs(v: DirCommands.Volume, n: Name, heap: DirCommands.Heap)
    requires DirCommands.Valid(v) && DirCommands.May(v, Rm(n))
    ensures DirCommands.IsDir(v, v.cwd) && v.cwd in v.depth
    ensures var v' := DirCommands.Step(v, Rm(n), heap);
            var here := Entries(v.inodes[v.cwd].records);
            var nr := if n in here then here[n] else -1;
            var allowed := n in here && !Dotted(n)
                           && (DirCommands.IsDir(v, nr) ==> forall m :: m in Entries(v.inodes[nr].records) ==> Dotted(m));
            && (!allowed ==> v' == v)
            && (allowed ==>
                  && v'.cwd == v.cwd && nr != v.cwd && v'.inodes.Keys == v.inodes.Keys - {nr}
                  && (forall d :: d in v'.inodes && d != v.cwd ==> v'.inodes[d] == v.inodes[d])
                  && DirCommands.IsDir(v', v.cwd) && Entries(v'.inodes[v.cwd].records) == here - {n})
  {
    hide Entries, Unique, Lookup, Find, AllWhole, Remove, DirCommands.Scanned, IsTree, DirCommands.MayRemove;
    DirCommands.ViewFacts(v);
    DirCommands.ScansAreWhole(v, heap);
    DirCommands.NotNegativeCwd(v);
    var rs := v.inodes[v.cwd].records;
    LookupIsGet(rs, n);
    if n in Entries(rs) && !Dotted(n) {
      var nr := Entries(rs)[n];
      DirCommands.MayRemoveIsEmpty(v, nr);
      DirCommands.RemovedAsIs(rs, n);
      RemoveIsDelete(rs, n);
      if Empty(DirCommands.View(v), nr) {
        DirCommands.ChildIsNotSelf(v, n, nr);
      }
    }
  }

  /** What pwd prints after a command: for cd one name more or one less, with a slash
      (byte 47) between names; for the others the same as before. */
  lemma PwdFollows(v: DirCommands.Volume, c: Command, heap: DirCommands.Heap)
    requires DirCommands.Valid(v) && DirCommands.May(v, c)
    ensures DirCommands.IsDir(v, v.cwd) && v.cwd in v.depth && IsTree(DirCommands.View(v)) && v.cwd in DirCommands.View(v).dirs
    ensures var v' := DirCommands.Step(v, c, heap); DirCommands.Valid(v') && DirCommands.IsDir(v', v'.cwd)
    ensures var v' := DirCommands.Step(v, c, heap);
            var here := Entries(v.inodes[v.cwd].records);
            var before, now := DirCommands.Pwd(v, v.cwd).0, DirCommands.Pwd(v', v'.cwd).0;
            var slash: seq<byte> := [47];
            var moves := c.Cd? && c.name in here && DirCommands.IsDir(v, here[c.name]);
            && (moves && !Dotted(c.name) ==> now == before + (if v.cwd == ROOT then [] else slash) + c.name)
            && (moves && c.name == DOTDOT && v.cwd != ROOT ==>
                  before == now + (if v'.cwd == ROOT then [] else slash) + NameOf(DirCommands.View(v), v.cwd))
            && (!moves || c.name == DOT || (c.name == DOTDOT && v.cwd == ROOT) ==> now == before)
  {
    hide DirCommands.Step, Entries, IsTree, DirTree.Step, Path, DirCommands.Pwd, DirCommands.Printed, DirCommands.LogsSound;
    hide Linked, Reached, Rooted, Walk, DirCommands.Scanned, DirCommands.May;
    DirCommands.StepKeepsValid(v, c, heap);
    var v' := DirCommands.Step(v, c, heap);
    DirCommands.ViewFacts(v');
    DirCommands.StepRefines(v, c, heap);
    DirCommands.PwdPrintsPath(v, v.cwd);
    DirCommands.PwdPrintsPath(v', v'.cwd);
    PathFollows(v, c);
    var t, t' := DirCommands.View(v), DirCommands.View(v');
    DirCommands.PathUnfolds(t, t.cwd);
    DirCommands.PathUnfolds(t', t'.cwd);
    DirCommands.PrintedAppend(Path(t, t.cwd), c.name);
    if c == Cd(DOTDOT) && v.cwd != ROOT {
      DirCommands.PrintedAppend(Path(t', t'.cwd), NameOf(t, t.cwd));
    }
  }

  lemma PathFollows(v: DirCommands.Volume, c: Command)
    requires DirCommands.Valid(v) && DirCommands.May(v, c)
    ensures DirCommands.IsDir(v, v.cwd) && Placed(DirCommands.View(v), v.cwd)
    ensures IsTree(DirTree.Step(DirCommands.View(v), c))
    ensures var here := Entries(v.inodes[v.cwd].records);
            var t, t' := DirCommands.View(v), DirTree.Step(DirCommands.View(v), c);
            var moves := c.Cd? && c.name in here && DirCommands.IsDir(v, here[c.name]);
            && t'.cwd in t'.dirs && t.cwd in t.dirs
            && (moves && !Dotted(c.name) ==> Path(t', t'.cwd) == Path(t, t.cwd) + [c.name])
            && (moves && c.name == DOTDOT && v.cwd != ROOT ==>
                  Path(t, t.cwd) == Path(t', t'.cwd) + [NameOf(t, t.cwd)])
            && (!moves || c.name == DOT || (c.name == DOTDOT && v.cwd == ROOT) ==> Path(t', t'.cwd) == Path(t, t.cwd))
  {
    hide Entries, Path, Linked, Reached, Walk, DirTree.Step, DirCommands.LogsSound, DirCommands.Fits, Empty;
    DirCommands.ViewFacts(v);
    var t := DirCommands.View(v);
    assert t.dirs[t.cwd] == Entries(v.inodes[v.cwd].records);
    match c
    case Cd(n) =>
      CdMeans(t, n);
      DirCommands.PathUnfolds(t, t.cwd);
    case Mkdir(n, nr) => MakeMeans(t, n, nr, true);
    case Create(n, nr) => MakeMeans(t, n, nr, false);
    case Rm(n) => RmMeans(t, n);
  }
}
