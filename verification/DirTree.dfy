/** The directory tree (fs/dir.c) under mkdir, create, cd and rm, as a finite map per
    directory. DirCommands ties it to the record logs. */
module DirTree {
  import opened Words
  import opened DirLog
  import opened DirMap

  const ROOT: int := 0

  type Name = seq<byte>

  /** All inodes in use, the entries of those that are directories, and the current
      directory. `depth` records how far below the root a directory was made. */
  datatype Tree = Tree(all: set<int>, dirs: map<int, map<Name, int>>, cwd: int, depth: map<int, nat>)

  /** `name` is an entry of directory `d`, other than `.` and `..`, for inode `c`. */
  predicate Link(t: Tree, d: int, name: Name, c: int) {
    d in t.dirs && name in t.dirs[d] && !Dotted(name) && t.dirs[d][name] == c
  }

  ghost predicate Rooted(t: Tree) {
    && ROOT in t.dirs && t.cwd in t.dirs && t.dirs.Keys <= t.all && (forall c :: c in t.all ==> c >= 0)
    && (forall d {:trigger Placed(t, d)} :: d in t.dirs ==> Placed(t, d))
  }

  /** `.` is the directory itself and `..` one level up; the root is its own parent. */
  ghost predicate Placed(t: Tree, d: int) {
    && d in t.dirs && DOT in t.dirs[d] && DOTDOT in t.dirs[d] && t.dirs[d][DOT] == d
    && var up := t.dirs[d][DOTDOT];
    && up in t.dirs && d in t.depth && up in t.depth
    && (if d == ROOT then up == ROOT else t.depth[d] == t.depth[up] + 1)
  }

  /** Entries lead to existing inodes, and back by `..`; no inode has two. */
  ghost predicate Linked(t: Tree) {
    && (forall d, n, c :: Link(t, d, n, c) ==> c in t.all && c != ROOT)
    && (forall d, n, c :: Link(t, d, n, c) && c in t.dirs ==> DOTDOT in t.dirs[c] && t.dirs[c][DOTDOT] == d)
    && (forall d, n, c, e, m :: Link(t, d, n, c) && Link(t, e, m, c) ==> d == e && n == m)
  }

  /** Every inode but the root has an entry. */
  ghost predicate Reached(t: Tree) {
    forall c :: c in t.all && c != ROOT ==> HasLink(t, c)
  }

  ghost predicate HasLink(t: Tree, c: int) {
    exists d, n :: Link(t, d, n, c)
  }

  ghost predicate IsTree(t: Tree) {
    Rooted(t) && Linked(t) && Reached(t)
  }

  // --------------------------------------------------------------------- commands

  datatype Command =
    | Mkdir(name: Name, nr: int)   // `nr` is the inode number that was free
    | Create(name: Name, nr: int)
    | Cd(name: Name)
    | Rm(name: Name)

  lemma PlacedAt(t: Tree, d: int)
    requires Rooted(t) && d in t.dirs
    ensures Placed(t, d)
  {
  }

  /** A name is a C string; the inode number is free. */
  predicate Enabled(t: Tree, c: Command) {
    IsName(c.name) && ((c.Mkdir? || c.Create?) ==> c.nr >= 0 && c.nr !in t.all)
  }

  predicate Empty(t: Tree, d: int) {
    d in t.dirs ==> forall n :: n in t.dirs[d] ==> Dotted(n)
  }

  function Make(t: Tree, name: Name, nr: int, dir: bool): Tree
    requires t.cwd in t.dirs && t.cwd in t.depth
  {
    var dirs := t.dirs[t.cwd := t.dirs[t.cwd][name := nr]];
    if dir
    then t.(all := t.all + {nr}, dirs := dirs[nr := map[DOT := nr, DOTDOT := t.cwd]],
            depth := t.depth[nr := t.depth[t.cwd] + 1])
    else t.(all := t.all + {nr}, dirs := dirs)
  }

  function Unlink(t: Tree, name: Name): Tree
    requires t.cwd in t.dirs && name in t.dirs[t.cwd]
  {
    var nr := t.dirs[t.cwd][name];
    t.(all := t.all - {nr}, dirs := t.dirs[t.cwd := t.dirs[t.cwd] - {name}] - {nr})
  }

  function Step(t: Tree, c: Command): Tree
    requires Placed(t, t.cwd)
  {
    var here := t.dirs[t.cwd];
    match c
    case Mkdir(name, nr) => if name in here then t else Make(t, name, nr, true)
    case Create(name, nr) => if name in here then t else Make(t, name, nr, false)
    case Cd(name) => if name in here && here[name] in t.dirs then t.(cwd := here[name]) else t
    case Rm(name) => if Dotted(name) || name !in here || !Empty(t, here[name]) then t else Unlink(t, name)
  }

  // ----------------------------------------------------- every command keeps a tree

  lemma MakeLinks(t: Tree, name: Name, nr: int, dir: bool)
    requires IsTree(t) && Placed(t, t.cwd) && name !in t.dirs[t.cwd] && nr >= 0 && nr !in t.all
    ensures forall d, n, c :: Link(Make(t, name, nr, dir), d, n, c) <==> Link(t, d, n, c) || (d == t.cwd && n == name && c == nr)
  {
    hide Linked, Reached;
    assert !Dotted(name);
    var t' := Make(t, name, nr, dir);
    forall d, n, c ensures Link(t', d, n, c) <==> Link(t, d, n, c) || (d == t.cwd && n == name && c == nr) {
    }
  }

  /** `.`, `..` and depth of the directories that were there, and of the new one. */
  ghost predicate DotsKept(t: Tree, t': Tree, d: int) {
    && d in t'.dirs && DOT in t'.dirs[d] && DOTDOT in t'.dirs[d] && d in t'.depth
    && d in t.dirs && DOT in t.dirs[d] && DOTDOT in t.dirs[d] && d in t.depth
    && t'.dirs[d][DOT] == t.dirs[d][DOT] && t'.dirs[d][DOTDOT] == t.dirs[d][DOTDOT] && t'.depth[d] == t.depth[d]
  }

  lemma MakeDirs(t: Tree, name: Name, nr: int, dir: bool, d: int)
    requires Rooted(t) && Placed(t, t.cwd) && name !in t.dirs[t.cwd] && nr !in t.all
    ensures var t' := Make(t, name, nr, dir);
            && (d in t.dirs ==> DotsKept(t, t', d))
            && (d in t'.dirs <==> d in t.dirs || (dir && d == nr))
            && (dir && d == nr ==>
                  && d in t'.depth && DOT in t'.dirs[d] && DOTDOT in t'.dirs[d]
                  && t'.dirs[d][DOT] == d && t'.dirs[d][DOTDOT] == t.cwd && t'.depth[d] == t.depth[t.cwd] + 1)
  {
    assert !Dotted(name);
    assert d in t.dirs ==> Placed(t, d);
  }

  lemma MakePlaced(t: Tree, name: Name, nr: int, dir: bool, d: int)
    requires Rooted(t) && Placed(t, t.cwd) && name !in t.dirs[t.cwd] && nr >= 0 && nr !in t.all
    requires d in Make(t, name, nr, dir).dirs
    ensures Placed(Make(t, name, nr, dir), d)
  {
    hide Make;
    assert ROOT in t.all;
    MakeDirs(t, name, nr, dir, d);
    MakeDirs(t, name, nr, dir, t.cwd);
    if d in t.dirs {
      PlacedAt(t, d);
      MakeDirs(t, name, nr, dir, t.dirs[d][DOTDOT]);
    }
  }

  lemma MakeRooted(t: Tree, name: Name, nr: int, dir: bool)
    requires Rooted(t) && Placed(t, t.cwd) && name !in t.dirs[t.cwd] && nr >= 0 && nr !in t.all
    ensures Rooted(Make(t, name, nr, dir))
  {
    hide Make, Placed;
    PlacedFacts(t, t.cwd);
    var t' := Make(t, name, nr, dir);
    MakeAll(t, name, nr, dir);
    MakeDirs(t, name, nr, dir, ROOT);
    MakeDirs(t, name, nr, dir, t.cwd);
    forall d | d in t'.dirs ensures Placed(t', d) {
      MakePlaced(t, name, nr, dir, d);
    }
    assert t'.dirs.Keys <= t'.all;
    assert forall c :: c in t'.all ==> c >= 0;
  }

  lemma PlacedFacts(t: Tree, d: int)
    requires Placed(t, d)
    ensures d in t.dirs && d in t.depth
  {
  }

  lemma MakeLinked(t: Tree, name: Name, nr: int, dir: bool)
    requires IsTree(t) && Placed(t, t.cwd) && name !in t.dirs[t.cwd] && nr >= 0 && nr !in t.all
    ensures Linked(Make(t, name, nr, dir))
  {
    hide Reached, Make;
    var t' := Make(t, name, nr, dir);
    MakeLinks(t, name, nr, dir);
    MakeAll(t, name, nr, dir);
    forall d, n, c | Link(t', d, n, c) && c in t'.dirs ensures DOTDOT in t'.dirs[c] && t'.dirs[c][DOTDOT] == d {
      MakeDirs(t, name, nr, dir, c);
    }
    hide Link, Rooted;
  }

  lemma MakeAll(t: Tree, name: Name, nr: int, dir: bool)
    requires t.cwd in t.dirs && t.cwd in t.depth
    ensures Make(t, name, nr, dir).all == t.all + {nr} && Make(t, name, nr, dir).cwd == t.cwd
    ensures Make(t, name, nr, dir).dirs.Keys <= t.dirs.Keys + {nr}
  {
  }

  lemma MakeKeeps(t: Tree, name: Name, nr: int, dir: bool)
    requires IsTree(t) && Placed(t, t.cwd) && name !in t.dirs[t.cwd] && nr >= 0 && nr !in t.all
    ensures IsTree(Make(t, name, nr, dir))
  {
    var t' := Make(t, name, nr, dir);
    MakeLinks(t, name, nr, dir);
    MakeRooted(t, name, nr, dir);
    MakeLinked(t, name, nr, dir);
    hide Link, Linked, Rooted;
    forall c | c in t'.all && c != ROOT ensures HasLink(t', c) {
      if c == nr {
        assert Link(t', t.cwd, name, nr);
      } else {
        var d, n :| Link(t, d, n, c);
        assert Link(t', d, n, c);
      }
    }
  }

  lemma UnlinkLinks(t: Tree, name: Name)
    requires IsTree(t) && Placed(t, t.cwd) && name in t.dirs[t.cwd] && !Dotted(name) && Empty(t, t.dirs[t.cwd][name])
    ensures forall d, n, c :: Link(Unlink(t, name), d, n, c) <==> Link(t, d, n, c) && !(d == t.cwd && n == name)
    ensures t.dirs[t.cwd][name] != t.cwd && Link(t, t.cwd, name, t.dirs[t.cwd][name]) && t.dirs[t.cwd][name] != ROOT
  {
    hide Reached;
    var nr := t.dirs[t.cwd][name];
    assert Link(t, t.cwd, name, nr);
  }

  /** An empty directory is nobody's parent. */
  lemma EmptyIsChildless(t: Tree, name: Name, d: int)
    requires IsTree(t) && Placed(t, t.cwd) && name in t.dirs[t.cwd] && !Dotted(name) && Empty(t, t.dirs[t.cwd][name])
    requires d in t.dirs && d != t.dirs[t.cwd][name]
    ensures Placed(t, d) && t.dirs[d][DOTDOT] != t.dirs[t.cwd][name]
  {
    UnlinkLinks(t, name);
    PlacedAt(t, d);
    if d != ROOT {
      assert HasLink(t, d);
      var e, n :| Link(t, e, n, d);
    }
  }

  lemma UnlinkDirs(t: Tree, name: Name, d: int)
    requires Rooted(t) && name in t.dirs[t.cwd] && !Dotted(name) && d in Unlink(t, name).dirs
    ensures DotsKept(t, Unlink(t, name), d) && d in t.dirs && d != t.dirs[t.cwd][name]
  {
    assert d in t.dirs;
    PlacedAt(t, d);
  }

  lemma UnlinkRooted(t: Tree, name: Name)
    requires IsTree(t) && Placed(t, t.cwd) && name in t.dirs[t.cwd] && !Dotted(name) && Empty(t, t.dirs[t.cwd][name])
    ensures Rooted(Unlink(t, name))
  {
    hide Reached, Linked, Empty;
    var t' := Unlink(t, name);
    UnlinkLinks(t, name);
    forall d | d in t'.dirs ensures Placed(t', d) {
      UnlinkDirs(t, name, d);
      EmptyIsChildless(t, name, d);
      UnlinkDirs(t, name, t.dirs[d][DOTDOT]);
    }
  }

  lemma UnlinkKeeps(t: Tree, name: Name)
    requires IsTree(t) && Placed(t, t.cwd) && name in t.dirs[t.cwd] && !Dotted(name) && Empty(t, t.dirs[t.cwd][name])
    ensures IsTree(Unlink(t, name))
  {
    hide Link;
    var nr, t' := t.dirs[t.cwd][name], Unlink(t, name);
    UnlinkLinks(t, name);
    UnlinkRooted(t, name);
    forall d, n, c | Link(t', d, n, c) && c in t'.dirs ensures DOTDOT in t'.dirs[c] && t'.dirs[c][DOTDOT] == d {
      UnlinkDirs(t, name, c);
      assert Link(t, d, n, c);
    }
    assert Linked(t');
    forall c | c in t'.all && c != ROOT ensures HasLink(t', c) {
      assert HasLink(t, c);
      var d, n :| Link(t, d, n, c);
      LinkIsFunctional(t, d, n, c);
      assert Link(t', d, n, c);
    }
  }

  lemma LinkIsFunctional(t: Tree, d: int, n: Name, c: int)
    requires Link(t, d, n, c)
    ensures d in t.dirs && n in t.dirs[d] && t.dirs[d][n] == c
  {
  }

  lemma StepKeepsTree(t: Tree, c: Command)
    requires IsTree(t) && Enabled(t, c)
    ensures Placed(t, t.cwd) && IsTree(Step(t, c))
  {
    hide Linked, Reached;
    PlacedAt(t, t.cwd);
    var here := t.dirs[t.cwd];
    match c
    case Mkdir(name, nr) => if name !in here { MakeKeeps(t, name, nr, true); }
    case Create(name, nr) => if name !in here { MakeKeeps(t, name, nr, false); }
    case Cd(name) =>
      if name in here && here[name] in t.dirs {
        MoveKeeps(t, here[name]);
      }
    case Rm(name) =>
      if !(Dotted(name) || name !in here || !Empty(t, here[name])) {
        UnlinkKeeps(t, name);
      }
  }

  lemma MoveKeeps(t: Tree, d: int)
    requires IsTree(t) && d in t.dirs
    ensures IsTree(t.(cwd := d))
  {
    var t' := t.(cwd := d);
    assert forall e, n, c :: Link(t', e, n, c) <==> Link(t, e, n, c);
    forall e | e in t'.dirs ensures Placed(t', e) {
      PlacedAt(t, e);
    }
    hide Placed, Link;
    forall c | c in t'.all && c != ROOT ensures HasLink(t', c) {
      var e, n :| Link(t, e, n, c);
      assert Link(t', e, n, c);
    }
  }

  // -------------------------------------------------------------------- the path

  function Walk(t: Tree, d: int, names: seq<Name>): (r: int)
    decreases |names|
  {
    if names == [] then d
    else if d in t.dirs && names[0] in t.dirs[d] then Walk(t, t.dirs[d][names[0]], names[1..])
    else -1
  }

  /** The parent of a directory, and the entry that leads to it from there. */
  ghost function NameOf(t: Tree, d: int): (n: Name)
    requires IsTree(t) && d in t.dirs && d != ROOT
    ensures Placed(t, d) && Link(t, t.dirs[d][DOTDOT], n, d)
  {
    PlacedAt(t, d);
    UpLink(t, d);
    var n :| Link(t, t.dirs[d][DOTDOT], n, d);
    n
  }

  lemma UpLink(t: Tree, d: int)
    requires IsTree(t) && d in t.dirs && d != ROOT && Placed(t, d)
    ensures exists n :: Link(t, t.dirs[d][DOTDOT], n, d)
  {
    hide Placed;
    assert HasLink(t, d);
    var e, n :| Link(t, e, n, d);
    assert t.dirs[d][DOTDOT] == e;
  }

  function Depth(t: Tree, d: int): nat {
    if d in t.depth then t.depth[d] else 0
  }

  ghost function Path(t: Tree, d: int): seq<Name>
    requires IsTree(t) && d in t.dirs
    decreases Depth(t, d)
  {
    PlacedAt(t, d);
    if d == ROOT then []
    else
      var up := t.dirs[d][DOTDOT];
      PlacedAt(t, up);
      Path(t, up) + [NameOf(t, d)]
  }

  lemma {:induction false} WalkAppend(t: Tree, d: int, names: seq<Name>, n: Name)
    requires -1 !in t.dirs
    ensures Walk(t, d, names + [n])
         == var e := Walk(t, d, names); if e in t.dirs && n in t.dirs[e] then t.dirs[e][n] else -1
    decreases |names|
  {
    if names == [] {
      assert [n][1..] == [];
    } else {
      assert (names + [n])[1..] == names[1..] + [n];
      if d in t.dirs && names[0] in t.dirs[d] {
        WalkAppend(t, t.dirs[d][names[0]], names[1..], n);
      }
    }
  }

  ghost predicate DotFree(names: seq<Name>) {
    forall i :: 0 <= i < |names| ==> !Dotted(names[i])
  }

  lemma {:induction false} PathLeadsThere(t: Tree, d: int)
    requires IsTree(t) && d in t.dirs
    ensures Walk(t, ROOT, Path(t, d)) == d && DotFree(Path(t, d))
    decreases Depth(t, d)
  {
    hide Linked, Reached, Walk;
    PlacedAt(t, d);
    if d == ROOT {
      StandStill(t, ROOT);
    } else {
      var up := t.dirs[d][DOTDOT];
      PlacedAt(t, up);
      PathLeadsThere(t, up);
      NotNegative(t);
      WalkAppend(t, ROOT, Path(t, up), NameOf(t, d));
    }
  }

  lemma StandStill(t: Tree, d: int)
    ensures Walk(t, d, []) == d
  {
  }

  /** A directory has exactly one path from the root that does not use `.` or `..`. */
  lemma {:induction false} TruePath(t: Tree, d: int, names: seq<Name>)
    requires IsTree(t) && d in t.dirs && DotFree(names)
    ensures Walk(t, ROOT, names) == d <==> names == Path(t, d)
    decreases |names|
  {
    PathLeadsThere(t, d);
    if Walk(t, ROOT, names) == d {
      PathIsTheWalk(t, d, names);
    }
  }

  lemma {:induction false} PathIsTheWalk(t: Tree, d: int, names: seq<Name>)
    requires IsTree(t) && d in t.dirs && DotFree(names) && Walk(t, ROOT, names) == d
    ensures names == Path(t, d)
    decreases |names|
  {
    hide Walk, Reached;
    if names == [] {
      StandStill(t, ROOT);
    } else {
      var init, n := names[..|names| - 1], names[|names| - 1];
      assert names == init + [n];
      NotNegative(t);
      WalkAppend(t, ROOT, init, n);
      var e := Walk(t, ROOT, init);
      assert Link(t, e, n, d);
      PlacedAt(t, d);
      PathIsTheWalk(t, e, init);
    }
  }

  lemma NotNegative(t: Tree)
    requires Rooted(t)
    ensures -1 !in t.dirs
  {
    assert -1 in t.dirs ==> -1 in t.all;
  }

  // ------------------------------------------------------------------ whole runs

  const Start: Tree := Tree({ROOT}, map[ROOT := map[DOT := ROOT, DOTDOT := ROOT]], ROOT, map[ROOT := 0])

  lemma StartIsTree()
    ensures IsTree(Start)
  {
    assert Placed(Start, ROOT);
  }

  /** The tree after the commands; one whose inode number is not free does not happen. */
  ghost function After(t: Tree, commands: seq<Command>): Tree
    requires IsTree(t)
    decreases |commands|
  {
    if commands == [] then t
    else if Enabled(t, commands[0]) then StepKeepsTree(t, commands[0]); After(Step(t, commands[0]), commands[1..])
    else After(t, commands[1..])
  }

  lemma {:induction false} AfterKeepsTree(t: Tree, commands: seq<Command>)
    requires IsTree(t)
    ensures IsTree(After(t, commands))
    decreases |commands|
  {
    hide IsTree, Step, Enabled;
    if commands != [] {
      if Enabled(t, commands[0]) {
        StepKeepsTree(t, commands[0]);
        AfterKeepsTree(Step(t, commands[0]), commands[1..]);
      } else {
        AfterKeepsTree(t, commands[1..]);
      }
    }
  }

  /** In every reachable state each inode but the root has exactly one entry besides
      `.` and `..`, and for a directory it is where its own `..` leads. */
  lemma OneEntryEach(commands: seq<Command>, c: int)
    ensures IsTree(Start)
    ensures var t := After(Start, commands);
            c in t.all && c != ROOT ==>
              exists d, n :: Link(t, d, n, c) && (c in t.dirs ==> DOTDOT in t.dirs[c] && t.dirs[c][DOTDOT] == d)
                             && forall e, m :: Link(t, e, m, c) ==> e == d && m == n
  {
    StartIsTree();
    AfterKeepsTree(Start, commands);
    hide After, Link, Rooted;
    var t := After(Start, commands);
    if c in t.all && c != ROOT {
      assert HasLink(t, c);
      var d, n :| Link(t, d, n, c);
      assert forall e, m :: Link(t, e, m, c) ==> e == d && m == n;
    }
  }
}
