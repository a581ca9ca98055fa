/** The commands of fs/dir.c on directories that are record logs, and testfs_pwd. */
module DirCommands {
  import opened Words
  import opened Reading
  import opened DirLog
  import opened DirMap
  import opened DirFile
  import opened DirTree

  datatype Node = Plain | Dir(records: seq<Record>)

  datatype Volume = Volume(inodes: map<int, Node>, cwd: int, depth: map<int, nat>)

  predicate IsDir(v: Volume, d: int) {
    d in v.inodes && v.inodes[d].Dir?
  }

  /** Live names are unique, and every name is read back whole. */
  ghost predicate LogsSound(v: Volume) {
    forall d :: IsDir(v, d) ==> Unique(v.inodes[d].records) && AllWhole(v.inodes[d].records)
  }

  /** The tree the logs stand for. */
  ghost function View(v: Volume): Tree {
    Tree(v.inodes.Keys, map d | d in v.inodes && v.inodes[d].Dir? :: Entries(v.inodes[d].records), v.cwd, v.depth)
  }

  ghost predicate Valid(v: Volume) {
    LogsSound(v) && IsTree(View(v))
  }

  /** testfs_remove_dirent_allowed: nothing but `.`, `..` and tombstones. */
  predicate MayRemove(v: Volume, nr: int) {
    IsDir(v, nr) ==> OnlyDots(v.inodes[nr].records)
  }

  /** What the buffers of a scan of an inode hold. */
  type Heap = int -> Junk

  /** The volume as scans see it. */
  function Scanned(v: Volume, heap: Heap): Volume {
    v.(inodes := map d | d in v.inodes :: if v.inodes[d].Dir? then Dir(SeenAll(v.inodes[d].records, heap(d))) else Plain)
  }

  /** testfs_create_empty_dir */
  function EmptyDir(nr: int, parent: int): seq<Record> {
    Add(Add([], DOT, nr), DOTDOT, parent)
  }

  /** A record of the name can be written and read back: its length fits the int that
      testfs_write_data returns, its offset is below 2^31, and the name does not span blocks
      and end on a block boundary. */
  predicate Fits(rs: seq<Record>, name: seq<byte>) {
    HEADER + |name| + 1 <= INT_MAX && Room(rs, name) < 0x8000_0000 && !SkipsLast(Room(rs, name) + HEADER, |name| + 1)
  }

  /** The command can be given, and a new name can be written and read back. */
  ghost predicate May(v: Volume, c: Command) {
    && Enabled(View(v), c)
    && ((c.Mkdir? || c.Create?) && IsDir(v, v.cwd) && c.name !in Entries(v.inodes[v.cwd].records) ==>
          Fits(v.inodes[v.cwd].records, c.name))
  }

  function MakeNode(v: Volume, seen: Volume, name: seq<byte>, nr: int, node: Node, depth: map<int, nat>): Volume
    requires IsDir(v, v.cwd) && IsDir(seen, v.cwd)
  {
    if Lookup(seen.inodes[v.cwd].records, name) >= 0 then v
    else v.(inodes := v.inodes[nr := node][v.cwd := Dir(Add(v.inodes[v.cwd].records, name, nr))], depth := depth)
  }

  /** testfs_remove_dirent writes the record back as it was seen. */
  function RemoveSeen(rs: seq<Record>, ts: seq<Record>, name: seq<byte>): seq<Record>
    requires |rs| == |ts|
  {
    var i := Find(ts, name);
    if i < |rs| then rs[i := Record(INVALID_INODE_NR, ts[i].raw)] else rs
  }

  /** A command; what it reads it reads by scans. */
  function Step(v: Volume, c: Command, heap: Heap): Volume
    requires IsDir(v, v.cwd) && v.cwd in v.depth
  {
    var seen := Scanned(v, heap);
    var here := seen.inodes[v.cwd].records;
    match c
    case Mkdir(name, nr) =>
      MakeNode(v, seen, name, nr, Dir(EmptyDir(nr, v.cwd)), v.depth[nr := v.depth[v.cwd] + 1])
    case Create(name, nr) => MakeNode(v, seen, name, nr, Plain, v.depth)
    case Cd(name) => if IsDir(v, Lookup(here, name)) then v.(cwd := Lookup(here, name)) else v
    case Rm(name) =>
      var nr := Lookup(here, name);
      if Dotted(name) || nr < 0 || !MayRemove(seen, nr) then v
      else v.(inodes := v.inodes[v.cwd := Dir(RemoveSeen(v.inodes[v.cwd].records, here, name))] - {nr})
  }

  // ----------------------------------------------- the logs behave as the maps do

  lemma ViewFacts(v: Volume)
    requires Valid(v)
    ensures IsDir(v, v.cwd) && Placed(View(v), v.cwd) && v.cwd in v.depth && Unique(v.inodes[v.cwd].records)
  {
    PlacedAt(View(v), v.cwd);
  }

  lemma EmptyDirEntries(nr: int, parent: int)
    requires nr >= 0 && parent >= 0
    ensures Unique(EmptyDir(nr, parent)) && Entries(EmptyDir(nr, parent)) == map[DOT := nr, DOTDOT := parent]
    ensures AllWhole(EmptyDir(nr, parent))
  {
    hide Entries, Add;
    WholeEmptyDir(nr, parent);
    NoEntries();
    AddIsInsert([], DOT, nr);
    AddIsInsert(Add([], DOT, nr), DOTDOT, parent);
  }

  lemma WholeEmptyDir(nr: int, parent: int)
    ensures AllWhole(EmptyDir(nr, parent))
  {
    assert AllShort(EmptyDir(nr, parent));
    WholeIsSeen(EmptyDir(nr, parent), _ => []);
  }

  /** Offsets depend on the lengths before them only. */
  lemma {:induction false} SameOffset(rs: seq<Record>, ts: seq<Record>, i: int)
    requires 0 <= i <= |rs| && i <= |ts| && forall j :: 0 <= j < i ==> |rs[j].raw| == |ts[j].raw|
    ensures Offset(rs, i) == Offset(ts, i)
  {
    if i > 0 {
      SameOffset(rs[1..], ts[1..], i - 1);
    }
  }

  lemma WholeAfterAdd(rs: seq<Record>, name: seq<byte>, nr: int)
    requires AllWhole(rs) && Fits(rs, name)
    ensures AllWhole(Add(rs, name, nr))
  {
    hide Offset, Vacancy, SkipsLast;
    var ts := Add(rs, name, nr);
    forall i | 0 <= i < |ts| ensures !SkipsLast(Offset(ts, i) + HEADER, |ts[i].raw|) {
      SameOffset(ts, rs, i);
    }
  }

  /** The condition on a new name is exact: where the result fits an int, the record gets to
      its place in the file and every scan sees all records whole if and only if it holds. */
  lemma FitsExactly(rs: seq<Record>, name: seq<byte>, nr: int)
    requires AllWellFormed(rs) && AllWhole(rs) && IsName(name) && nr >= 0 && IsWord(nr)
    ensures AllWellFormed(Add(rs, name, nr))
    ensures HEADER + |name| + 1 <= INT_MAX ==>
              (Fits(rs, name) <==>
                 && 0 <= Int32(Room(rs, name)) <= |EncodeAll(rs)| && AllWhole(Add(rs, name, nr))
                 && Overwrite(EncodeAll(rs), Int32(Room(rs, name)), Encode(DirLog.Make(name, nr))) == EncodeAll(Add(rs, name, nr)))
  {
    hide Offset, Vacancy, SkipsLast, EncodeAll, Encode, AllWellFormed, Int32;
    var ts, p := Add(rs, name, nr), Vacancy(rs, |name| + 1);
    AddedBytes(rs, name, nr);
    if Int32(Room(rs, name)) >= 0 {
      PlacedExactly(rs, name, nr);
    }
    SmallInt(Room(rs, name));
    SameOffset(ts, rs, p);
    if AllWhole(ts) {
      assert !SkipsLast(Offset(ts, p) + HEADER, |ts[p].raw|);
    }
    if Fits(rs, name) {
      WholeAfterAdd(rs, name, nr);
    }
  }

  lemma SmallInt(x: int)
    requires 0 <= x
    ensures x < 0x8000_0000 ==> Int32(x) == x
  {
  }

  lemma WholeAfterRemove(rs: seq<Record>, name: seq<byte>)
    requires AllWhole(rs)
    ensures AllWhole(Remove(rs, name))
  {
    hide Offset, Find, SkipsLast;
    var ts := Remove(rs, name);
    forall i | 0 <= i < |ts| ensures !SkipsLast(Offset(ts, i) + HEADER, |ts[i].raw|) {
      SameOffset(ts, rs, i);
    }
  }

  /** In a valid volume every scan of a directory sees its records as they are, whatever
      the memory held. */
  lemma ScansAreWhole(v: Volume, heap: Heap)
    requires LogsSound(v)
    ensures Scanned(v, heap) == v
  {
    hide AllWhole, Unique, SeenAll;
    forall d | IsDir(v, d) ensures SeenAll(v.inodes[d].records, heap(d)) == v.inodes[d].records {
      WholeIsSeen(v.inodes[d].records, heap(d));
    }
    forall d | d in v.inodes ensures Scanned(v, heap).inodes[d] == v.inodes[d] {
      assert v.inodes[d].Dir? ==> IsDir(v, d);
    }
    assert Scanned(v, heap).inodes == v.inodes;
  }

  lemma NoEntries()
    ensures Unique([]) && Entries([]) == map[]
  {
  }

  lemma MakeRefines(v: Volume, name: seq<byte>, nr: int, node: Node, depth: map<int, nat>)
    requires LogsSound(v) && IsDir(v, v.cwd) && nr >= 0 && nr !in v.inodes
    requires (node.Dir? ==> Unique(node.records) && AllWhole(node.records)) && IsName(name)
    requires name !in Entries(v.inodes[v.cwd].records) && Fits(v.inodes[v.cwd].records, name)
    ensures var v' := MakeNode(v, v, name, nr, node, depth);
            && LogsSound(v')
            && View(v').all == View(v).all + {nr} && View(v').cwd == v.cwd && View(v').depth == depth
            && var dirs := View(v).dirs[v.cwd := View(v).dirs[v.cwd][name := nr]];
               View(v').dirs == if node.Dir? then dirs[nr := Entries(node.records)] else dirs
  {
    hide Entries, Unique, Add, Find, AllWhole, Fits;
    var here := v.inodes[v.cwd].records;
    LookupIsGet(here, name);
    AddIsInsert(here, name, nr);
    WholeAfterAdd(here, name, nr);
    var v' := MakeNode(v, v, name, nr, node, depth);
    var dirs := View(v).dirs[v.cwd := View(v).dirs[v.cwd][name := nr]];
    var want := if node.Dir? then dirs[nr := Entries(node.records)] else dirs;
    assert View(v').all == View(v).all + {nr};
    assert View(v').dirs.Keys == want.Keys;
    forall d | d in want ensures View(v').dirs[d] == want[d] {
    }
  }

  lemma RmRefines(v: Volume, name: seq<byte>, nr: int)
    requires LogsSound(v) && IsDir(v, v.cwd) && name in Entries(v.inodes[v.cwd].records)
    requires nr == Entries(v.inodes[v.cwd].records)[name] && nr != v.cwd
    ensures var v' := v.(inodes := v.inodes[v.cwd := Dir(Remove(v.inodes[v.cwd].records, name))] - {nr});
            LogsSound(v') && View(v') == Unlink(View(v), name)
  {
    hide Entries, Unique, Remove, Find, AllWhole;
    var here := v.inodes[v.cwd].records;
    RemoveIsDelete(here, name);
    WholeAfterRemove(here, name);
    var v' := v.(inodes := v.inodes[v.cwd := Dir(Remove(here, name))] - {nr});
    var want := Unlink(View(v), name);
    assert View(v').all == want.all;
    assert View(v').dirs.Keys == want.dirs.Keys;
    forall d | d in want.dirs ensures View(v').dirs[d] == want.dirs[d] {
    }
  }

  lemma MayRemoveIsEmpty(v: Volume, nr: int)
    requires LogsSound(v)
    ensures MayRemove(v, nr) <==> Empty(View(v), nr)
  {
    hide Unique, Find;
    if IsDir(v, nr) {
      var rs := v.inodes[nr].records;
      assert View(v).dirs[nr] == Entries(rs);
      assert forall i :: 0 <= i < |rs| && Live(rs[i]) ==> Label(rs[i]) in Entries(rs);
    }
  }

  /** Each command does to the logs what it does to the tree. */
  lemma StepRefines(v: Volume, c: Command, heap: Heap)
    requires Valid(v) && May(v, c)
    ensures IsDir(v, v.cwd) && v.cwd in v.depth && Placed(View(v), v.cwd)
    ensures LogsSound(Step(v, c, heap)) && View(Step(v, c, heap)) == DirTree.Step(View(v), c)
  {
    hide Entries, Unique, Lookup, Add, Remove, EmptyDir, Find, IsTree, MayRemove, Scanned, AllWhole, Fits;
    ViewFacts(v);
    ScansAreWhole(v, heap);
    var here := v.inodes[v.cwd].records;
    LookupIsGet(here, c.name);
    match c
    case Mkdir(name, nr) =>
      if name !in Entries(here) {
        NotNegativeCwd(v);
        EmptyDirEntries(nr, v.cwd);
        MakeRefines(v, name, nr, Dir(EmptyDir(nr, v.cwd)), v.depth[nr := v.depth[v.cwd] + 1]);
      }
    case Create(name, nr) =>
      if name !in Entries(here) {
        MakeRefines(v, name, nr, Plain, v.depth);
      }
    case Cd(name) => CdRefines(v, name, heap);
    case Rm(name) =>
      if !Dotted(name) && name in Entries(here) {
        var nr := Lookup(here, name);
        MayRemoveIsEmpty(v, nr);
        RemovedAsIs(here, name);
        if MayRemove(v, nr) {
          ChildIsNotSelf(v, name, nr);
          RmRefines(v, name, nr);
        }
      }
  }

  lemma RemovedAsIs(rs: seq<Record>, name: seq<byte>)
    ensures RemoveSeen(rs, rs, name) == Remove(rs, name)
  {
  }

  lemma CdRefines(v: Volume, name: seq<byte>, heap: Heap)
    requires Valid(v) && IsDir(v, v.cwd) && v.cwd in v.depth && Placed(View(v), v.cwd) && Scanned(v, heap) == v
    ensures LogsSound(Step(v, Cd(name), heap)) && View(Step(v, Cd(name), heap)) == DirTree.Step(View(v), Cd(name))
  {
    hide Entries, Unique, Lookup, Find, AllWhole, Scanned;
    LookupIsGet(v.inodes[v.cwd].records, name);
    NotNegativeCwd(v);
    assert View(v).dirs[v.cwd] == Entries(v.inodes[v.cwd].records);
    assert -ENOENT !in v.inodes;
  }

  lemma NotNegativeCwd(v: Volume)
    requires Valid(v)
    ensures v.cwd >= 0 && forall d :: d in v.inodes ==> d >= 0
  {
    assert forall d :: d in v.inodes ==> d in View(v).all;
  }

  lemma ChildIsNotSelf(v: Volume, name: seq<byte>, nr: int)
    requires Valid(v) && IsDir(v, v.cwd) && !Dotted(name)
    requires name in Entries(v.inodes[v.cwd].records) && Entries(v.inodes[v.cwd].records)[name] == nr
    requires Empty(View(v), nr)
    ensures nr != v.cwd
  {
    assert View(v).dirs[v.cwd] == Entries(v.inodes[v.cwd].records);
  }

  lemma StepKeepsValid(v: Volume, c: Command, heap: Heap)
    requires Valid(v) && May(v, c)
    ensures IsDir(v, v.cwd) && v.cwd in v.depth && Valid(Step(v, c, heap))
  {
    hide IsTree, LogsSound, Step, Fits;
    StepRefines(v, c, heap);
    StepKeepsTree(View(v), c);
  }

  // ------------------------------------------------------------------------- pwd

  const SLASH: byte := 47

  /** What the recursion relies on: `..` exists, the parent has a record of this
      directory, and it is the one with the name on the path. */
  lemma PwdFacts(v: Volume, d: int)
    requires Valid(v) && IsDir(v, d)
    ensures var p := Lookup(v.inodes[d].records, DOTDOT);
            && p >= 0 && IsDir(v, p) && (p == d <==> d == ROOT)
            && (d != ROOT ==>
                  && Depth(View(v), p) < Depth(View(v), d)
                  && View(v).dirs[d][DOTDOT] == p
                  && var rs := v.inodes[p].records;
                  && FindInode(rs, d) < |rs| && Label(rs[FindInode(rs, d)]) == NameOf(View(v), d))
  {
    hide Entries, Lookup, FindInode, Find;
    var t, rs := View(v), v.inodes[d].records;
    assert d in t.dirs && t.dirs[d] == Entries(rs);
    PlacedAt(t, d);
    LookupIsGet(rs, DOTDOT);
    var p := t.dirs[d][DOTDOT];
    PlacedAt(t, p);
    if d != ROOT {
      ParentRecord(v, d, p);
    }
  }

  lemma ParentRecord(v: Volume, d: int, p: int)
    requires Valid(v) && IsDir(v, d) && IsDir(v, p) && d != ROOT && d in View(v).dirs
    requires Placed(View(v), d) && Placed(View(v), p) && View(v).dirs[d][DOTDOT] == p
    ensures var rs := v.inodes[p].records;
            FindInode(rs, d) < |rs| && Label(rs[FindInode(rs, d)]) == NameOf(View(v), d)
  {
    hide Entries, Find, Reached, Unique;
    var t, rs := View(v), v.inodes[p].records;
    var n := NameOf(t, d);
    assert t.dirs[p] == Entries(rs) && Link(t, p, n, d);
    LookupIsGet(rs, n);
    var i := FindInode(rs, d);
    NotNegativeCwd(v);
    assert Unique(rs);
    EntriesAt(rs, i);
    assert Link(t, p, Label(rs[i]), d);
  }

  /** testfs_pwd: what is printed, and whether it is the root. */
  function Pwd(v: Volume, d: int): (r: (seq<byte>, bool))
    requires Valid(v) && IsDir(v, d)
    decreases Depth(View(v), d)
  {
    PwdFacts(v, d);
    var p := Lookup(v.inodes[d].records, DOTDOT);
    if p == d then ([SLASH], true)
    else
      var rs := v.inodes[p].records;
      var (up, atRoot) := Pwd(v, p);
      (up + (if atRoot then [] else [SLASH]) + Label(rs[FindInode(rs, d)]), false)
  }

  /** A slash before each name, and one alone for the root. */
  function Printed(names: seq<Name>): seq<byte> {
    if names == [] then [SLASH] else Slashed(names)
  }

  function Slashed(names: seq<Name>): seq<byte> {
    if names == [] then [] else Slashed(names[..|names| - 1]) + [SLASH] + names[|names| - 1]
  }

  lemma PwdUnfolds(v: Volume, d: int)
    requires Valid(v) && IsDir(v, d)
    ensures d == ROOT ==> Pwd(v, d) == ([SLASH], true)
    ensures d != ROOT ==>
              && d in View(v).dirs && Placed(View(v), d) && IsDir(v, View(v).dirs[d][DOTDOT])
              && Depth(View(v), View(v).dirs[d][DOTDOT]) < Depth(View(v), d)
              && var r := Pwd(v, View(v).dirs[d][DOTDOT]);
                 Pwd(v, d) == (r.0 + (if r.1 then [] else [SLASH]) + NameOf(View(v), d), false)
  {
    hide IsTree, LogsSound, View, Lookup, FindInode;
    ViewOfDir(v, d);
    PwdFacts(v, d);
    PlacedAt(View(v), d);
  }

  lemma {:induction false} PwdPrintsPath(v: Volume, d: int)
    requires Valid(v) && IsDir(v, d)
    ensures Pwd(v, d) == (Printed(Path(View(v), d)), d == ROOT)
    decreases Depth(View(v), d)
  {
    hide Walk, IsTree, LogsSound, Pwd, Path, Printed, Placed, View;
    ViewOfDir(v, d);
    var t := View(v);
    PwdUnfolds(v, d);
    PathUnfolds(t, d);
    if d == ROOT {
      PrintedRoot();
    } else {
      var p := t.dirs[d][DOTDOT];
      ViewOfDir(v, p);
      PwdPrintsPath(v, p);
      PrintedAppend(Path(t, p), NameOf(t, d));
      PathUnfolds(t, p);
    }
  }

  lemma PrintedRoot()
    ensures Printed([]) == [SLASH]
  {
  }

  lemma ViewOfDir(v: Volume, d: int)
    requires Valid(v) && IsDir(v, d)
    ensures d in View(v).dirs && IsTree(View(v)) && Rooted(View(v))
  {
  }

  /** pwd terminates, its assertions hold, and it prints the one path that leads from
      the root to the directory. */
  lemma PwdPrintsTruePath(v: Volume, d: int, heap: Heap)
    requires Valid(v) && IsDir(v, d)
    ensures d in View(v).dirs && Valid(Scanned(v, heap)) && IsDir(Scanned(v, heap), d)
    ensures Pwd(Scanned(v, heap), d) == (Printed(Path(View(v), d)), d == ROOT)
    ensures forall names :: DotFree(names) ==> (Walk(View(v), ROOT, names) == d <==> names == Path(View(v), d))
  {
    hide Walk, IsTree, LogsSound, Pwd, Path, Slashed, View, Scanned;
    ScansAreWhole(v, heap);
    ViewOfDir(v, d);
    PwdPrintsPath(v, d);
    var t := View(v);
    forall names | DotFree(names) ensures Walk(t, ROOT, names) == d <==> names == Path(t, d) {
      TruePath(t, d, names);
    }
  }

  lemma PathUnfolds(t: Tree, d: int)
    requires IsTree(t) && d in t.dirs
    ensures Path(t, d) == [] <==> d == ROOT
    ensures d != ROOT ==> Placed(t, d) && Path(t, d) == Path(t, t.dirs[d][DOTDOT]) + [NameOf(t, d)]
  {
    PlacedAt(t, d);
    if d != ROOT {
      PlacedAt(t, t.dirs[d][DOTDOT]);
    }
  }

  lemma PrintedAppend(names: seq<Name>, n: Name)
    ensures Printed(names + [n]) == Printed(names) + (if names == [] then [] else [SLASH]) + n
  {
    var more := names + [n];
    assert more[..|more| - 1] == names && more[|more| - 1] == n;
    assert Slashed(more) == Slashed(names) + [SLASH] + n;
    if names == [] {
      assert Slashed(names) == [];
      assert [SLASH] + [] + n == [] + [SLASH] + n;
    }
  }

  // ------------------------------------------------------------------ whole runs

  /** A new file system: the root directory and nothing else. */
  const Fresh: Volume := Volume(map[ROOT := Dir(EmptyDir(ROOT, ROOT))], ROOT, map[ROOT := 0])

  lemma FreshIsValid()
    ensures Valid(Fresh)
  {
    hide Entries, Unique, EmptyDir;
    EmptyDirEntries(ROOT, ROOT);
    StartIsTree();
    assert View(Fresh).dirs == Start.dirs;
    assert View(Fresh) == Start;
  }

  /** A command and what the memory of its scans held. */
  datatype Call = Call(command: Command, heap: Heap)

  ghost function After(v: Volume, calls: seq<Call>): Volume
    requires Valid(v)
    decreases |calls|
  {
    if calls == [] then v
    else if May(v, calls[0].command)
    then
      StepKeepsValid(v, calls[0].command, calls[0].heap);
      After(Step(v, calls[0].command, calls[0].heap), calls[1..])
    else After(v, calls[1..])
  }

  /** The commands of a run that were performed. */
  ghost function Performed(v: Volume, calls: seq<Call>): seq<Command>
    requires Valid(v)
    decreases |calls|
  {
    if calls == [] then []
    else if May(v, calls[0].command)
    then
      StepKeepsValid(v, calls[0].command, calls[0].heap);
      [calls[0].command] + Performed(Step(v, calls[0].command, calls[0].heap), calls[1..])
    else Performed(v, calls[1..])
  }

  lemma {:induction false} AfterKeepsValid(v: Volume, calls: seq<Call>)
    requires Valid(v)
    ensures Valid(After(v, calls))
    decreases |calls|
  {
    hide Valid, Step, May, View;
    if calls != [] {
      if May(v, calls[0].command) {
        StepKeepsValid(v, calls[0].command, calls[0].heap);
        AfterKeepsValid(Step(v, calls[0].command, calls[0].heap), calls[1..]);
      } else {
        AfterKeepsValid(v, calls[1..]);
      }
    }
  }

  /** Every run of commands on the logs is the run of the same commands on the tree. */
  lemma {:induction false} RunsRefine(v: Volume, calls: seq<Call>)
    requires Valid(v)
    ensures IsTree(View(v)) && View(After(v, calls)) == DirTree.After(View(v), Performed(v, calls))
    decreases |calls|
  {
    hide Valid, Step, Fits, DirTree.Step, IsTree, View;
    ValidFacts(v);
    if calls != [] {
      var c, heap := calls[0].command, calls[0].heap;
      if May(v, c) {
        StepKeepsValid(v, c, heap);
        StepRefines(v, c, heap);
        var rest := Performed(Step(v, c, heap), calls[1..]);
        assert ([c] + rest)[1..] == rest;
        RunsRefine(Step(v, c, heap), calls[1..]);
      } else {
        RunsRefine(v, calls[1..]);
      }
    }
  }

  lemma ValidFacts(v: Volume)
    requires Valid(v)
    ensures IsTree(View(v))
  {
  }

  /** After any commands, pwd prints the path of the current directory. */
  lemma PwdAfterAnyRun(calls: seq<Call>, heap: Heap)
    ensures Valid(Fresh)
    ensures var v := After(Fresh, calls);
            && Valid(Scanned(v, heap)) && IsDir(Scanned(v, heap), v.cwd) && v.cwd in View(v).dirs && IsTree(View(v))
            && Pwd(Scanned(v, heap), v.cwd).0 == Printed(Path(View(v), v.cwd))
            && Walk(View(v), ROOT, Path(View(v), v.cwd)) == v.cwd
  {
    hide After, Pwd, Path, Walk, Scanned;
    FreshIsValid();
    AfterKeepsValid(Fresh, calls);
    var v := After(Fresh, calls);
    ViewFacts(v);
    PwdPrintsTruePath(v, v.cwd, heap);
    PathLeadsThere(View(v), v.cwd);
  }
}
