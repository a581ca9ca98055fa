/** What a directory log means (fs/dir.c): a finite map from live names to inode numbers. */
module DirMap {
  import opened Words
  import opened DirLog

  const DOT: seq<byte> := [46]
  const DOTDOT: seq<byte> := [46, 46]

  predicate Dotted(name: seq<byte>) {
    name == DOT || name == DOTDOT
  }

  /** Nothing but `.`, `..` and tombstones. */
  predicate OnlyDots(rs: seq<Record>) {
    forall i :: 0 <= i < |rs| ==> !Live(rs[i]) || Dotted(Label(rs[i]))
  }

  ghost predicate Unique(rs: seq<Record>) {
    forall i, j :: 0 <= i < j < |rs| && Live(rs[i]) && Live(rs[j]) ==> Label(rs[i]) != Label(rs[j])
  }

  /** The first live record of a name, or the end. */
  function Find(rs: seq<Record>, name: seq<byte>): (i: int)
    ensures 0 <= i <= |rs|
    ensures i < |rs| ==> Live(rs[i]) && Label(rs[i]) == name
    ensures forall j :: 0 <= j < i ==> !(Live(rs[j]) && Label(rs[j]) == name)
  {
    if rs == [] || (Live(rs[0]) && Label(rs[0]) == name) then 0 else 1 + Find(rs[1..], name)
  }

  /** The first tombstone with room for exactly this name, or the end. */
  function Vacancy(rs: seq<Record>, n: int): (i: int)
    ensures 0 <= i <= |rs|
    ensures i < |rs| ==> !Live(rs[i]) && |rs[i].raw| == n
    ensures forall j :: 0 <= j < i ==> Live(rs[j]) || |rs[j].raw| != n
  {
    if rs == [] || (!Live(rs[0]) && |rs[0].raw| == n) then 0 else 1 + Vacancy(rs[1..], n)
  }

  ghost function LiveNames(rs: seq<Record>): set<seq<byte>> {
    set i | 0 <= i < |rs| && Live(rs[i]) :: Label(rs[i])
  }

  /** The finite map a directory stands for. */
  ghost function Entries(rs: seq<Record>): map<seq<byte>, int> {
    map name | name in LiveNames(rs) :: rs[Find(rs, name)].inode
  }

  function Lookup(rs: seq<Record>, name: seq<byte>): int {
    if Find(rs, name) < |rs| then rs[Find(rs, name)].inode else -ENOENT
  }

  function Add(rs: seq<Record>, name: seq<byte>, nr: int): (rs': seq<Record>) {
    var p := Vacancy(rs, |name| + 1);
    if p < |rs| then rs[p := Make(name, nr)] else rs + [Make(name, nr)]
  }

  function Remove(rs: seq<Record>, name: seq<byte>): (rs': seq<Record>) {
    var i := Find(rs, name);
    if i < |rs| then rs[i := Record(INVALID_INODE_NR, rs[i].raw)] else rs
  }

  /** The first record of an inode number, or the end. */
  function FindInode(rs: seq<Record>, nr: int): (i: int)
    ensures 0 <= i <= |rs|
    ensures i < |rs| ==> rs[i].inode == nr
    ensures forall j :: 0 <= j < i ==> rs[j].inode != nr
  {
    if rs == [] || rs[0].inode == nr then 0 else 1 + FindInode(rs[1..], nr)
  }

  lemma FindLive(rs: seq<Record>, i: int)
    requires Unique(rs) && 0 <= i < |rs| && Live(rs[i])
    ensures Find(rs, Label(rs[i])) == i
  {
    var k := Find(rs, Label(rs[i]));
  }

  /** Lookup is the map's get. */
  lemma LookupIsGet(rs: seq<Record>, name: seq<byte>)
    ensures name in Entries(rs) <==> Find(rs, name) < |rs|
    ensures Lookup(rs, name) == if name in Entries(rs) then Entries(rs)[name] else -ENOENT
    ensures name in Entries(rs) ==> Entries(rs)[name] >= 0
  {
    hide Find;
    var i := Find(rs, name);
    assert i < |rs| ==> Label(rs[i]) in LiveNames(rs);
    if name in LiveNames(rs) {
      var k :| 0 <= k < |rs| && Live(rs[k]) && Label(rs[k]) == name;
      assert i <= k;
    }
  }

  lemma EntriesAt(rs: seq<Record>, i: int)
    requires Unique(rs) && 0 <= i < |rs| && Live(rs[i])
    ensures Label(rs[i]) in Entries(rs) && Entries(rs)[Label(rs[i])] == rs[i].inode
  {
    FindLive(rs, i);
  }

  /** With the lookup that comes before it, adding is the map's insert; live names
      stay unique and no other record changes. */
  lemma AddIsInsert(rs: seq<Record>, name: seq<byte>, nr: int)
    requires Unique(rs) && name !in Entries(rs) && nr >= 0 && IsName(name)
    ensures Unique(Add(rs, name, nr)) && Entries(Add(rs, name, nr)) == Entries(rs)[name := nr]
    ensures Find(rs, name) == |rs|
    ensures forall i :: 0 <= i < |rs| && Live(rs[i]) ==> Add(rs, name, nr)[i] == rs[i]
  {
    hide Find, Vacancy, Label;
    MadeLabel(name, nr);
    LookupIsGet(rs, name);
    var rs', p := Add(rs, name, nr), Vacancy(rs, |name| + 1);
    assert forall i :: 0 <= i < |rs| && i != p ==> rs'[i] == rs[i];
    assert Unique(rs');
    forall n ensures n in Entries(rs') <==> n in Entries(rs)[name := nr]
      ensures n in Entries(rs') ==> Entries(rs')[n] == Entries(rs)[name := nr][n]
    {
      LookupIsGet(rs, n);
      LookupIsGet(rs', n);
      var i, k := Find(rs, n), Find(rs', n);
      FindMoves(rs, rs', p, n, name);
    }
  }

  lemma FindMoves(rs: seq<Record>, rs': seq<Record>, p: int, n: seq<byte>, name: seq<byte>)
    requires Unique(rs) && Unique(rs') && Find(rs, name) == |rs|
    requires 0 <= p <= |rs| && p < |rs'| && |rs'| == (if p == |rs| then |rs| + 1 else |rs|)
    requires forall i :: 0 <= i < |rs| && i != p ==> rs'[i] == rs[i]
    requires p < |rs| ==> !Live(rs[p])
    requires Live(rs'[p]) && Label(rs'[p]) == name
    ensures n == name ==> Find(rs', n) == p
    ensures n != name && Find(rs, n) < |rs| ==> Find(rs', n) == Find(rs, n) && rs'[Find(rs, n)] == rs[Find(rs, n)]
    ensures n != name && Find(rs, n) == |rs| ==> Find(rs', n) == |rs'|
  {
    hide Find;
    FindLive(rs', p);
    if n != name {
      var i := Find(rs, n);
      if i < |rs| {
        FindLive(rs', i);
      }
    }
  }

  lemma AddAlone(rs: seq<Record>, name: seq<byte>, nr: int)
    requires Unique(rs) && nr >= 0 && IsName(name)
    ensures Unique(Add(rs, name, nr)) <==> name !in Entries(rs)
  {
    hide Find, Vacancy, Label;
    MadeLabel(name, nr);
    LookupIsGet(rs, name);
    if name in Entries(rs) {
      var rs', p, k := Add(rs, name, nr), Vacancy(rs, |name| + 1), Find(rs, name);
      assert k != p && rs'[k] == rs[k] && rs'[p] == Make(name, nr);
      if Unique(rs') {
        FindLive(rs', k);
        FindLive(rs', p);
        assert false;
      }
    } else {
      AddIsInsert(rs, name, nr);
    }
  }

  /** testfs_add_dirent on the records: refused if the name is live before the first
      tombstone that fits. */
  function Added(rs: seq<Record>, name: seq<byte>, nr: int): seq<Record> {
    if Find(rs, name) < Vacancy(rs, |name| + 1) then rs else Add(rs, name, nr)
  }

  /** Without the lookup that comes before it, adding keeps the names unique exactly when
      the name is not live, or is live before the first tombstone that fits. */
  lemma AddedIsUnique(rs: seq<Record>, name: seq<byte>, nr: int)
    requires Unique(rs) && nr >= 0 && IsName(name)
    ensures Unique(Added(rs, name, nr)) <==> name !in Entries(rs) || Find(rs, name) < Vacancy(rs, |name| + 1)
  {
    AddAlone(rs, name, nr);
  }

  /** A tombstone of the right length before the live name: adding the name again makes a
      second live record of it. */
  lemma AddedTwice()
    ensures var rs := [Record(INVALID_INODE_NR, [98, 0]), Record(5, [97, 0])];
            Unique(rs) && Lookup(rs, [97]) == 5 && !Unique(Added(rs, [97], 6))
  {
    var rs := [Record(INVALID_INODE_NR, [98, 0]), Record(5, [97, 0])];
    MadeLabel([97], 5);
    assert rs[1] == Make([97], 5);
    assert Find(rs, [97]) == 1;
    EntriesAt(rs, 1);
    AddedIsUnique(rs, [97], 6);
  }

  lemma FindAfterRemove(rs: seq<Record>, name: seq<byte>, n: seq<byte>)
    requires Unique(rs)
    ensures var rs' := Remove(rs, name); Find(rs', n) == if n == name then |rs| else Find(rs, n)
  {
    hide Find;
    var rs', p, i, k := Remove(rs, name), Find(rs, name), Find(rs, n), Find(Remove(rs, name), n);
    assert forall j :: 0 <= j < |rs| && j != p ==> rs'[j] == rs[j];
    assert p < |rs| ==> !Live(rs'[p]);
  }

  /** Removing is the map's delete. */
  lemma RemoveIsDelete(rs: seq<Record>, name: seq<byte>)
    requires Unique(rs)
    ensures Unique(Remove(rs, name)) && Entries(Remove(rs, name)) == Entries(rs) - {name}
    ensures |Remove(rs, name)| == |rs|
    ensures forall i :: 0 <= i < |rs| && i != Find(rs, name) ==> Remove(rs, name)[i] == rs[i]
  {
    hide Find, Entries;
    var rs' := Remove(rs, name);
    forall n ensures n in Entries(rs') <==> n in Entries(rs) && n != name
      ensures n in Entries(rs') ==> Entries(rs')[n] == Entries(rs)[n]
    {
      LookupIsGet(rs, n);
      LookupIsGet(rs', n);
      FindAfterRemove(rs, name, n);
      LookupIsGet(rs, name);
    }
    assert Entries(rs').Keys == (Entries(rs) - {name}).Keys;
  }
}
