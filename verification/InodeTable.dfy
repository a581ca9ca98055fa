/** The hash table of in-memory inodes (fs/inode.c), with buckets as sequences. Its
    operations are those of InodeCache, on objects. */
module InodeTable {
  import opened Sequences
  import opened Words
  import opened InodeCache

  /** hash_int with eight bits */
  function Hash(nr: int): (h: int)
    requires IsInode(nr)
    ensures 0 <= h < HASH_SIZE
  {
    nr * 0x9e37_0001 % 0x1_0000_0000 / 0x100_0000
  }

  class Inode {
    const nr: int
    var din: Dinode
    var dirty: bool
    var count: int

    constructor (inodeNr: int, d: Dinode)
      ensures nr == inodeNr && din == d && !dirty && count == 1
    {
      nr, din, dirty, count := inodeNr, d, false, 1;
    }
  }

  /** An inode and the contents of its bucket, as a value. */
  ghost function Image(i: Inode): Cached
    reads i
  {
    Cached(i.din, i.dirty, i.count)
  }

  class Table {
    var blocks: InodeBlocks
    var used: set<int>
    const buckets: array<seq<Inode>>
    ghost var mem: map<int, Inode>
    ghost var held: multiset<int>

    /** Each inode number has at most one inode, in the bucket of its hash. */
    ghost predicate Valid()
      reads this, buckets
    {
      && buckets.Length == HASH_SIZE
      && (forall nr :: nr in mem ==> IsInode(nr) && mem[nr].nr == nr && mem[nr] in buckets[Hash(nr)])
      && (forall b, i :: 0 <= b < HASH_SIZE && i in buckets[b] ==>
            IsInode(i.nr) && i.nr in mem && mem[i.nr] == i && Hash(i.nr) == b)
      && (forall b :: 0 <= b < HASH_SIZE ==> NoDup(buckets[b]))
    }

    ghost function View(): Inodes
      reads this, mem.Values
    {
      Inodes(blocks, map nr | nr in mem :: Image(mem[nr]), used, held)
    }

    constructor ()
      ensures Valid() && View() == Start() && mem == map[] && fresh(buckets)
    {
      blocks, used, mem, held := ZeroBlocks(), {}, map[], multiset{};
      buckets := new seq<Inode>[HASH_SIZE](_ => []);
    }

    /** inode_hash_find */
    method Find(nr: int) returns (found: Inode?)
      requires Valid() && IsInode(nr)
      ensures found == null <==> nr !in mem
      ensures found != null ==> found == mem[nr] && found.nr == nr
    {
      hide Hash, NoDup;
      var bucket := buckets[Hash(nr)];
      for i := 0 to |bucket|
        invariant forall j :: 0 <= j < i ==> bucket[j].nr != nr
      {
        if bucket[i].nr == nr {
          return bucket[i];
        }
      }
      return null;
    }

    /** inode_hash_insert */
    method Insert(inode: Inode)
      requires Valid() && IsInode(inode.nr) && inode.nr !in mem
      modifies this`mem, buckets
      ensures Valid() && mem == old(mem)[inode.nr := inode]
    {
      hide Hash, NoDup;
      var h := Hash(inode.nr);
      NoDupPrepend(buckets[h], inode);
      buckets[h] := [inode] + buckets[h];
      mem := mem[inode.nr := inode];
    }

    /** inode_hash_remove */
    method Delete(inode: Inode)
      requires Valid() && inode.nr in mem && mem[inode.nr] == inode
      modifies this`mem, buckets
      ensures Valid() && mem == old(mem) - {inode.nr}
    {
      hide Hash, NoDup, Without;
      var h := Hash(inode.nr);
      WithoutMembers(buckets[h], inode);
      buckets[h] := Without(buckets[h], inode);
      mem := mem - {inode.nr};
    }

    /** testfs_get_inode */
    method GetInode(nr: int) returns (got: Inode)
      requires Valid() && IsInode(nr)
      modifies this, buckets, mem.Values
      ensures Valid() && nr in mem && got == mem[nr] && got.nr == nr
      ensures View() == InodeCache.GetInode(old(View()), nr).(held := old(held) + multiset{nr})
      ensures mem.Values <= old(mem.Values) + {got} && (got in old(mem.Values) || fresh(got))
    {
      hide Valid, Slot;
      var found := Find(nr);
      Numbered(this);
      if found != null {
        label Start:
        found.count := found.count + 1;
        held := held + multiset{nr};
        ValidKept@Start(this);
        OneChanged@Start(this, nr);
        return found;
      }
      got := new Inode(nr, Slot(blocks, nr));
      Insert(got);
      label Inserted:
      held := held + multiset{nr};
      ValidKept@Inserted(this);
      assert View().mem == old(View()).mem[nr := Image(got)];
    }

    /** testfs_sync_inode */
    method SyncInode(inode: Inode)
      requires Valid() && inode.nr in mem && mem[inode.nr] == inode
      modifies this`blocks, inode
      ensures Valid() && mem == old(mem)
      ensures IsInode(inode.nr) && View() == InodeCache.SyncInode(old(View()), inode.nr)
    {
      hide Valid, SetSlot;
      Numbered(this);
      if !inode.dirty {
        return;
      }
      label Start:
      blocks := SetSlot(blocks, inode.nr, inode.din);
      inode.dirty := false;
      ValidKept@Start(this);
      OneChanged@Start(this, inode.nr);
    }

    /** testfs_put_inode: the asserted condition is that the inode is clean. */
    method PutInode(inode: Inode)
      requires Valid() && inode.nr in mem && mem[inode.nr] == inode && !inode.dirty
      modifies this, buckets, inode
      ensures Valid() && blocks == old(blocks) && used == old(used)
      ensures View() == InodeCache.PutInode(old(View()), inode.nr).(held := old(held) - multiset{inode.nr})
      ensures mem.Values <= old(mem.Values)
    {
      hide Valid;
      Numbered(this);
      label Start:
      inode.count := inode.count - 1;
      held := held - multiset{inode.nr};
      ValidKept@Start(this);
      OneChanged@Start(this, inode.nr);
      if inode.count == 0 {
        ghost var before := View().mem;
        Delete(inode);
        assert View().mem == before - {inode.nr} == old(View()).mem - {inode.nr};
      }
    }

    /** A holder changes fields and sets the dirty flag. */
    method Change(inode: Inode, din: Dinode)
      requires Valid() && inode.nr in mem && mem[inode.nr] == inode
      modifies inode
      ensures Valid() && IsInode(inode.nr) && View() == Changed(old(View()), inode.nr, din)
    {
      hide Valid;
      Numbered(this);
      label Start:
      inode.din, inode.dirty := din, true;
      ValidKept@Start(this);
      OneChanged@Start(this, inode.nr);
    }

    /** The free map */
    method SetUsed(u: set<int>)
      requires Valid()
      modifies this`used
      ensures Valid() && View() == old(View()).(used := u)
    {
      hide Valid;
      label Start:
      used := u;
      ValidKept@Start(this);
    }

    /** testfs_create_inode with the number that the free map gave */
    method CreateInode(nr: int, kind: int) returns (inode: Inode)
      requires Valid() && Coherent(View()) && Enabled(View(), Create(nr, kind))
      modifies this, buckets, mem.Values
      ensures Valid() && View() == Step(old(View()), Create(nr, kind))
      ensures forall i :: i in mem.Values ==> i in old(mem.Values) || fresh(i)
    {
      hide Valid, Coherent, InodeCache.GetInode, WithType, Step, View;
      CreateIs(View(), nr, kind);
      ViewFields(this);
      SetUsed(used + {nr});
      inode := GetInode(nr);
      ViewAt(this, nr);
      Change(inode, WithType(inode.din, kind));
    }

    /** testfs_remove_inode after the blocks were freed */
    method RemoveInode(inode: Inode)
      requires Valid() && Coherent(View()) && Enabled(View(), Remove(inode.nr)) && inode.nr in mem && mem[inode.nr] == inode
      modifies this, buckets, inode
      ensures Valid() && View() == Step(old(View()), Remove(inode.nr))
      ensures mem.Values <= old(mem.Values)
    {
      hide Valid, Coherent, InodeCache.SyncInode, InodeCache.PutInode, Step, View;
      RemoveIs(View(), inode.nr);
      ViewFields(this);
      Change(inode, ZeroDinode());
      SetUsed(used - {inode.nr});
      SyncInode(inode);
      ViewFields(this);
      ViewAt(this, inode.nr);
      PutInode(inode);
    }

    /** The inode of a number that is held. */
    method Holding(nr: int) returns (i: Inode)
      requires Valid() && Coherent(View()) && IsInode(nr) && nr in View().held
      ensures nr in mem && i == mem[nr] && i.nr == nr && i in mem.Values && View().mem[nr] == Image(i)
    {
      hide Valid, Coherent;
      HeldIsCached(View(), nr);
      ViewAt(this, nr);
      i := Find(nr);
    }

    /** Any operation on an inode; a holder's pointer is the one the table has. */
    method Do(a: Action)
      requires Valid() && Coherent(View()) && Enabled(View(), a)
      modifies this, buckets, mem.Values
      ensures Valid() && View() == Step(old(View()), a)
      ensures forall i :: i in mem.Values ==> i in old(mem.Values) || fresh(i)
    {
      hide Valid, Coherent, InodeCache.GetInode, InodeCache.SyncInode, InodeCache.PutInode, WithType, Changed, View, Step, Enabled, Image;
      ViewFields(this);
      StepIs(View(), a);
      match a {
        case Get(nr) =>
          var i := GetInode(nr);
        case Sync(nr) =>
          var i := Holding(nr);
          SyncInode(i);
        case Put(nr) =>
          var i := Holding(nr);
          CleanAt(this, nr);
          PutInode(i);
        case Modify(nr, din) =>
          var i := Holding(nr);
          Change(i, din);
        case Create(nr, kind) =>
          var i := CreateInode(nr, kind);
        case Remove(nr) =>
          var i := Holding(nr);
          RemoveInode(i);
      }
    }
  }

  lemma ViewFields(t: Table)
    ensures t.View().blocks == t.blocks && t.View().used == t.used && t.View().held == t.held
    ensures t.View().mem.Keys == t.mem.Keys
  {
  }

  lemma ViewAt(t: Table, nr: int)
    requires nr in t.View().mem || nr in t.mem
    ensures nr in t.View().mem && nr in t.mem && t.View().mem[nr] == Image(t.mem[nr])
  {
  }

  lemma Numbered(t: Table)
    requires t.Valid()
    ensures forall nr :: nr in t.mem ==> IsInode(nr) && t.mem[nr].nr == nr
  {
  }

  /** The buckets do not depend on what is in the inodes. */
  twostate lemma ValidKept(t: Table)
    requires old(t.Valid()) && t.mem == old(t.mem) && unchanged(t.buckets)
    ensures t.Valid()
  {
  }

  /** A number has one inode, so a change to it shows in no other entry. */
  twostate lemma OneChanged(t: Table, new nr: int)
    requires old(t.Valid()) && t.mem == old(t.mem) && nr in t.mem
    requires forall m :: m in t.mem && t.mem[m] != t.mem[nr] ==> unchanged(t.mem[m])
    ensures t.View().mem == old(t.View()).mem[nr := Image(t.mem[nr])]
  {
    forall m | m in t.mem && m != nr ensures t.View().mem[m] == old(t.View()).mem[m] {
      assert t.mem[m].nr == m && t.mem[nr].nr == nr;
    }
  }

  lemma CleanAt(t: Table, nr: int)
    requires nr in t.mem && nr in t.View().mem && !t.View().mem[nr].dirty
    ensures !t.mem[nr].dirty
  {
  }

  /** What a step asks for and comes to. */
  lemma StepIs(s: Inodes, a: Action)
    requires Coherent(s) && Enabled(s, a)
    ensures IsInode(a.nr) && (!a.Get? && !a.Create? ==> a.nr in s.held && a.nr in s.mem)
    ensures a.Get? ==> Step(s, a) == InodeCache.GetInode(s, a.nr).(held := s.held + multiset{a.nr})
    ensures a.Sync? ==> Step(s, a) == InodeCache.SyncInode(s, a.nr)
    ensures a.Put? ==> !s.mem[a.nr].dirty && Step(s, a) == InodeCache.PutInode(s, a.nr).(held := s.held - multiset{a.nr})
    ensures a.Modify? ==> Step(s, a) == Changed(s, a.nr, a.din)
  {
    if !a.Get? && !a.Create? {
      HeldIsCached(s, a.nr);
    }
    hide Coherent, InodeCache.GetInode, InodeCache.SyncInode, InodeCache.PutInode, Changed;
  }

  /** The steps in the order in which the source makes the changes. */
  lemma CreateIs(s: Inodes, nr: int, kind: int)
    requires Coherent(s) && Enabled(s, Create(nr, kind))
    ensures var got := InodeCache.GetInode(s.(used := s.used + {nr}), nr).(held := s.held + multiset{nr});
            nr in got.mem && Step(s, Create(nr, kind)) == Changed(got, nr, WithType(got.mem[nr].din, kind))
  {
    hide Coherent, WithType;
  }

  lemma RemoveIs(s: Inodes, nr: int)
    requires Coherent(s) && Enabled(s, Remove(nr))
    ensures nr in s.mem
    ensures var synced := InodeCache.SyncInode(Changed(s, nr, ZeroDinode()).(used := s.used - {nr}), nr);
            && nr in synced.mem && !synced.mem[nr].dirty && synced.held == s.held
            && Step(s, Remove(nr)) == InodeCache.PutInode(synced, nr).(held := s.held - multiset{nr})
  {
    HeldIsCached(s, nr);
    hide Coherent, SetSlot;
  }

  lemma NoDupPrepend<T>(ts: seq<T>, t: T)
    requires NoDup(ts) && t !in ts
    ensures NoDup([t] + ts)
  {
  }

  /** Whether the operation is called for: references are out exactly for the inodes that
      are in memory. */
  method CanDo(t: Table, a: Action) returns (b: bool)
    requires t.Valid() && Coherent(t.View())
    ensures b == Enabled(t.View(), a)
  {
    hide Table.Valid, Slot, Hash;
    if !IsInode(a.nr) {
      return false;
    }
    var i := t.Find(a.nr);
    match a {
      case Get(_) => b := true;
      case Sync(_) => b := i != null;
      case Put(_) => b := i != null && !i.dirty;
      case Modify(nr, _) => b := i != null && nr in t.used;
      case Create(nr, kind) => b := nr !in t.used && IsWord(kind);
      case Remove(nr) => b := i != null && nr in t.used;
    }
  }

  /** Every run from an empty file system: at most one object per number, and what the
      buckets hold is the state that the step relation reaches, in which a clean inode is
      what its slot holds and counts are exact. */
  method Run(actions: seq<Action>) returns (t: Table)
    ensures t.Valid() && Coherent(Start()) && t.View() == After(Start(), actions) && Coherent(t.View())
  {
    hide Table.Valid, Coherent, Enabled, Step;
    StartIsCoherent();
    t := new Table();
    var n := 0;
    assert actions[..0] == [];
    while n < |actions|
      invariant 0 <= n <= |actions| && t.Valid() && t.View() == After(Start(), actions[..n])
      invariant fresh(t) && fresh(t.buckets) && forall i :: i in t.mem.Values ==> fresh(i)
    {
      AfterMore(Start(), actions[..n], actions[n]);
      assert actions[..n + 1] == actions[..n] + [actions[n]];
      var enabled := CanDo(t, actions[n]);
      if enabled {
        t.Do(actions[n]);
      }
      n := n + 1;
    }
    assert actions[..n] == actions;
    AfterKeepsCoherent(Start(), actions);
  }
}
