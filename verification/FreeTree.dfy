/** testfs_free_blocks (fs/read_write.c). */
module FreeTree {
  import opened Words
  import opened Store
  import opened Ranges
  import opened BlockLayer
  import opened Freeing

  /** Entry `j` of the indirect block, or of the `outer`-th block under the double one. */
  function EntrySlot(outer: int, j: int): Slot {
    if outer < 0 then IndirectEntry(j) else DoubleLeaf(outer, j)
  }

  function At(p: Progress, outer: int, j: int): Progress {
    if outer < 0 then p.(entries := j) else p.(outer := outer, inner := j)
  }

  /** One block of the inode is freed, or the slot was empty. */
  method FreeSlot(fs: FileSystem, ino: int, b: int, ghost s0: State, ghost o0: map<int, Place>, ghost gone: set<int>)
    returns (ghost gone': set<int>)
    requires fs.Wired() && ino in fs.inodes && Partly(s0, o0, fs.S(), ino, gone)
    requires s0.used <= s0.disk.Keys && o0.Keys == s0.used
    requires b != 0 ==> b in BlocksOf(o0, ino) && b !in gone
    modifies fs`disk, fs`inodes, fs`usedBlockCount, fs.blockFreemap.v
    ensures fs.Wired() && gone' == gone + (if b == 0 then {} else {b})
    ensures Partly(s0, o0, fs.S(), ino, gone') && ino in fs.inodes
    ensures fs.inodes[ino].direct == old(fs.inodes)[ino].direct
    ensures fs.inodes[ino].indirect == old(fs.inodes)[ino].indirect
    ensures fs.inodes[ino].dindirect == old(fs.inodes)[ino].dindirect
  {
    hide FileSystem.Wired, FileSystem.Used;
    gone' := gone + if b == 0 then {} else {b};
    assert b != 0 ==> b in s0.used && b in fs.Used();
    fs.FreeBlockFromInode(ino, b);
    assert b == 0 ==> gone' == gone;
  }

  /** The entries of one pointer block, up to `limit` of them (lines 396-401 and 421-428). */
  method FreeEntries(fs: FileSystem, ino: int, blk: Block, limit: int, ghost outer: int,
                     ghost s0: State, ghost o0: map<int, Place>, ghost p: Progress, ghost gone: set<int>)
    returns (k: int, ghost gone': set<int>)
    requires fs.Wired() && ino in fs.inodes && ino in s0.inodes && Owned(s0, o0) && s0.used <= s0.disk.Keys
    requires Partly(s0, o0, fs.S(), ino, gone) && GoneIs(s0, o0, ino, At(p, outer, 0), gone)
    requires outer < NR_INDIRECT
    requires forall j :: 0 <= j < NR_INDIRECT ==> Word(blk, j) == Ptr(s0, Place(ino, EntrySlot(outer, j)))
    requires forall j :: 0 <= j < NR_INDIRECT ==> (Hit(s0, ino, EntrySlot(outer, j)) <==> j < limit)
    modifies fs`disk, fs`inodes, fs`usedBlockCount, fs.blockFreemap.v
    ensures fs.Wired() && ino in fs.inodes && Partly(s0, o0, fs.S(), ino, gone')
    ensures GoneIs(s0, o0, ino, At(p, outer, NR_INDIRECT), gone')
    ensures k == if limit < 0 then 0 else Min(limit, NR_INDIRECT)
    ensures fs.inodes[ino].direct == old(fs.inodes)[ino].direct
    ensures fs.inodes[ino].indirect == old(fs.inodes)[ino].indirect
    ensures fs.inodes[ino].dindirect == old(fs.inodes)[ino].dindirect
  {
    hide Word, Ptr, Hit, FileSystem.Wired, FileSystem.Used, Owned, Partly, GoneIs, BlocksOf;
    OwnerKeys(s0, o0);
    k := 0;
    gone' := gone;
    while k < NR_INDIRECT && k < limit
      invariant 0 <= k <= NR_INDIRECT && (k <= limit || k == 0)
      invariant fs.Wired() && ino in fs.inodes && Partly(s0, o0, fs.S(), ino, gone')
      invariant GoneIs(s0, o0, ino, At(p, outer, k), gone')
      invariant fs.inodes[ino].direct == old(fs.inodes)[ino].direct
      invariant fs.inodes[ino].indirect == old(fs.inodes)[ino].indirect
      invariant fs.inodes[ino].dindirect == old(fs.inodes)[ino].dindirect
    {
      PassSlot(s0, o0, ino, At(p, outer, k), At(p, outer, k + 1), EntrySlot(outer, k), gone');
      gone' := FreeSlot(fs, ino, Word(blk, k), s0, o0, gone');
      k := k + 1;
    }
    forall x | ValidSlot(x) && Done(At(p, outer, NR_INDIRECT), x) && !Done(At(p, outer, k), x)
      ensures !Hit(s0, ino, x)
    {
      assert x == EntrySlot(outer, if outer < 0 then x.i else x.j);
    }
    PassOver(s0, o0, ino, At(p, outer, k), At(p, outer, NR_INDIRECT), gone');
  }

  lemma OwnerKeys(s: State, o: map<int, Place>)
    requires Owned(s, o)
    ensures o.Keys == s.used
  {
  }

  /** The direct blocks (lines 383-388). */
  method FreeDirect(fs: FileSystem, ino: int, e: int, ghost s0: State, ghost o0: map<int, Place>)
    returns (ghost gone: set<int>)
    requires fs.Wired() && ino in fs.inodes && Owned(s0, o0) && s0.used <= s0.disk.Keys && fs.S() == s0
    requires e == BlocksUpTo(s0.inodes[ino].size)
    modifies fs`disk, fs`inodes, fs`usedBlockCount, fs.blockFreemap.v
    ensures fs.Wired() && ino in fs.inodes && Partly(s0, o0, fs.S(), ino, gone)
    ensures GoneIs(s0, o0, ino, Progress(NR_DIRECT, 0, false, 0, 0, false), gone)
    ensures Pointers(s0.inodes[ino], fs.inodes[ino], e)
  {
    hide Ptr, Rank, FileSystem.Wired, FileSystem.Used, Owned, Partly, GoneIs, BlocksOf;
    OwnerKeys(s0, o0);
    NothingGone(s0, o0, ino);
    gone := {};
    var i := 0;
    while i < e && i < NR_DIRECT
      invariant 0 <= i <= NR_DIRECT && (i <= e || i == 0)
      invariant fs.Wired() && ino in fs.inodes && Partly(s0, o0, fs.S(), ino, gone)
      invariant GoneIs(s0, o0, ino, Progress(i, 0, false, 0, 0, false), gone)
      invariant Pointers(s0.inodes[ino], fs.inodes[ino], i)
    {
      DirectPtr(s0, ino, i);
      PassSlot(s0, o0, ino, Progress(i, 0, false, 0, 0, false), Progress(i + 1, 0, false, 0, 0, false), Direct(i), gone);
      gone := FreeSlot(fs, ino, fs.inodes[ino].direct[i], s0, o0, gone);
      ghost var before := fs.S();
      fs.inodes := fs.inodes[ino := fs.inodes[ino].(direct := fs.inodes[ino].direct[i := 0])];
      PartlyIgnoresPointers(s0, o0, before, fs.S(), ino, gone);
      i := i + 1;
    }
    PassOver(s0, o0, ino, Progress(i, 0, false, 0, 0, false), Progress(NR_DIRECT, 0, false, 0, 0, false), gone);
  }

  lemma DirectPtr(s: State, ino: int, i: int)
    requires ino in s.inodes && 0 <= i < NR_DIRECT
    ensures Ptr(s, Place(ino, Direct(i))) == s.inodes[ino].direct[i]
  {
  }

  lemma NothingGone(s: State, o: map<int, Place>, ino: int)
    requires Owned(s, o) && ino in s.inodes
    ensures GoneIs(s, o, ino, Progress(0, 0, false, 0, 0, false), {}) && Partly(s, o, s, ino, {})
  {
    ValidOwners(s, o);
  }

  lemma PartlyIgnoresPointers(s: State, o: map<int, Place>, s1: State, s2: State, ino: int, gone: set<int>)
    requires Partly(s, o, s1, ino, gone) && s2.disk == s1.disk && s2.used == s1.used && s2.inodes.Keys == s1.inodes.Keys
    requires forall k :: k in s1.inodes && k != ino ==> s2.inodes[k] == s1.inodes[k]
    requires s2.inodes[ino].blockCount == s1.inodes[ino].blockCount && s2.inodes[ino].size == s1.inodes[ino].size
    ensures Partly(s, o, s2, ino, gone)
  {
  }

  // ------------------------------------------------------------ pointer blocks

  /** A pointer block that has not been freed is still on disk as it was. */
  lemma StillThere(s: State, o: map<int, Place>, s': State, ino: int, gone: set<int>, b: int)
    requires Owned(s, o) && s.used <= s.disk.Keys && Partly(s, o, s', ino, gone) && b in s.used && b !in gone
    ensures b in s'.disk && s'.disk[b] == s.disk[b]
  {
  }

  lemma IndirectWords(s: State, o: map<int, Place>, ino: int)
    requires Owned(s, o) && s.used <= s.disk.Keys && ino in s.inodes && s.inodes[ino].indirect != 0
    ensures s.inodes[ino].indirect in s.disk && s.inodes[ino].indirect > 0
    ensures forall j :: 0 <= j < NR_INDIRECT ==>
              Word(s.disk[s.inodes[ino].indirect], j) == Ptr(s, Place(ino, EntrySlot(-1, j)))
    ensures Ptr(s, Place(ino, Indirect)) == s.inodes[ino].indirect
  {
    assert Ptr(s, Place(ino, Indirect)) == s.inodes[ino].indirect;
  }

  /** Everything but the double indirect part is gone, and `i` of its entries. */
  function Outer(i: int): Progress {
    Progress(NR_DIRECT, NR_INDIRECT, true, i, 0, false)
  }

  const AfterDirect: Progress := Progress(NR_DIRECT, 0, false, 0, 0, false)
  const AfterEntries: Progress := Progress(NR_DIRECT, NR_INDIRECT, false, 0, 0, false)

  /** The indirect block and its entries (lines 392-404); `ok` tells that the assertion
      on the remaining count holds. */
  method FreeIndirect(fs: FileSystem, ino: int, e: int, ghost s0: State, ghost o0: map<int, Place>, ghost gone: set<int>)
    returns (ok: bool, ghost gone': set<int>)
    requires fs.Wired() && ino in fs.inodes && ino in s0.inodes && Owned(s0, o0) && s0.used <= s0.disk.Keys
    requires Partly(s0, o0, fs.S(), ino, gone) && GoneIs(s0, o0, ino, AfterDirect, gone)
    requires fs.inodes[ino].indirect == s0.inodes[ino].indirect && e == BlocksUpTo(s0.inodes[ino].size) - NR_DIRECT
    modifies fs`disk, fs`inodes, fs`usedBlockCount, fs.blockFreemap.v
    ensures fs.Wired() && ino in fs.inodes && Partly(s0, o0, fs.S(), ino, gone')
    ensures ok <==> s0.inodes[ino].indirect == 0 || e > 0
    ensures !ok ==> fs.S() == old(fs.S()) && gone' == gone
    ensures ok ==> GoneIs(s0, o0, ino, Outer(0), gone')
    ensures ok ==>
              && fs.inodes[ino].direct == old(fs.inodes)[ino].direct && fs.inodes[ino].indirect == 0
              && fs.inodes[ino].dindirect == old(fs.inodes)[ino].dindirect
  {
    hide Word, Ptr, Rank, FileSystem.Wired, FileSystem.Used, Owned, Partly, GoneIs, BlocksOf;
    OwnerKeys(s0, o0);
    PointersAreBlocks(s0, o0, ino);
    ok, gone' := true, gone;
    if fs.inodes[ino].indirect > 0 {
      if e <= 0 {
        ok := false;
        return;
      }
      IndirectWords(s0, o0, ino);
      PassSlot(s0, o0, ino, AfterDirect, AfterDirect.(indirect := true), Indirect, gone);
      StillThere(s0, o0, fs.S(), ino, gone, fs.inodes[ino].indirect);
      var k;
      k, gone' := FreeEntries(fs, ino, fs.disk[fs.inodes[ino].indirect], e, -1, s0, o0, AfterDirect, gone);
      PassSlot(s0, o0, ino, AfterEntries, Outer(0), Indirect, gone');
      gone' := FreeSlot(fs, ino, fs.inodes[ino].indirect, s0, o0, gone');
      ghost var before := fs.S();
      fs.inodes := fs.inodes[ino := fs.inodes[ino].(indirect := 0)];
      PartlyIgnoresPointers(s0, o0, before, fs.S(), ino, gone');
    } else {
      NoIndirect(s0, ino);
      PassOver(s0, o0, ino, AfterDirect, Outer(0), gone);
    }
  }

  lemma NoIndirect(s: State, ino: int)
    requires ino in s.inodes && s.inodes[ino].indirect == 0
    ensures Ptr(s, Place(ino, Indirect)) == 0 && forall j :: Ptr(s, Place(ino, IndirectEntry(j))) == 0
  {
  }

  // ----------------------------------------------------- double indirect blocks

  lemma DoubleWords(s: State, o: map<int, Place>, ino: int)
    requires Owned(s, o) && s.used <= s.disk.Keys && ino in s.inodes && s.inodes[ino].dindirect != 0
    ensures s.inodes[ino].dindirect in s.disk && s.inodes[ino].dindirect > 0
    ensures Ptr(s, Place(ino, Double)) == s.inodes[ino].dindirect
    ensures forall i :: 0 <= i < NR_INDIRECT ==>
              Word(s.disk[s.inodes[ino].dindirect], i) == Ptr(s, Place(ino, DoubleEntry(i)))
  {
    assert Ptr(s, Place(ino, Double)) == s.inodes[ino].dindirect;
  }

  lemma LeafWords(s: State, o: map<int, Place>, ino: int, i: int)
    requires Owned(s, o) && s.used <= s.disk.Keys && ino in s.inodes && 0 <= i < NR_INDIRECT
    requires Ptr(s, Place(ino, DoubleEntry(i))) != 0
    ensures var e := Ptr(s, Place(ino, DoubleEntry(i)));
            && e in s.disk && e > 0
            && (forall j :: 0 <= j < NR_INDIRECT ==> Word(s.disk[e], j) == Ptr(s, Place(ino, EntrySlot(i, j))))
  {
    assert Ptr(s, Place(ino, DoubleEntry(i))) in s.used;
  }

  lemma NoEntry(s: State, ino: int, i: int)
    requires Ptr(s, Place(ino, DoubleEntry(i))) == 0
    ensures forall j :: Ptr(s, Place(ino, DoubleLeaf(i, j))) == 0
  {
  }

  /** One entry of the double indirect block (lines 416-432): free what is below it, then the block itself. */
  method FreeEntry(fs: FileSystem, ino: int, b: int, i: int, limit: int,
                   ghost s0: State, ghost o0: map<int, Place>, ghost gone: set<int>)
    returns (k: int, ghost gone': set<int>)
    requires fs.Wired() && ino in fs.inodes && Owned(s0, o0) && s0.used <= s0.disk.Keys && ino in s0.inodes
    requires Partly(s0, o0, fs.S(), ino, gone) && GoneIs(s0, o0, ino, Outer(i), gone)
    requires 0 <= i < NR_INDIRECT && b == Ptr(s0, Place(ino, DoubleEntry(i))) && 0 < limit
    requires Hit(s0, ino, DoubleEntry(i))
    requires forall j :: 0 <= j < NR_INDIRECT ==> (Hit(s0, ino, EntrySlot(i, j)) <==> j < limit)
    modifies fs`disk, fs`inodes, fs`usedBlockCount, fs.blockFreemap.v
    ensures fs.Wired() && ino in fs.inodes && Partly(s0, o0, fs.S(), ino, gone')
    ensures GoneIs(s0, o0, ino, Outer(i + 1), gone')
    ensures k == if b == 0 then 0 else Min(limit, NR_INDIRECT)
    ensures fs.inodes[ino].direct == old(fs.inodes)[ino].direct
    ensures fs.inodes[ino].indirect == old(fs.inodes)[ino].indirect
    ensures fs.inodes[ino].dindirect == old(fs.inodes)[ino].dindirect
  {
    hide Word, Ptr, Hit, FileSystem.Wired, FileSystem.Used, Owned, Partly, GoneIs, BlocksOf;
    OwnerKeys(s0, o0);
    PointersAreBlocks(s0, o0, ino);
    k, gone' := 0, gone;
    if b > 0 {
      LeafWords(s0, o0, ino, i);
      EntryNotGone(s0, o0, ino, i, gone);
      StillThere(s0, o0, fs.S(), ino, gone, b);
      k, gone' := FreeEntries(fs, ino, fs.disk[b], limit, i, s0, o0, Outer(i), gone);
      PassSlot(s0, o0, ino, Outer(i).(inner := NR_INDIRECT), Outer(i + 1), DoubleEntry(i), gone');
      gone' := FreeSlot(fs, ino, b, s0, o0, gone');
    } else {
      NoEntry(s0, ino, i);
      PassOver(s0, o0, ino, Outer(i), Outer(i + 1), gone);
    }
  }

  lemma EntryNotGone(s: State, o: map<int, Place>, ino: int, i: int, gone: set<int>)
    requires ino in s.inodes && Owned(s, o) && GoneIs(s, o, ino, Outer(i), gone) && Ptr(s, Place(ino, DoubleEntry(i))) != 0
    ensures Ptr(s, Place(ino, DoubleEntry(i))) in s.used && Ptr(s, Place(ino, DoubleEntry(i))) !in gone
  {
  }

  /** The loop over the entries of the double indirect block (lines 415-434). The
      counter `k` advances only over entries that are present. */
  method FreeAllEntries(fs: FileSystem, ino: int, e: int, blockinD: Block,
                        ghost s0: State, ghost o0: map<int, Place>, ghost gone: set<int>)
    returns (ghost gone': set<int>)
    requires fs.Wired() && ino in fs.inodes && ino in s0.inodes && Owned(s0, o0) && s0.used <= s0.disk.Keys
    requires Partly(s0, o0, fs.S(), ino, gone) && GoneIs(s0, o0, ino, Outer(0), gone)
    requires e == BlocksUpTo(s0.inodes[ino].size) - NR_DIRECT - NR_INDIRECT && e > 0
    requires forall i :: 0 <= i < NR_INDIRECT ==> Word(blockinD, i) == Ptr(s0, Place(ino, DoubleEntry(i)))
    modifies fs`disk, fs`inodes, fs`usedBlockCount, fs.blockFreemap.v
    ensures fs.Wired() && ino in fs.inodes && Partly(s0, o0, fs.S(), ino, gone')
    ensures GoneIs(s0, o0, ino, Outer(NR_INDIRECT), gone')
    ensures fs.inodes[ino].direct == old(fs.inodes)[ino].direct
    ensures fs.inodes[ino].indirect == old(fs.inodes)[ino].indirect
    ensures fs.inodes[ino].dindirect == old(fs.inodes)[ino].dindirect
  {
    hide Word, Ptr, Rank, Hit, FileSystem.Wired, FileSystem.Used, Owned, Partly, GoneIs, BlocksOf;
    gone' := gone;
    var i, k := 0, 0;
    RankStep(s0, ino, 0);
    while k < e && i < NR_INDIRECT
      invariant 0 <= i <= NR_INDIRECT && k == Min(e, Rank(s0, ino, i) * NR_INDIRECT)
      invariant fs.Wired() && ino in fs.inodes && Partly(s0, o0, fs.S(), ino, gone')
      invariant GoneIs(s0, o0, ino, Outer(i), gone')
      invariant fs.inodes[ino].direct == old(fs.inodes)[ino].direct
      invariant fs.inodes[ino].indirect == old(fs.inodes)[ino].indirect
      invariant fs.inodes[ino].dindirect == old(fs.inodes)[ino].dindirect
      decreases NR_INDIRECT - i
    {
      var dk;
      HitBelow(s0, ino, i, e);
      RankStep(s0, ino, i);
      dk, gone' := FreeEntry(fs, ino, Word(blockinD, i), i, e - k, s0, o0, gone');
      k := k + dk;
      i := i + 1;
    }
    NoneHitFrom(s0, ino, i, e);
    PassOver(s0, o0, ino, Outer(i), Outer(NR_INDIRECT), gone');
  }

  lemma RankStep(s: State, ino: int, i: int)
    requires 0 <= i
    ensures Rank(s, ino, 0) == 0
    ensures Rank(s, ino, i + 1) == Rank(s, ino, i) + if Ptr(s, Place(ino, DoubleEntry(i))) != 0 then 1 else 0
  {
  }

  lemma HitBelow(s: State, ino: int, i: int, e: int)
    requires ino in s.inodes && e == BlocksUpTo(s.inodes[ino].size) - NR_DIRECT - NR_INDIRECT && 0 <= i
    ensures Hit(s, ino, DoubleEntry(i)) <==> Rank(s, ino, i) * NR_INDIRECT < e
    ensures forall j :: 0 <= j < NR_INDIRECT ==> (Hit(s, ino, EntrySlot(i, j)) <==> j < e - Rank(s, ino, i) * NR_INDIRECT)
  {
    hide Rank;
  }

  /** Once the counter has reached the end, nothing further on is hit. */
  lemma NoneHitFrom(s: State, ino: int, i: int, e: int)
    requires ino in s.inodes && e == BlocksUpTo(s.inodes[ino].size) - NR_DIRECT - NR_INDIRECT
    requires i == NR_INDIRECT || e <= Rank(s, ino, i) * NR_INDIRECT
    ensures forall x :: i <= x < NR_INDIRECT ==> !Hit(s, ino, DoubleEntry(x))
    ensures forall x, j :: i <= x < NR_INDIRECT && 0 <= j ==> !Hit(s, ino, DoubleLeaf(x, j))
  {
    hide Rank;
    forall x | i <= x < NR_INDIRECT ensures Rank(s, ino, i) <= Rank(s, ino, x) {
      RankGrows(s, ino, i, x);
    }
  }

  /** The double indirect block and everything below it (lines 408-438). */
  method FreeDouble(fs: FileSystem, ino: int, e: int, ghost s0: State, ghost o0: map<int, Place>, ghost gone: set<int>)
    returns (ghost gone': set<int>)
    requires fs.Wired() && ino in fs.inodes && ino in s0.inodes && Owned(s0, o0) && s0.used <= s0.disk.Keys
    requires Partly(s0, o0, fs.S(), ino, gone) && GoneIs(s0, o0, ino, Outer(0), gone)
    requires fs.inodes[ino].dindirect == s0.inodes[ino].dindirect
    requires e == BlocksUpTo(s0.inodes[ino].size) - NR_DIRECT - NR_INDIRECT
    modifies fs`disk, fs`inodes, fs`usedBlockCount, fs.blockFreemap.v
    ensures fs.Wired() && ino in fs.inodes && Partly(s0, o0, fs.S(), ino, gone')
    ensures GoneIs(s0, o0, ino, Outer(NR_INDIRECT).(double := true), gone')
    ensures fs.inodes[ino].direct == old(fs.inodes)[ino].direct
    ensures fs.inodes[ino].indirect == old(fs.inodes)[ino].indirect
    ensures fs.inodes[ino].dindirect == if e > 0 then 0 else s0.inodes[ino].dindirect
  {
    hide Word, Ptr, Rank, Hit, FileSystem.Wired, FileSystem.Used, Owned, Partly, GoneIs, BlocksOf;
    OwnerKeys(s0, o0);
    PointersAreBlocks(s0, o0, ino);
    DoubleHit(s0, ino, e);
    if e > 0 && fs.inodes[ino].dindirect > 0 {
      DoubleWords(s0, o0, ino);
      PassSlot(s0, o0, ino, Outer(0), Outer(0).(double := true), Double, gone);
      StillThere(s0, o0, fs.S(), ino, gone, fs.inodes[ino].dindirect);
      gone' := FreeAllEntries(fs, ino, e, fs.disk[fs.inodes[ino].dindirect], s0, o0, gone);
      PassSlot(s0, o0, ino, Outer(NR_INDIRECT), Outer(NR_INDIRECT).(double := true), Double, gone');
      gone' := FreeSlot(fs, ino, fs.inodes[ino].dindirect, s0, o0, gone');
      ghost var before := fs.S();
      fs.inodes := fs.inodes[ino := fs.inodes[ino].(dindirect := 0)];
      PartlyIgnoresPointers(s0, o0, before, fs.S(), ino, gone');
    } else {
      gone' := gone;
      NoDouble(s0, ino);
      PassOver(s0, o0, ino, Outer(0), Outer(NR_INDIRECT).(double := true), gone);
    }
  }

  lemma DoubleHit(s: State, ino: int, e: int)
    requires ino in s.inodes && e == BlocksUpTo(s.inodes[ino].size) - NR_DIRECT - NR_INDIRECT
    ensures Hit(s, ino, Double) <==> e > 0
    ensures e <= 0 ==> forall x :: !Hit(s, ino, DoubleEntry(x))
    ensures e <= 0 ==> forall x, j :: 0 <= j ==> !Hit(s, ino, DoubleLeaf(x, j))
  {
    hide Rank;
  }

  lemma NoDouble(s: State, ino: int)
    requires ino in s.inodes
    ensures s.inodes[ino].dindirect == 0 ==>
              && Ptr(s, Place(ino, Double)) == 0
              && (forall x :: Ptr(s, Place(ino, DoubleEntry(x))) == 0)
              && (forall x, j :: Ptr(s, Place(ino, DoubleLeaf(x, j))) == 0)
  {
  }

  // ------------------------------------------------------------- all together

  ghost function HitBlocks(s: State, o: map<int, Place>, ino: int): set<int>
    requires ino in s.inodes
  {
    set b | b in o && o[b].ino == ino && Hit(s, ino, o[b].slot)
  }

  /** The inode after its pointers were cleared as far as the loops go. */
  function Cleared(n: Inode, freed: int): Inode {
    var e := BlocksUpTo(n.size);
    RawInode(seq(NR_DIRECT, i requires 0 <= i < NR_DIRECT => if i < e then 0 else n.direct[i]), 0,
             if e > NR_DIRECT + NR_INDIRECT then 0 else n.dindirect, n.blockCount - freed, 0)
  }

  /** What a removal did, in terms of the size: the assertion on the indirect block holds if
      and only if there is none or the file is longer than its direct blocks. Then exactly
      the blocks below the size are freed, blocks `l` of the direct and the indirect range
      if and only if they start below it; the pointers to them in the inode are cleared. */
  ghost predicate BySize(s: State, o: map<int, Place>, s': State, ino: int, ok: bool)
    requires ino in s.inodes
  {
    var n, size := s.inodes[ino], s.inodes[ino].size;
    && (ok <==> n.indirect == 0 || size > NR_DIRECT * BLOCK_SIZE)
    && (ok ==>
          && s'.used <= s.used
          && (forall b :: b in o ==> (b in s.used - s'.used <==> o[b].ino == ino && Below(s, ino, o[b].slot)))
          && (forall l :: 0 <= l < 2058 && Resolve(s, ino, l) != 0 ==>
                (Resolve(s, ino, l) !in s'.used <==> l * BLOCK_SIZE < size))
          && ino in s'.inodes && s'.inodes[ino].size == 0 && s'.inodes[ino].indirect == 0
          && s'.inodes[ino].dindirect == (if 2058 * BLOCK_SIZE < size then 0 else n.dindirect)
          && forall i :: 0 <= i < NR_DIRECT ==> s'.inodes[ino].direct[i] == if i * BLOCK_SIZE < size then 0 else n.direct[i])
  }

  lemma FreedBySize(s: State, o: map<int, Place>, s': State, ino: int)
    requires ino in s.inodes && Owned(s, o) && 0 <= s.inodes[ino].size <= BLOCK_SIZE * INT_MAX
    requires s.inodes[ino].indirect == 0 || BlocksUpTo(s.inodes[ino].size) > NR_DIRECT
    requires s'.used == s.used - HitBlocks(s, o, ino)
    requires s'.inodes == s.inodes[ino := Cleared(s.inodes[ino], |HitBlocks(s, o, ino)|)]
    ensures BySize(s, o, s', ino, true)
  {
    hide BlocksUpTo, Rank;
    BlocksUpToMeans(s.inodes[ino].size);
    forall b | b in o ensures b in s.used - s'.used <==> o[b].ino == ino && Below(s, ino, o[b].slot) {
      if o[b].ino == ino {
        HitIsBelow(s, ino, o[b].slot);
      }
    }
    forall l | 0 <= l < 2058 && Resolve(s, ino, l) != 0
      ensures Resolve(s, ino, l) !in s'.used <==> l * BLOCK_SIZE < s.inodes[ino].size
    {
      var b := Resolve(s, ino, l);
      assert Ptr(s, Place(ino, LeafSlot(l))) == b;
      assert b in o && o[b] == Place(ino, LeafSlot(l));
      HitIsBelow(s, ino, LeafSlot(l));
    }
  }

  lemma RefusedBySize(s: State, o: map<int, Place>, s': State, ino: int)
    requires ino in s.inodes && 0 <= s.inodes[ino].size <= BLOCK_SIZE * INT_MAX
    requires s.inodes[ino].indirect != 0 && BlocksUpTo(s.inodes[ino].size) <= NR_DIRECT
    ensures BySize(s, o, s', ino, false)
  {
    hide BlocksUpTo;
    BlocksUpToMeans(s.inodes[ino].size);
  }

  /** testfs_free_blocks. Exactly the hit blocks are freed, each once, and nothing of
      another inode changes. The inode ends blank with all its blocks freed if and only if
      every mapped slot is hit and the assertion on the indirect block holds. */
  method FreeBlocks(fs: FileSystem, ino: int) returns (ok: bool)
    requires fs.Valid() && ino in fs.inodes
    modifies fs, fs.blockFreemap.v
    ensures fs.Wired()
    ensures ok <==> old(fs.inodes)[ino].indirect == 0 || BlocksUpTo(old(fs.inodes)[ino].size) > NR_DIRECT
    ensures ok ==>
              var gone := HitBlocks(old(fs.S()), old(fs.owner), ino);
              && fs.Used() == old(fs.Used()) - gone
              && (forall b :: b in old(fs.disk) && b !in gone ==> b in fs.disk && fs.disk[b] == old(fs.disk)[b])
              && fs.inodes == old(fs.inodes)[ino := Cleared(old(fs.inodes)[ino], |gone|)]
    ensures FreedAll(old(fs.S()), old(fs.owner), fs.S(), ino) <==> ok && Complete(old(fs.S()), ino)
    ensures 0 <= old(fs.inodes)[ino].size <= BLOCK_SIZE * INT_MAX ==>
              BySize(old(fs.S()), old(fs.owner), fs.S(), ino, ok)
    ensures ok && Complete(old(fs.S()), ino) ==>
              fs.Valid() && fs.owner == old(fs.owner) - BlocksOf(old(fs.owner), ino)
  {
    hide Word, Ptr, Hit, Complete, FileSystem.Wired, FileSystem.Used, Owned, GoneIs, BlocksOf, HitBlocks, BySize;
    ghost var s0, o0 := fs.S(), fs.owner;
    var e := BlocksUpTo(fs.inodes[ino].size);
    ghost var gone := FreeDirect(fs, ino, e, s0, o0);
    e := e - NR_DIRECT;
    ok, gone := FreeIndirect(fs, ino, e, s0, o0, gone);
    if !ok {
      IndirectLeft(s0, o0, fs.S(), ino, gone);
      if 0 <= s0.inodes[ino].size <= BLOCK_SIZE * INT_MAX {
        RefusedBySize(s0, o0, fs.S(), ino);
      }
      return;
    }
    e := e - NR_INDIRECT;
    gone := FreeDouble(fs, ino, e, s0, o0, gone);
    ghost var s3 := fs.S();
    fs.inodes := fs.inodes[ino := fs.inodes[ino].(size := 0)];
    AllHitsGone(s0, o0, ino, gone);
    assert fs.inodes[ino] == Cleared(s0.inodes[ino], |gone|);
    OnlyThisInode(s0, o0, s3, ino, gone, fs.inodes);
    FreedExactly(s0, o0, fs.S(), ino, gone);
    if 0 <= s0.inodes[ino].size <= BLOCK_SIZE * INT_MAX {
      FreedBySize(s0, o0, fs.S(), ino);
    }
    if Complete(s0, ino) {
      fs.owner := o0 - BlocksOf(o0, ino);
      FreedAllIsExact(s0, o0, fs.S(), ino);
    }
  }

  lemma OnlyThisInode(s: State, o: map<int, Place>, s1: State, ino: int, gone: set<int>, inodes: map<int, Inode>)
    requires Partly(s, o, s1, ino, gone) && ino in inodes && inodes == s1.inodes[ino := inodes[ino]]
    ensures inodes == s.inodes[ino := inodes[ino]]
  {
    assert inodes.Keys == s.inodes.Keys;
    assert forall k :: k in s.inodes && k != ino ==> inodes[k] == s.inodes[k];
  }

  /** After a failed assertion the indirect block is still there. */
  lemma IndirectLeft(s: State, o: map<int, Place>, s': State, ino: int, gone: set<int>)
    requires ino in s.inodes && Owned(s, o) && s.inodes[ino].indirect != 0
    requires GoneIs(s, o, ino, AfterDirect, gone) && Partly(s, o, s', ino, gone)
    ensures !FreedAll(s, o, s', ino)
  {
    hide Ptr, Hit;
    RootPointers(s, ino);
    var b := s.inodes[ino].indirect;
    assert b in s.used && o[b] == Place(ino, Indirect);
    assert b in BlocksOf(o, ino) && b in s'.used;
  }

  lemma AllHitsGone(s: State, o: map<int, Place>, ino: int, gone: set<int>)
    requires ino in s.inodes && Owned(s, o) && GoneIs(s, o, ino, Outer(NR_INDIRECT).(double := true), gone)
    ensures gone == HitBlocks(s, o, ino)
  {
    hide Hit;
    ValidOwners(s, o);
    forall b ensures b in gone <==> b in HitBlocks(s, o, ino) {
    }
  }

  lemma FreedExactly(s: State, o: map<int, Place>, s': State, ino: int, gone: set<int>)
    requires ino in s.inodes && Owned(s, o) && gone == HitBlocks(s, o, ino)
    requires s'.used == s.used - gone && s'.disk.Keys == s.disk.Keys
    requires forall b :: b in s.disk && b !in gone ==> s'.disk[b] == s.disk[b]
    requires s'.inodes == s.inodes[ino := Cleared(s.inodes[ino], |gone|)]
    ensures FreedAll(s, o, s', ino) <==> Complete(s, ino)
  {
    hide Ptr, Hit;
    if Complete(s, ino) {
      forall b ensures b in gone <==> b in BlocksOf(o, ino) {
        if b in o && o[b].ino == ino {
          assert Ptr(s, o[b]) == b && o[b] == Place(ino, o[b].slot);
        }
      }
      assert gone == BlocksOf(o, ino);
      ClearedIsEmpty(s, o, ino);
    } else {
      var slot :| Ptr(s, Place(ino, slot)) != 0 && !Hit(s, ino, slot);
      var b := Ptr(s, Place(ino, slot));
      assert b in BlocksOf(o, ino) && b in s'.used;
    }
  }

  lemma ClearedIsEmpty(s: State, o: map<int, Place>, ino: int)
    requires ino in s.inodes && Owned(s, o) && Complete(s, ino)
    ensures Cleared(s.inodes[ino], |BlocksOf(o, ino)|) == EmptyInode()
  {
    hide Ptr, Rank;
    var n := s.inodes[ino];
    RootPointers(s, ino);
    forall i | 0 <= i < NR_DIRECT ensures n.direct[i] == 0 || i < BlocksUpTo(n.size) {
      DirectPtr(s, ino, i);
      assert Ptr(s, Place(ino, Direct(i))) != 0 ==> Hit(s, ino, Direct(i));
    }
    assert Ptr(s, Place(ino, Double)) != 0 ==> Hit(s, ino, Double);
  }
}
