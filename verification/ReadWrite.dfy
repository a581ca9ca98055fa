/** Reading and writing file data (fs/read_write.c). */
module ReadWrite {
  import opened Words
  import opened Store
  import opened Growth
  import opened BlockLayer
  import opened Allocation
  import opened AllocationDouble
  import opened Ranges
  import opened FileWrites
  import opened WritePlan

  /** Every logical block resolves as before and every file reads as before. */
  ghost predicate SameFiles(s: State, s': State) {
    && (forall k, l :: Resolve(s', k, l) == Resolve(s, k, l))
    && (forall k, p :: FileByte(s', k, p) == FileByte(s, k, p))
    && SameSizes(s, s')
  }

  lemma RollbackIsInvisible(s: State, s': State, o: map<int, Place>)
    requires Owned(s, o) && RolledBack(s, s')
    ensures SameFiles(s, s') && Owned(s', o) && s'.used == s.used && forall p :: Ptr(s', p) == Ptr(s, p)
  {
    RollbackKeepsFiles(s, s', o);
  }

  /** The dangling link leads to a zeroed block, so no file changes, but no
      assignment of owners fits the tree any more. */
  lemma DanglingLink(s: State, s': State, o: map<int, Place>, ino: int, l: int, e: int)
    requires Owned(s, o) && InDouble(l) && Dangling(s, s', ino, l, e) && Entry(s, ino, l) == 0
    requires s.inodes[ino].dindirect != 0 && s.used <= s.disk.Keys
    ensures Entry(s', ino, l) == e && e !in s'.used
    ensures forall o' :: !Owned(s', o')
    ensures !RolledBack(s, s') && s'.used == s.used
    ensures SameFiles(s, s')
  {
    hide SetWord, Word;
    DoubleSlot(l);
    EntryAttached(s, o, ino, l, e);
    var top := Place(ino, DoubleEntry(Outer(l)));
    AttachGrows(s, o, top, e);
    var s1 := Attach(s, top, e);
    assert s1.disk == s'.disk;
    forall p ensures Ptr(s', p) == Ptr(s1, p) {
      SamePointers(s1, s', p);
    }
    assert Ptr(s', top) == e;
    forall k, p ensures FileByte(s', k, p) == FileByte(s, k, p) {
      var m := p / BLOCK_SIZE;
      if 0 <= m < MAX_FILE_BLOCKS && Resolve(s, k, m) != 0 {
        var q := Place(k, LeafSlot(m));
        assert o[Ptr(s, q)] == q;
      }
    }
    if RolledBack(s, s') {
      RollbackKeepsFiles(s, s', o);
    }
  }

  lemma SamePointers(s: State, s': State, p: Place)
    requires s.disk == s'.disk && s.inodes.Keys == s'.inodes.Keys
    requires p.ino in s.inodes ==>
               && s.inodes[p.ino].direct == s'.inodes[p.ino].direct
               && s.inodes[p.ino].indirect == s'.inodes[p.ino].indirect
               && s.inodes[p.ino].dindirect == s'.inodes[p.ino].dindirect
    ensures Ptr(s', p) == Ptr(s, p)
  {
  }

  /** testfs_allocate_block. For a missing block the outcome is decided by the
      space left: it is mapped exactly when the blocks it needs fit; otherwise the
      file system is rolled back, except in the dangling case. Where the lookup runs past
      the indirect block, the word found there passes for the block. */
  method AllocateBlock(fs: FileSystem, ino: int, l: int) returns (r: int, block: Block)
    requires fs.Valid() && ino in fs.inodes && 0 <= l
    modifies fs, fs.blockFreemap.v
    ensures fs.Wired()
    ensures r < 0 ==> fs.owner == old(fs.owner) && fs.Used() == old(fs.Used())
    ensures l >= MAX_FILE_BLOCKS ==> r == -EFBIG && fs.S() == old(fs.S())
    ensures l < MAX_FILE_BLOCKS && OutOfRange(old(fs.inodes)[ino], l) && fs.stray != 0 ==>
              r == fs.stray && fs.S() == old(fs.S()) && fs.owner == old(fs.owner)
    ensures l < MAX_FILE_BLOCKS && !(OutOfRange(old(fs.inodes)[ino], l) && fs.stray != 0) ==>
              block == FileBlock(old(fs.S()), ino, l)
    ensures l < MAX_FILE_BLOCKS && !(OutOfRange(old(fs.inodes)[ino], l) && fs.stray != 0)
            && Resolve(old(fs.S()), ino, l) != 0 ==>
              r == Resolve(old(fs.S()), ino, l) && fs.S() == old(fs.S()) && fs.owner == old(fs.owner)
    ensures l < MAX_FILE_BLOCKS && !(OutOfRange(old(fs.inodes)[ino], l) && fs.stray != 0)
            && Resolve(old(fs.S()), ino, l) == 0 ==>
              && (r < 0 <==> |old(fs.Used())| + Need(old(fs.S()), ino, l) > fs.Capacity())
              && (r < 0 ==> r == -ENOSPC && SameFiles(old(fs.S()), fs.S()))
              && (r < 0 ==> (RolledBack(old(fs.S()), fs.S()) <==>
                             !Dangles(old(fs.S()), ino, l, fs.Capacity() - |old(fs.Used())|)))
              && (r < 0 && !RolledBack(old(fs.S()), fs.S()) ==> forall o :: !Owned(fs.S(), o))
              && (r >= 0 ==> Mapped(old(fs.S()), old(fs.owner), fs.S(), fs.owner, ino, l, r))
              && (r >= 0 ==> |fs.Used()| == |old(fs.Used())| + Need(old(fs.S()), ino, l))
  {
    hide Mapped, Owned, Ptr, Resolve, Need, Word, Entry, SameFiles, RolledBack, FileSystem.Wired, FileSystem.Used;
    if l >= MAX_FILE_BLOCKS {
      return -EFBIG, ZeroBlock();
    }
    ghost var s0, o0 := fs.S(), fs.owner;
    r, block := fs.ReadBlock(ino, l);
    if r != 0 {
      return;
    }
    if l < NR_DIRECT {
      NeedDirect(s0, ino, l);
      r := AllocateDirect(fs, ino, l);
      RolledBackReflexive(s0);
    } else if l < NR_DIRECT + NR_INDIRECT {
      r := AllocateIndirect(fs, ino, l);
    } else {
      DoubleSlot(l);
      NeedDouble(s0, ino, l);
      if fs.inodes[ino].dindirect == 0 {
        r := AllocateFromNoDouble(fs, ino, l);
      } else {
        ghost var e;
        r, e := AllocateUnderDouble(fs, ino, l);
        RolledBackReflexive(s0);
        if r < 0 && Dangles(s0, ino, l, fs.Capacity() - |s0.used|) {
          DanglingLink(s0, fs.S(), o0, ino, l, e);
        }
      }
    }
    if r < 0 && RolledBack(s0, fs.S()) {
      RollbackIsInvisible(s0, fs.S(), o0);
    }
  }

  lemma RolledBackReflexive(s: State)
    ensures RolledBack(s, s)
  {
  }

  lemma NeedDirect(s: State, ino: int, l: int)
    requires ino in s.inodes && 0 <= l < NR_DIRECT && Resolve(s, ino, l) == 0
    ensures Need(s, ino, l) == 1
  {
  }

  // ------------------------------------------------------------------- writing

  /** Allocate a logical block, copy a chunk into it and write it out; every step
      of testfs_write_data has this form. */
  method WriteChunk(fs: FileSystem, ino: int, l: int, off: int, chunk: seq<byte>) returns (r: int)
    requires fs.Valid() && ino in fs.inodes && 0 <= l
    requires l >= MAX_FILE_BLOCKS || fs.stray == 0 || !OutOfRange(fs.inodes[ino], l)
    requires 0 <= off && off + |chunk| <= BLOCK_SIZE
    modifies fs, fs.blockFreemap.v
    ensures fs.Wired() && (r == -ENOSPC || r == -EFBIG || r > 0)
    ensures r == -EFBIG <==> l >= MAX_FILE_BLOCKS
    ensures r == -EFBIG ==> fs.S() == old(fs.S()) && fs.Valid()
    ensures l < MAX_FILE_BLOCKS ==>
              var need := Need(old(fs.S()), ino, l);
              && (r == -ENOSPC <==> need > 0 && |old(fs.Used())| + need > fs.Capacity())
              && (r == -ENOSPC ==> Failed(old(fs.S()), fs.S(), Dangles(old(fs.S()), ino, l, fs.Capacity() - |old(fs.Used())|)))
              && (r == -ENOSPC && !Dangles(old(fs.S()), ino, l, fs.Capacity() - |old(fs.Used())|) ==> fs.Valid())
    ensures r > 0 ==> fs.Valid() && Wrote(old(fs.S()), fs.S(), ino, l * BLOCK_SIZE + off, chunk, l, l + 1)
  {
    hide Mapped, Owned, Ptr, LeafSlot, Word, SameFiles, RolledBack, Dangles, Wrote, FileBlock, Resolve, Need, Failed;
    hide FileSystem.Wired, FileSystem.Used;
    var block;
    ghost var s0, o0 := fs.S(), fs.owner;
    if l < MAX_FILE_BLOCKS {
      ResolvedOrNeeded(s0, o0, ino, l);
    }
    r, block := AllocateBlock(fs, ino, l);
    if r < 0 {
      if r == -ENOSPC {
        FailedEitherWay(s0, fs.S(), o0);
      }
      return;
    }
    ghost var s1 := fs.S();
    ReadyPointers(s0, o0, s1, fs.owner, ino, l, r);
    ChunkStored(s0, o0, s1, fs.owner, ino, l, r, off, chunk);
    fs.disk := fs.disk[r := Splice(block, off, chunk)];
    assert fs.S() == s1.(disk := s1.disk[r := Splice(FileBlock(s0, ino, l), off, chunk)]);
  }

  /** An allocation that did not fit: no file changes, no block is taken, and either the
      tree is as before or, in the dangling case, no assignment of owners fits it. */
  ghost predicate Failed(s: State, s': State, dangling: bool) {
    && SameFiles(s, s') && s'.used == s.used
    && (!dangling ==> forall p :: Ptr(s', p) == Ptr(s, p))
    && (dangling ==> forall o :: !Owned(s', o))
  }

  lemma FailedEitherWay(s: State, s': State, o: map<int, Place>)
    requires Owned(s, o) && SameFiles(s, s') && s'.used == s.used && s.used <= s.disk.Keys
    ensures RolledBack(s, s') ==> Failed(s, s', false) && Owned(s', o) && s'.used <= s'.disk.Keys
    ensures (forall o' :: !Owned(s', o')) ==> Failed(s, s', true)
  {
    hide Ptr, Owned;
    if RolledBack(s, s') {
      RollbackIsInvisible(s, s', o);
    }
  }

  lemma ResolvedOrNeeded(s: State, o: map<int, Place>, ino: int, l: int)
    requires Owned(s, o) && ino in s.inodes && 0 <= l < MAX_FILE_BLOCKS
    ensures Resolve(s, ino, l) != 0 <==> Need(s, ino, l) == 0
    ensures Resolve(s, ino, l) == 0 || Resolve(s, ino, l) > 0
  {
    PointersAreBlocks(s, o, ino);
  }

  // ------------------------------------------------------------- a write in progress

  /** What is left when a write gets no further than block `m`. */
  ghost predicate Left(s: State, s': State, ino: int, at: int, data: seq<byte>, lo: int, m: int, stuck: bool) {
    && ino in s.inodes && 0 <= lo <= m <= MAX_FILE_BLOCKS
    && WroteRange(s, s', ino, at, data) && SameSizes(s, s')
    && |s'.used| == |s.used| + NeedRange(s, ino, lo, m)
    && (stuck ==> forall o :: !Owned(s', o))
    && (!stuck ==> Filled(s, s', ino, lo, m) && (TightAll(s) ==> TightAll(s')))
  }

  predicate StuckAt(s: State, ino: int, lo: int, m: int, room: int)
    requires ino in s.inodes && 0 <= lo <= m
  {
    m < MAX_FILE_BLOCKS && Sticks(s, ino, lo, m, room)
  }

  ghost predicate Going(s: State, s': State, ino: int, at: int, data: seq<byte>, lo: int, l: int, room: int) {
    Wrote(s, s', ino, at, data, lo, l) && NeedRange(s, ino, lo, l) <= room
  }

  /** The lookups of a write of blocks [lo, hi) do not run past the indirect block, or
      find a zero there. */
  predicate Guarded(stray: int, n: Inode, lo: int, hi: int) {
    stray == 0 || Min(hi, MAX_FILE_BLOCKS) <= FIRST_DOUBLE || n.dindirect != 0 || (n.indirect == 0 && FIRST_DOUBLE <= lo)
  }

  lemma GuardLasts(stray: int, s: State, s1: State, ino: int, at: int, data: seq<byte>, lo: int, l: int, hi: int)
    requires Wrote(s, s1, ino, at, data, lo, l) && Guarded(stray, s.inodes[ino], lo, hi) && l < Min(hi, MAX_FILE_BLOCKS)
    ensures ino in s1.inodes && (stray == 0 || !OutOfRange(s1.inodes[ino], l))
  {
    hide Ptr, Resolve, WroteRange, TightAll, NeedRange;
    RootPointers(s, ino);
    RootPointers(s1, ino);
  }

  /** Whether the next block fits, told by the state before the write. */
  lemma NextFits(s: State, s1: State, ino: int, at: int, data: seq<byte>, lo: int, l: int, cap: int, room: int)
    requires Going(s, s1, ino, at, data, lo, l, room) && l < MAX_FILE_BLOCKS && room == Max(0, cap - |s.used|)
    ensures ino in s1.inodes
    ensures var need := Need(s1, ino, l);
            && (need > 0 && |s1.used| + need > cap <==> NeedRange(s, ino, lo, l + 1) > room)
            && (need > 0 && |s1.used| + need > cap ==> (Dangles(s1, ino, l, cap - |s1.used|) <==> Sticks(s, ino, lo, l, room)))
  {
    hide Ptr, WroteRange, TightAll, NeedRange, NeedAfter, Filled;
    NeedForeseen(s, s1, ino, lo, l);
    NeedStep(s, ino, lo, l);
  }

  lemma GoingLeaves(s: State, s1: State, ino: int, at: int, data: seq<byte>, lo: int, l: int, room: int)
    requires Going(s, s1, ino, at, data, lo, l, room)
    ensures Left(s, s1, ino, at, data, lo, l, false)
  {
  }

  lemma FailingLeaves(s: State, s1: State, s': State, ino: int, at: int, data: seq<byte>, lo: int, l: int, room: int, stuck: bool)
    requires Going(s, s1, ino, at, data, lo, l, room) && Failed(s1, s', stuck)
    ensures Left(s, s', ino, at, data, lo, l, stuck)
  {
    hide Ptr, FileByte, Resolve, Owned, NeedRange, TightAll, Filled;
    if !stuck {
      FilledFollowsPointers(s, s1, s', ino, lo, l);
      TightFollowsPointers(s1, s');
    }
  }

  /** The next chunk of a write: stored, or the write gets no further than this block. */
  method StoreNext(fs: FileSystem, ino: int, l: int, off: int, chunk: seq<byte>,
                   ghost s0: State, ghost at: int, ghost data: seq<byte>, ghost lo: int, ghost hi: int, ghost room: int)
    returns (r: int)
    requires fs.Valid() && Going(s0, fs.S(), ino, at, data, lo, l, room) && room == Max(0, fs.Capacity() - |s0.used|)
    requires ino in s0.inodes && Guarded(fs.stray, s0.inodes[ino], lo, hi) && (l < hi || l == MAX_FILE_BLOCKS)
    requires 0 <= off && off + |chunk| <= BLOCK_SIZE && at + |data| == l * BLOCK_SIZE + off
    modifies fs, fs.blockFreemap.v
    ensures fs.Wired() && ino in fs.inodes
    ensures r > 0 <==> l < MAX_FILE_BLOCKS && NeedRange(s0, ino, lo, l + 1) <= room
    ensures r > 0 ==> fs.Valid() && Going(s0, fs.S(), ino, at, data + chunk, lo, l + 1, room)
    ensures r <= 0 ==> r == (if l < MAX_FILE_BLOCKS then -ENOSPC else -EFBIG)
    ensures r <= 0 ==> Left(s0, fs.S(), ino, at, data, lo, l, StuckAt(s0, ino, lo, l, room))
    ensures r <= 0 && !StuckAt(s0, ino, lo, l, room) ==> fs.Valid()
  {
    hide Wrote, Owned, Failed, Left, NeedRange, NeedAfter, Need, Dangles, Sticks, Guarded, FileSystem.Wired, FileSystem.Used;
    ghost var s1 := fs.S();
    WroteFacts(s0, s1, ino, at, data, lo, l);
    if l < MAX_FILE_BLOCKS {
      GuardLasts(fs.stray, s0, s1, ino, at, data, lo, l, hi);
      NextFits(s0, s1, ino, at, data, lo, l, fs.Capacity(), room);
    }
    r := WriteChunk(fs, ino, l, off, chunk);
    if r > 0 {
      WroteMore(s0, s1, fs.S(), ino, at, data, chunk, lo, l);
      WroteFacts(s0, fs.S(), ino, at, data + chunk, lo, l + 1);
    } else if r == -ENOSPC {
      FailingLeaves(s0, s1, fs.S(), ino, at, data, lo, l, room, Sticks(s0, ino, lo, l, room));
      LeftFacts(s0, fs.S(), ino, at, data, lo, l, Sticks(s0, ino, lo, l, room));
    } else {
      GoingLeaves(s0, s1, ino, at, data, lo, l, room);
    }
  }

  lemma WroteFacts(s: State, s': State, ino: int, at: int, data: seq<byte>, lo: int, hi: int)
    requires Wrote(s, s', ino, at, data, lo, hi)
    ensures 0 <= lo <= hi <= MAX_FILE_BLOCKS && ino in s.inodes && ino in s'.inodes
  {
  }

  lemma LeftFacts(s: State, s': State, ino: int, at: int, data: seq<byte>, lo: int, m: int, stuck: bool)
    requires Left(s, s', ino, at, data, lo, m, stuck)
    ensures ino in s'.inodes
  {
  }

  /** The loop over the full blocks in the middle of a write (lines 313-328): `i` of them
      were stored when it ends or when the next one cannot be. */
  method WriteFullBlocks(fs: FileSystem, ino: int, buf: seq<byte>, blockNr: int, first: int, size: int,
                         ghost s0: State, ghost at: int, ghost hi: int, ghost room: int)
    returns (r: int, i: int)
    requires fs.Valid() && room == Max(0, fs.Capacity() - |s0.used|)
    requires 0 <= first <= size <= |buf| && at + first == (blockNr + 1) * BLOCK_SIZE
    requires Going(s0, fs.S(), ino, at, buf[..first], blockNr, blockNr + 1, room)
    requires ino in s0.inodes && Guarded(fs.stray, s0.inodes[ino], blockNr, hi) && hi >= EndBlock(at, size)
    modifies fs, fs.blockFreemap.v
    ensures fs.Wired() && ino in fs.inodes
    ensures 0 <= i && first + i * BLOCK_SIZE <= size && blockNr + 1 + i <= MAX_FILE_BLOCKS
    ensures var pos, m := first + i * BLOCK_SIZE, blockNr + 1 + i;
            && (r > 0 ==> fs.Valid() && Going(s0, fs.S(), ino, at, buf[..pos], blockNr, m, room)
                          && size - pos <= BLOCK_SIZE && (i > 0 ==> pos < size))
            && (r <= 0 ==>
                  && pos + BLOCK_SIZE < size && r == (if m < MAX_FILE_BLOCKS then -ENOSPC else -EFBIG)
                  && (m < MAX_FILE_BLOCKS ==> NeedRange(s0, ino, blockNr, m + 1) > room)
                  && NeedRange(s0, ino, blockNr, m) <= room
                  && Left(s0, fs.S(), ino, at, buf[..pos], blockNr, m, StuckAt(s0, ino, blockNr, m, room))
                  && (!StuckAt(s0, ino, blockNr, m, room) ==> fs.Valid()))
  {
    hide Wrote, Owned, Left, NeedRange, Sticks, Guarded, FileSystem.Wired, FileSystem.Used;
    WroteFacts(s0, fs.S(), ino, at, buf[..first], blockNr, blockNr + 1);
    r, i := 1, 0;
    while size - (first + i * BLOCK_SIZE) > BLOCK_SIZE
      invariant 0 <= i && first + i * BLOCK_SIZE <= size && (i > 0 ==> first + i * BLOCK_SIZE < size)
      invariant fs.Valid() && r > 0 && ino in fs.inodes && blockNr + 1 + i <= MAX_FILE_BLOCKS
      invariant Going(s0, fs.S(), ino, at, buf[..first + i * BLOCK_SIZE], blockNr, blockNr + 1 + i, room)
      decreases size - i
    {
      ghost var s1 := fs.S();
      var pos := first + i * BLOCK_SIZE;
      r := StoreNext(fs, ino, blockNr + 1 + i, 0, buf[pos..pos + BLOCK_SIZE], s0, at, buf[..pos], blockNr, hi, room);
      if r <= 0 {
        return;
      }
      assert buf[..pos] + buf[pos..pos + BLOCK_SIZE] == buf[..pos + BLOCK_SIZE];
      i := i + 1;
    }
  }

  // --------------------------------------------------------------- the whole write

  /** The sizes after `size` bytes went in at `start`. */
  ghost predicate SizesAfter(s: State, s': State, ino: int, start: int, size: int) {
    && ino in s.inodes && s'.inodes.Keys == s.inodes.Keys
    && (forall k :: k in s.inodes && k != ino ==> s'.inodes[k].size == s.inodes[k].size)
    && s'.inodes[ino].size == if size > 0 then Max(s.inodes[ino].size, start + size) else s.inodes[ino].size
  }

  /** A write ends in the dangling state. */
  predicate Stuck(s: State, ino: int, start: int, n: int, room: int)
    requires ino in s.inodes && 0 <= FirstBlock(start) && 0 <= room && 0 <= n
  {
    var lo, m := FirstBlock(start), OutcomeOf(s, ino, start, n, room).stop;
    && lo < MAX_FILE_BLOCKS && lo <= m && StuckAt(s, ino, lo, m, room)
    && m < Max(lo + 1, EndBlock(Position(start), Clipped(start, n)))
  }

  /** The state and the result after a write of `buf` at `start`, told by the state before. */
  ghost predicate Performed(s: State, s': State, ino: int, buf: seq<byte>, start: int, r: int, room: int) {
    && ino in s.inodes && 0 <= FirstBlock(start) && 0 <= room
    && var out, lo := OutcomeOf(s, ino, start, |buf|, room), FirstBlock(start);
    && r == out.result && 0 <= out.stored <= |buf|
    && WroteRange(s, s', ino, Position(start), buf[..out.stored])
    && SizesAfter(s, s', ino, start, if out.resized then Clipped(start, |buf|) else 0)
    && (lo >= MAX_FILE_BLOCKS ==> s' == s)
    && (lo < MAX_FILE_BLOCKS ==> lo <= out.stop <= MAX_FILE_BLOCKS && |s'.used| == |s.used| + NeedRange(s, ino, lo, out.stop))
    && (Stuck(s, ino, start, |buf|, room) ==> forall o :: !Owned(s', o))
    && (lo < MAX_FILE_BLOCKS && !Stuck(s, ino, start, |buf|, room) ==>
          Filled(s, s', ino, lo, out.stop) && (TightAll(s) ==> TightAll(s')))
  }

  /** The label `out` of testfs_write_data (lines 360-370). */
  method FinishWrite(fs: FileSystem, ino: int, start: int, size: int, check: bool) returns (r: int)
    requires ino in fs.inodes
    modifies fs`inodes
    ensures fs.S() == if size > 0 then Resized(old(fs.S()), ino, Max(old(fs.inodes)[ino].size, start + size)) else old(fs.S())
    ensures r == if check then -EFBIG else size
  {
    if size > 0 {
      fs.inodes := fs.inodes[ino := fs.inodes[ino].(size := Max(fs.inodes[ino].size, start + size))];
    }
    r := if check then -EFBIG else size;
  }

  /** A write that got no further than its stopping block performed what was foreseen. */
  lemma LeftIsPerformed(s: State, s1: State, ino: int, buf: seq<byte>, start: int, room: int)
    requires ino in s.inodes && 0 <= FirstBlock(start) < MAX_FILE_BLOCKS && 0 <= room
    requires var out, lo := OutcomeOf(s, ino, start, |buf|, room), FirstBlock(start);
             && 0 <= out.stored <= |buf| && lo <= out.stop
             && Left(s, s1, ino, Position(start), buf[..out.stored], lo, out.stop, Stuck(s, ino, start, |buf|, room))
    ensures var out, size := OutcomeOf(s, ino, start, |buf|, room), Clipped(start, |buf|);
            ino in s1.inodes
            && Performed(s, if out.resized then Resized(s1, ino, Max(s1.inodes[ino].size, start + size)) else s1,
                         ino, buf, start, out.result, room)
  {
    hide FileByte, Resolve, Owned, TightAll, NeedRange, OutcomeOf, Stuck, OnRange, Ptr;
    var out, size := OutcomeOf(s, ino, start, |buf|, room), Clipped(start, |buf|);
    if out.resized {
      ResizedMeansBytes(s, ino, start, |buf|, room);
      var z := Max(s1.inodes[ino].size, start + size);
      ResizeKeepsTree(s1, ino, z);
      if !Stuck(s, ino, start, |buf|, room) {
        FilledFollowsPointers(s, s1, Resized(s1, ino, z), ino, FirstBlock(start), out.stop);
      }
    }
  }

  lemma ResizedMeansBytes(s: State, ino: int, start: int, n: int, room: int)
    requires ino in s.inodes && 0 <= FirstBlock(start) && 0 <= room && 0 <= n
    requires OutcomeOf(s, ino, start, n, room).resized
    ensures Clipped(start, n) > 0
  {
  }

  /** The outcome, given where the write stopped. */
  lemma StoppedAt(s: State, ino: int, start: int, n: int, room: int, m: int)
    requires ino in s.inodes && 0 <= FirstBlock(start) < MAX_FILE_BLOCKS && 0 <= room && 0 <= n
    requires var lo, hi := FirstBlock(start), Max(FirstBlock(start) + 1, EndBlock(Position(start), Clipped(start, n)));
             && lo <= m <= Min(hi, MAX_FILE_BLOCKS) && NeedRange(s, ino, lo, m) <= room
             && (m < Min(hi, MAX_FILE_BLOCKS) ==> NeedRange(s, ino, lo, m + 1) > room)
    ensures var out, lo := OutcomeOf(s, ino, start, n, room), FirstBlock(start);
            var hi := Max(lo + 1, EndBlock(Position(start), Clipped(start, n)));
            && out.stop == m
            && out.stored == (if m == lo then 0 else Min(Clipped(start, n), m * BLOCK_SIZE - Position(start)))
            && (if m < hi && !(m == lo + 1 && hi == lo + 2)
                then out.result == (if m < MAX_FILE_BLOCKS then -ENOSPC else -EFBIG) && !out.resized
                else out.result == Result(start, n) && out.resized == (Clipped(start, n) > 0))
            && Stuck(s, ino, start, n, room) == (m < hi && StuckAt(s, ino, lo, m, room))
  {
    hide NeedRange, Reached;
    var lo, hi := FirstBlock(start), Max(FirstBlock(start) + 1, EndBlock(Position(start), Clipped(start, n)));
    ReachedIs(s, ino, lo, m, Min(hi, MAX_FILE_BLOCKS), room);
  }

  function HighBlock(start: int, n: int): int {
    Max(FirstBlock(start) + 1, EndBlock(Position(start), Clipped(start, n)))
  }

  lemma RefusedIsPerformed(s: State, ino: int, buf: seq<byte>, start: int, room: int)
    requires ino in s.inodes && FirstBlock(start) >= MAX_FILE_BLOCKS && 0 <= room
    ensures Performed(s, s, ino, buf, start, -EFBIG, room)
  {
    hide FileByte;
  }

  /** The first chunk of a write; a block number from the limit on is refused. */
  method StoreFirst(fs: FileSystem, ino: int, start: int, chunk: seq<byte>, ghost n: int, ghost room: int) returns (r: int)
    requires fs.Valid() && ino in fs.inodes && room == Max(0, fs.Capacity() - |fs.Used()|)
    requires 0 <= FirstBlock(start) && 0 <= n && Guarded(fs.stray, fs.inodes[ino], FirstBlock(start), HighBlock(start, n))
    requires start % BLOCK_SIZE + |chunk| <= BLOCK_SIZE
    modifies fs, fs.blockFreemap.v
    ensures fs.Wired() && ino in fs.inodes
    ensures FirstBlock(start) >= MAX_FILE_BLOCKS ==> r == -EFBIG && fs.S() == old(fs.S()) && fs.Valid()
    ensures FirstBlock(start) < MAX_FILE_BLOCKS ==>
              var s0, at, lo := old(fs.S()), Position(start), FirstBlock(start);
              && (r > 0 <==> NeedRange(s0, ino, lo, lo + 1) <= room)
              && (r > 0 ==> fs.Valid() && Going(s0, fs.S(), ino, at, chunk, lo, lo + 1, room))
              && (r <= 0 ==> r == -ENOSPC && Left(s0, fs.S(), ino, at, [], lo, lo, StuckAt(s0, ino, lo, lo, room)))
              && (r <= 0 && !StuckAt(s0, ino, lo, lo, room) ==> fs.Valid())
              && NeedRange(s0, ino, lo, lo) == 0
  {
    hide Wrote, Owned, Left, NeedRange, Sticks, Guarded, FileSystem.Wired, FileSystem.Used;
    ghost var s0, at := fs.S(), Position(start);
    var blockNr := FirstBlock(start);
    if blockNr >= MAX_FILE_BLOCKS {
      r := WriteChunk(fs, ino, blockNr, start % BLOCK_SIZE, chunk);
    } else {
      WroteNothing(s0, ino, at, blockNr);
      NothingNeeded(s0, ino, blockNr);
      r := StoreNext(fs, ino, blockNr, start % BLOCK_SIZE, chunk, s0, at, [], blockNr, HighBlock(start, n), room);
      assert [] + chunk == chunk;
    }
  }

  /** Ends a write that stopped at block `m` without touching the size. */
  lemma EndsHere(s: State, s1: State, ino: int, buf: seq<byte>, start: int, room: int, m: int, data: seq<byte>, stuck: bool)
    requires ino in s.inodes && 0 <= FirstBlock(start) < MAX_FILE_BLOCKS && 0 <= room
    requires var lo, hi := FirstBlock(start), HighBlock(start, |buf|);
             && lo <= m <= Min(hi, MAX_FILE_BLOCKS) && NeedRange(s, ino, lo, m) <= room
             && (m < Min(hi, MAX_FILE_BLOCKS) ==> NeedRange(s, ino, lo, m + 1) > room)
             && stuck == (m < hi && StuckAt(s, ino, lo, m, room))
             && Left(s, s1, ino, Position(start), data, lo, m, stuck)
    requires var k := if m == FirstBlock(start) then 0 else Min(Clipped(start, |buf|), m * BLOCK_SIZE - Position(start));
             0 <= k <= |buf| && data == buf[..k]
    ensures var out, size := OutcomeOf(s, ino, start, |buf|, room), Clipped(start, |buf|);
            && ino in s1.inodes && Stuck(s, ino, start, |buf|, room) == stuck
            && Performed(s, if out.resized then Resized(s1, ino, Max(s1.inodes[ino].size, start + size)) else s1,
                         ino, buf, start, out.result, room)
  {
    hide Left, NeedRange, Performed, OutcomeOf, Stuck, StuckAt;
    StoppedAt(s, ino, start, |buf|, room, m);
    LeftIsPerformed(s, s1, ino, buf, start, room);
  }

  /** The last block of a spanning write, and the label `out` (lines 330-370). */
  method WriteTail(fs: FileSystem, ino: int, buf: seq<byte>, start: int, size: int, check: bool, i: int,
                   ghost s0: State, ghost room: int)
    returns (r: int)
    requires fs.Valid() && room == Max(0, fs.Capacity() - |s0.used|) && ino in s0.inodes && 0 <= i
    requires 0 <= start && 0 <= FirstBlock(start) < MAX_FILE_BLOCKS
    requires Guarded(fs.stray, s0.inodes[ino], FirstBlock(start), HighBlock(start, |buf|))
    requires size == Clipped(start, |buf|) && (check <==> size != |buf|) && 0 <= size <= |buf|
    requires var pos, m := BLOCK_SIZE - start % BLOCK_SIZE + i * BLOCK_SIZE, FirstBlock(start) + 1 + i;
             && pos <= size && size - pos <= BLOCK_SIZE && (i > 0 ==> pos < size) && (pos == size ==> m == MAX_FILE_BLOCKS)
             && Going(s0, fs.S(), ino, Position(start), buf[..pos], FirstBlock(start), m, room)
    modifies fs, fs.blockFreemap.v
    ensures fs.Wired() && Performed(s0, fs.S(), ino, buf, start, r, room)
    ensures !Stuck(s0, ino, start, |buf|, room) ==> fs.Valid()
  {
    hide Wrote, Owned, Left, NeedRange, Sticks, Guarded, Performed, OutcomeOf, Stuck, Int32, FileSystem.Wired, FileSystem.Used;
    var blockNr, pos := FirstBlock(start), BLOCK_SIZE - start % BLOCK_SIZE + i * BLOCK_SIZE;
    var l := blockNr + i + 1;
    ghost var at, hi := Position(start), HighBlock(start, |buf|);
    WroteFacts(s0, fs.S(), ino, at, buf[..pos], blockNr, l);
    assert hi == if pos == size then l else l + 1;
    r := StoreNext(fs, ino, l, 0, buf[pos..size], s0, at, buf[..pos], blockNr, hi, room);
    ghost var s1 := fs.S();
    if r > 0 {
      assert buf[..pos] + buf[pos..size] == buf[..size];
      GoingLeaves(s0, s1, ino, at, buf[..size], blockNr, l + 1, room);
      EndsHere(s0, s1, ino, buf, start, room, l + 1, buf[..size], false);
      StoppedAt(s0, ino, start, |buf|, room, l + 1);
    } else {
      ghost var stuck := l < hi && StuckAt(s0, ino, blockNr, l, room);
      EndsHere(s0, s1, ino, buf, start, room, l, buf[..pos], stuck);
      StoppedAt(s0, ino, start, |buf|, room, l);
      if i > 0 {
        return;
      }
    }
    r := FinishWrite(fs, ino, start, size, check);
    ResizeKeepsTree(s1, ino, Max(s1.inodes[ino].size, start + size));
  }

  /** The part of testfs_write_data for writes that span blocks (lines 297-351). */
  method WriteSpan(fs: FileSystem, ino: int, buf: seq<byte>, start: int) returns (r: int)
    requires fs.Valid() && ino in fs.inodes && 0 <= start && 0 <= FirstBlock(start)
    requires Guarded(fs.stray, fs.inodes[ino], FirstBlock(start), HighBlock(start, |buf|))
    requires start % BLOCK_SIZE + |buf| > BLOCK_SIZE
    modifies fs, fs.blockFreemap.v
    ensures fs.Wired() && Performed(old(fs.S()), fs.S(), ino, buf, start, r, Max(0, fs.Capacity() - |old(fs.Used())|))
    ensures !Stuck(old(fs.S()), ino, start, |buf|, Max(0, fs.Capacity() - |old(fs.Used())|)) ==> fs.Valid()
  {
    hide Wrote, Owned, Left, NeedRange, Sticks, Guarded, Performed, OutcomeOf, Stuck, StuckAt, Int32, FileSystem.Wired, FileSystem.Used;
    var size, check := |buf|, false;
    var blockNr, blockIx := FirstBlock(start), start % BLOCK_SIZE;
    ghost var s0, room, at := fs.S(), Max(0, fs.Capacity() - |fs.Used()|), Position(start);
    if start <= MAX_FILE_SIZE && size > MAX_FILE_SIZE - start {
      size, check := MAX_FILE_SIZE - start, true;
    }
    var first := BLOCK_SIZE - blockIx;
    r := StoreFirst(fs, ino, start, buf[..first], |buf|, room);
    if r <= 0 {
      if blockNr >= MAX_FILE_BLOCKS {
        RefusedIsPerformed(s0, ino, buf, start, room);
      } else {
        EndsHere(s0, fs.S(), ino, buf, start, room, blockNr, [], StuckAt(s0, ino, blockNr, blockNr, room));
        StoppedAt(s0, ino, start, |buf|, room, blockNr);
      }
      return;
    }
    SpanFacts(start, |buf|);
    var i;
    r, i := WriteFullBlocks(fs, ino, buf, blockNr, first, size, s0, at, HighBlock(start, |buf|), room);
    if r <= 0 {
      ghost var m := blockNr + 1 + i;
      EndsHere(s0, fs.S(), ino, buf, start, room, m, buf[..first + i * BLOCK_SIZE], StuckAt(s0, ino, blockNr, m, room));
      StoppedAt(s0, ino, start, |buf|, room, m);
      return;
    }
    r := WriteTail(fs, ino, buf, start, size, check, i, s0, room);
  }

  /** The arithmetic of a spanning write that starts below the limit. */
  lemma SpanFacts(start: int, n: int)
    requires 0 <= start && 0 <= FirstBlock(start) < MAX_FILE_BLOCKS && start % BLOCK_SIZE + n > BLOCK_SIZE
    ensures var size, first := Clipped(start, n), BLOCK_SIZE - start % BLOCK_SIZE;
            && first <= size <= n && Position(start) + first == (FirstBlock(start) + 1) * BLOCK_SIZE
            && (first == size ==> FirstBlock(start) + 1 == MAX_FILE_BLOCKS)
            && size == if start <= MAX_FILE_SIZE && n > MAX_FILE_SIZE - start then MAX_FILE_SIZE - start else n
  {
    if start <= MAX_FILE_SIZE {
      PositionIsStart(start);
    }
  }

  /** testfs_write_data. The state before the call decides everything: the result, which
      bytes are stored, the sizes, the blocks taken, and whether the tree stays sound. */
  method WriteData(fs: FileSystem, ino: int, buf: seq<byte>, start: int) returns (r: int)
    requires fs.Valid() && ino in fs.inodes && 0 <= start && 0 <= FirstBlock(start) && |buf| <= INT_MAX
    requires Guarded(fs.stray, fs.inodes[ino], FirstBlock(start), HighBlock(start, |buf|))
    modifies fs, fs.blockFreemap.v
    ensures fs.Wired() && Performed(old(fs.S()), fs.S(), ino, buf, start, r, Max(0, fs.Capacity() - |old(fs.Used())|))
    ensures !Stuck(old(fs.S()), ino, start, |buf|, Max(0, fs.Capacity() - |old(fs.Used())|)) ==> fs.Valid()
  {
    hide Wrote, Owned, Left, NeedRange, Sticks, Guarded, Performed, OutcomeOf, Stuck, StuckAt, Int32, FileSystem.Wired, FileSystem.Used;
    if start % BLOCK_SIZE + |buf| > BLOCK_SIZE {
      r := WriteSpan(fs, ino, buf, start);
      return;
    }
    ghost var s0, room, at, lo := fs.S(), Max(0, fs.Capacity() - |fs.Used()|), Position(start), FirstBlock(start);
    assert lo < MAX_FILE_BLOCKS ==> HighBlock(start, |buf|) == lo + 1;
    r := StoreFirst(fs, ino, start, buf, |buf|, room);
    if r <= 0 {
      if lo >= MAX_FILE_BLOCKS {
        RefusedIsPerformed(s0, ino, buf, start, room);
      } else {
        EndsHere(s0, fs.S(), ino, buf, start, room, lo, [], StuckAt(s0, ino, lo, lo, room));
        StoppedAt(s0, ino, start, |buf|, room, lo);
      }
      return;
    }
    ghost var s1 := fs.S();
    assert buf[..|buf|] == buf;
    GoingLeaves(s0, s1, ino, at, buf, lo, lo + 1, room);
    EndsHere(s0, s1, ino, buf, start, room, lo + 1, buf, false);
    StoppedAt(s0, ino, start, |buf|, room, lo + 1);
    r := FinishWrite(fs, ino, start, |buf|, false);
    ResizeKeepsTree(s1, ino, Max(s1.inodes[ino].size, start + |buf|));
  }

  /** New blocks that a write takes. */
  function Demand(s: State, ino: int, start: int, n: int): int
    requires ino in s.inodes && 0 <= start < MAX_FILE_SIZE && 0 <= n
  {
    NeedRange(s, ino, start / BLOCK_SIZE, Min(HighBlock(start, n), MAX_FILE_BLOCKS))
  }

  /** A write whose blocks fit stores exactly [start, min(start + n, limit)), sets the size
      to the maximum of the old size and that end, and reports the limit exactly when it
      cuts something off; the file system stays well formed. */
  lemma WrittenWithSpace(s: State, s': State, ino: int, buf: seq<byte>, start: int, r: int, room: int)
    requires Performed(s, s', ino, buf, start, r, room) && 0 <= start < MAX_FILE_SIZE
    requires Demand(s, ino, start, |buf|) <= room
    ensures var done := Min(|buf|, MAX_FILE_SIZE - start);
            && WroteRange(s, s', ino, start, buf[..done]) && SizesAfter(s, s', ino, start, done)
            && r == (if start + |buf| > MAX_FILE_SIZE then -EFBIG else |buf|)
            && !Stuck(s, ino, start, |buf|, room)
            && (WellFormed(s) && buf != [] ==> WellFormed(s'))
  {
    hide NeedRange, WroteRange, OutcomeOf, WellFormed, Filled, TightAll;
    PositionIsStart(start);
    var lo, hi, n := start / BLOCK_SIZE, HighBlock(start, |buf|), |buf|;
    assert hi <= MAX_FILE_BLOCKS;
    WithSpace(s, ino, start, n, room);
    ReachedAll(s, ino, lo, hi, room);
    ReachedStops(s, ino, lo, hi, room);
    StoppedAt(s, ino, start, n, room, hi);
    var done := Min(n, MAX_FILE_SIZE - start);
    assert Clipped(start, n) == done;
    if WellFormed(s) && buf != [] {
      FilledIsWellFormed(s, s', ino, start, done, hi);
    }
  }

  lemma FilledIsWellFormed(s: State, s': State, ino: int, start: int, n: int, hi: int)
    requires WellFormed(s) && ino in s.inodes && 0 < n && 0 <= start && start + n <= MAX_FILE_SIZE
    requires Filled(s, s', ino, start / BLOCK_SIZE, hi) && (hi - 1) * BLOCK_SIZE < start + n
    requires SizesAfter(s, s', ino, start, n) && (TightAll(s) ==> TightAll(s'))
    ensures WellFormed(s')
  {
    hide Ptr, TightAll, OnRange, LeafSlot;
    forall k, l | Resolve(s', k, l) != 0 ensures k in s'.inodes && l * BLOCK_SIZE < s'.inodes[k].size {
      assert Resolve(s', k, l) == Ptr(s', Place(k, LeafSlot(l)));
      if Resolve(s, k, l) == 0 {
        RangeLeaf(k, l, ino, start / BLOCK_SIZE, hi);
      } else {
        assert Bounded(s, k);
      }
    }
  }
}
