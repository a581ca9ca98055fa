/** Concrete inputs on which the block layer (fs/read_write.c) does not do what is meant.
    Each starts from a new file system. */
module FileExamples {
  import opened Words
  import opened Store
  import opened Ranges
  import opened BlockLayer
  import opened FileWrites
  import opened WritePlan
  import opened Freeing
  import opened FreeTree
  import opened ReadWrite
  import opened Reading

  lemma BlankPointers(s: State, ino: int)
    requires ino in s.inodes && s.inodes[ino] == EmptyInode()
    ensures forall slot :: Ptr(s, Place(ino, slot)) == 0
    ensures forall l :: Resolve(s, ino, l) == 0
  {
  }

  /** The first blocks of a blank file cost one block each. */
  lemma {:induction false} BlankNeed(s: State, ino: int, k: int)
    requires ino in s.inodes && s.inodes[ino] == EmptyInode() && 0 <= k <= NR_DIRECT
    ensures NeedRange(s, ino, 0, k) == k
  {
    hide Ptr;
    BlankPointers(s, ino);
    if k > 0 {
      BlankNeed(s, ino, k - 1);
    }
  }

  function Ones(n: nat): (d: seq<byte>)
    ensures |d| == n && forall i :: 0 <= i < n ==> d[i] == 1
  {
    seq(n, _ => 1)
  }

  /** With one block left, a write of two blocks claims to be complete: the size covers
      bytes that were never stored. */
  method MisreportedWrite() returns (fs: FileSystem, r: int)
    ensures fs.Valid() && 0 in fs.inodes && r == 2 * BLOCK_SIZE && fs.inodes[0].size == 2 * BLOCK_SIZE
    ensures FileByte(fs.S(), 0, 0) == 1 && FileByte(fs.S(), 0, BLOCK_SIZE) == 0
  {
    hide Owned, FileByte, OutcomeOf, Filled, NeedRange, TightAll, Ptr, Stuck;
    fs := new FileSystem(1, 0, {0});
    ghost var s := fs.S();
    BlankNeed(s, 0, 1);
    BlankNeed(s, 0, 2);
    BlankBytes(s, 0, BLOCK_SIZE);
    StoppedAt(s, 0, 0, 2 * BLOCK_SIZE, 1, 1);
    DirectDoesNotStick(s, 0, 0, 1, 1);
    r := WriteData(fs, 0, Ones(2 * BLOCK_SIZE), 0);
  }

  lemma BlankBytes(s: State, ino: int, p: int)
    requires ino in s.inodes && s.inodes[ino] == EmptyInode()
    ensures FileByte(s, ino, p) == 0
  {
    BlankPointers(s, ino);
  }

  lemma DirectDoesNotStick(s: State, ino: int, lo: int, m: int, room: int)
    requires ino in s.inodes && 0 <= lo <= m < NR_DIRECT
    ensures !Sticks(s, ino, lo, m, room)
  {
  }

  /** At an offset of 2^45 the block number wraps around: byte 0 of the file is
      overwritten and the size becomes 2^45 + 1. */
  method WrappedWrite() returns (fs: FileSystem, r: int)
    ensures fs.Valid() && 0 in fs.inodes && r == 1 && FileByte(fs.S(), 0, 0) == 1
    ensures fs.inodes[0].size == 35184372088833
  {
    hide Owned, FileByte, OutcomeOf, Filled, NeedRange, TightAll, Ptr, Stuck;
    fs := new FileSystem(1, 0, {0});
    ghost var s := fs.S();
    BlankNeed(s, 0, 1);
    BlankNeed(s, 0, 0);
    PositionWraps();
    StoppedAt(s, 0, 35184372088832, 1, 1, 1);
    r := WriteData(fs, 0, Ones(1), 35184372088832);
  }

  /** A read of a whole file of two blocks reports both and delivers one. */
  method CutRead() returns (fs: FileSystem, buf: array<byte>, r: int)
    ensures 0 in fs.inodes && r == 2 * BLOCK_SIZE == buf.Length
    ensures FileByte(fs.S(), 0, BLOCK_SIZE) == 1 && buf[BLOCK_SIZE] == 0
  {
    hide Owned, FileByte, OutcomeOf, Filled, NeedRange, TightAll, Ptr, Stuck;
    fs := new FileSystem(2, 0, {0});
    ghost var s := fs.S();
    BlankNeed(s, 0, 2);
    StoppedAt(s, 0, 0, 2 * BLOCK_SIZE, 2, 2);
    r := WriteData(fs, 0, Ones(2 * BLOCK_SIZE), 0);
    buf := new byte[2 * BLOCK_SIZE](_ => 0);
    r := ReadData(fs, 0, buf, 0, 2 * BLOCK_SIZE);
  }

  /** A write of three blocks that finds room for two leaves them above the size, and
      freeing the file then frees nothing. */
  method LostBlocks() returns (fs: FileSystem, ok: bool)
    ensures fs.Wired() && 0 in fs.inodes && ok && fs.inodes[0].size == 0
    ensures Resolve(fs.S(), 0, 0) != 0 && |fs.Used()| == 2
  {
    hide Owned, FileByte, OutcomeOf, NeedRange, TightAll, Ptr, Stuck, Cleared;
    fs := new FileSystem(2, 0, {0});
    ghost var s := fs.S();
    BlankNeed(s, 0, 2);
    BlankNeed(s, 0, 3);
    BlankPointers(s, 0);
    StoppedAt(s, 0, 0, 3 * BLOCK_SIZE, 2, 2);
    DirectDoesNotStick(s, 0, 0, 2, 2);
    var r := WriteData(fs, 0, Ones(3 * BLOCK_SIZE), 0);
    ghost var s1, o1 := fs.S(), fs.owner;
    RootPointers(s1, 0);
    EmptyFileHits(s1, o1, 0);
    ok := FreeBlocks(fs, 0);
    StillMapped(s1, fs.S(), 0);
  }

  lemma EmptyFileHits(s: State, o: map<int, Place>, ino: int)
    requires ino in s.inodes && s.inodes[ino].size == 0 && s.inodes[ino].indirect == 0 && Owned(s, o)
    ensures HitBlocks(s, o, ino) == {}
  {
    hide Ptr, Rank;
    RootPointers(s, ino);
    ValidOwners(s, o);
    forall b | b in o && o[b].ino == ino ensures !Hit(s, ino, o[b].slot) {
      assert Ptr(s, o[b]) == b && o[b] == Place(ino, o[b].slot);
    }
  }

  lemma StillMapped(s: State, s': State, ino: int)
    requires ino in s.inodes && ino in s'.inodes && s.inodes[ino].size == 0
    requires s'.inodes[ino] == Cleared(s.inodes[ino], 0)
    ensures Resolve(s', ino, 0) == Resolve(s, ino, 0) && s'.inodes[ino].size == 0
  {
  }

  /** A file with an indirect and no double indirect block: looking up the first block of
      the double indirect range returns the word behind the indirect block. */
  method StrayLookup() returns (fs: FileSystem, found: int)
    ensures 0 in fs.inodes && Resolve(fs.S(), 0, FIRST_DOUBLE) == 0 && found == 7
  {
    hide Owned, FileByte, OutcomeOf, NeedRange, TightAll, Ptr, Stuck, Resolve, OnRange;
    fs := new FileSystem(10, 7, {0});
    ghost var s := fs.S();
    BlankPointers(s, 0);
    NeedRangeIsSmall(s, 0, NR_DIRECT);
    StoppedAt(s, 0, NR_DIRECT * BLOCK_SIZE, 1, 10, NR_DIRECT + 1);
    var r := WriteData(fs, 0, Ones(1), NR_DIRECT * BLOCK_SIZE);
    ghost var s1 := fs.S();
    OnlyIndirect(s, s1);
    found := fs.LookupBlock(0, FIRST_DOUBLE);
  }

  lemma NeedRangeIsSmall(s: State, ino: int, l: int)
    requires ino in s.inodes && 0 <= l < MAX_FILE_BLOCKS
    ensures NeedRange(s, ino, l, l + 1) <= 3
  {
  }

  lemma OnlyIndirect(s: State, s1: State)
    requires 0 in s.inodes && 0 in s1.inodes && Filled(s, s1, 0, NR_DIRECT, NR_DIRECT + 1)
    requires (forall slot :: Ptr(s, Place(0, slot)) == 0) && forall l :: Resolve(s, 0, l) == 0
    ensures OutOfRange(s1.inodes[0], FIRST_DOUBLE) && Resolve(s1, 0, FIRST_DOUBLE) == 0
  {
    hide Ptr;
    MappedHasParents(s1, 0, NR_DIRECT);
    RootPointers(s1, 0);
  }

  /** Four blocks in all, one file with one block under the double indirect block: a write
      to the first block under its next entry fails and leaves a link to a free block. */
  method DanglingWrite() returns (fs: FileSystem, r: int)
    ensures fs.Wired() && r == -ENOSPC && forall o :: !Owned(fs.S(), o)
  {
    hide Owned, FileByte, OutcomeOf, NeedRange, NeedAfter, TightAll, Ptr, Stuck, StuckAt, Resolve, OnRange, Filled;
    fs := new FileSystem(4, 0, {0});
    ghost var s := fs.S();
    FirstUnderDouble(s);
    StoppedAt(s, 0, FIRST_DOUBLE * BLOCK_SIZE, 1, 4, FIRST_DOUBLE + 1);
    r := WriteData(fs, 0, Ones(1), FIRST_DOUBLE * BLOCK_SIZE);
    ghost var s1 := fs.S();
    NextUnderDouble(s, s1);
    StoppedAt(s1, 0, 4106 * BLOCK_SIZE, 1, 1, 4106);
    r := WriteData(fs, 0, Ones(1), 4106 * BLOCK_SIZE);
  }

  lemma FirstUnderDouble(s: State)
    requires 0 in s.inodes && s.inodes[0] == EmptyInode()
    ensures NeedRange(s, 0, FIRST_DOUBLE, FIRST_DOUBLE + 1) == 3
  {
    hide Ptr, NeedRange;
    BlankPointers(s, 0);
    NeedStep(s, 0, FIRST_DOUBLE, FIRST_DOUBLE);
  }

  lemma NextUnderDouble(s: State, s1: State)
    requires 0 in s.inodes && s.inodes[0] == EmptyInode() && 0 in s1.inodes
    requires Filled(s, s1, 0, FIRST_DOUBLE, FIRST_DOUBLE + 1)
    ensures NeedRange(s1, 0, 4106, 4106) == 0 && NeedRange(s1, 0, 4106, 4107) == 2 && StuckAt(s1, 0, 4106, 4106, 1)
  {
    hide Ptr, NeedRange;
    BlankPointers(s, 0);
    MappedHasParents(s1, 0, FIRST_DOUBLE);
    RootPointers(s1, 0);
    assert LeafSlot(4106) == DoubleLeaf(1, 0);
    assert Ptr(s1, Place(0, DoubleEntry(1))) == 0;
    assert Resolve(s1, 0, 4106) == 0;
    NeedStep(s1, 0, 4106, 4106);
  }
}
