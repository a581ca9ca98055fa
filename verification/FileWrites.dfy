/** What a write means for the files of the system: relations between states. */
module FileWrites {
  import opened Words
  import opened Store
  import opened Growth
  import opened Ranges

  /** Bytes [start, start + |data|) of file `ino` are `data`; every other byte of every file is as before. */
  ghost predicate WroteRange(s: State, s': State, ino: int, start: int, data: seq<byte>) {
    forall k, p :: FileByte(s', k, p) ==
      if k == ino && start <= p < start + |data| then data[p - start] else FileByte(s, k, p)
  }

  ghost predicate SameSizes(s: State, s': State) {
    && s'.inodes.Keys == s.inodes.Keys
    && (forall k :: k in s.inodes ==> s'.inodes[k].size == s.inodes[k].size)
  }

  ghost predicate TightAll(s: State) {
    forall k :: k in s.inodes ==> Tight(s, k)
  }

  /** The combined effect of storing `data` at `start`, touching logical blocks [lo, hi):
      those are mapped with as many new blocks as that takes, and nothing else changes. */
  ghost predicate Wrote(s: State, s': State, ino: int, start: int, data: seq<byte>, lo: int, hi: int) {
    && ino in s.inodes && 0 <= lo <= hi <= MAX_FILE_BLOCKS
    && WroteRange(s, s', ino, start, data)
    && Filled(s, s', ino, lo, hi)
    && |s'.used| == |s.used| + NeedRange(s, ino, lo, hi)
    && SameSizes(s, s')
    && (TightAll(s) ==> TightAll(s'))
  }

  lemma WroteNothing(s: State, ino: int, start: int, lo: int)
    requires ino in s.inodes && 0 <= lo <= MAX_FILE_BLOCKS
    ensures Wrote(s, s, ino, start, [], lo, lo)
  {
    FilledNothing(s, ino, lo);
  }

  /** Mapping one block costs what it needs. */
  lemma OneBlock(s: State, ino: int, m: int)
    requires ino in s.inodes && 0 <= m < MAX_FILE_BLOCKS
    ensures NeedRange(s, ino, m, m + 1) == Need(s, ino, m)
  {
    FilledNothing(s, ino, m);
    NeedForeseen(s, s, ino, m, m);
    assert NeedRange(s, ino, m, m) == 0;
  }

  /** Storing the next chunk, in the next block, extends a write. */
  lemma WroteMore(s: State, s1: State, s2: State, ino: int, start: int, a: seq<byte>, b: seq<byte>, lo: int, m: int)
    requires Wrote(s, s1, ino, start, a, lo, m) && Wrote(s1, s2, ino, start + |a|, b, m, m + 1)
    ensures Wrote(s, s2, ino, start, a + b, lo, m + 1)
  {
    hide FileByte, Resolve, TightAll, Filled, NeedAfter, NeedRange;
    FilledMore(s, s1, s2, ino, lo, m, m + 1);
    OneBlock(s1, ino, m);
    NeedForeseen(s, s1, ino, lo, m);
    NeedStep(s, ino, lo, m);
  }

  lemma NeedStep(s: State, ino: int, lo: int, m: int)
    requires ino in s.inodes && 0 <= lo <= m < MAX_FILE_BLOCKS
    ensures NeedRange(s, ino, lo, m + 1) == NeedRange(s, ino, lo, m) + NeedAfter(s, ino, lo, m)
    ensures NeedRange(s, ino, lo, lo) == 0
  {
  }

  // ---------------------------------------------------------- storing one chunk

  /** Logical block `l` of `ino` is the block `r`, found there or just mapped. */
  ghost predicate Ready(s: State, o: map<int, Place>, s1: State, o1: map<int, Place>, ino: int, l: int, r: int) {
    && 0 <= l < MAX_FILE_BLOCKS
    && ((s1 == s && o1 == o && r == Resolve(s, ino, l) && r != 0) || (Resolve(s, ino, l) == 0 && Mapped(s, o, s1, o1, ino, l, r)))
  }

  lemma ReadyPointers(s: State, o: map<int, Place>, s1: State, o1: map<int, Place>, ino: int, l: int, r: int)
    requires Owned(s, o) && s.used <= s.disk.Keys && Ready(s, o, s1, o1, ino, l, r)
    ensures Owned(s1, o1) && s1.used <= s1.disk.Keys + {r} && r in o1 && o1[r] == Place(ino, LeafSlot(l))
    ensures forall p: Place :: IsLeaf(p.slot) && p != Place(ino, LeafSlot(l)) ==> Ptr(s1, p) == Ptr(s, p)
    ensures Ptr(s1, Place(ino, LeafSlot(l))) == r
    ensures forall p: Place :: IsLeaf(p.slot) && p != Place(ino, LeafSlot(l)) && Ptr(s, p) != 0 ==>
              Ptr(s, p) != r && AgreeAt(s.disk, s1.disk, Ptr(s, p))
    ensures SameSizes(s, s1) && (TightAll(s) ==> TightAll(s1))
    ensures Resolve(s, ino, l) != 0 ==> r == Resolve(s, ino, l)
    ensures InDataArea(r)
  {
    hide Ptr;
    assert Ptr(s1, Place(ino, LeafSlot(l))) == r;
    forall p: Place | IsLeaf(p.slot) && p != Place(ino, LeafSlot(l)) && Ptr(s, p) != 0
      ensures Ptr(s, p) != r && AgreeAt(s.disk, s1.disk, Ptr(s, p))
    {
      assert o[Ptr(s, p)] == p;
    }
  }

  lemma LeafSlotInjective(l: int, m: int)
    requires 0 <= l < MAX_FILE_BLOCKS && 0 <= m < MAX_FILE_BLOCKS && LeafSlot(l) == LeafSlot(m)
    ensures l == m
  {
    AddressingIsBijective(l, LeafSlot(l));
    AddressingIsBijective(m, LeafSlot(m));
  }

  lemma ReadyFills(s: State, o: map<int, Place>, s1: State, o1: map<int, Place>, ino: int, l: int, r: int)
    requires Ready(s, o, s1, o1, ino, l, r)
    ensures Filled(s, s1, ino, l, l + 1)
  {
    hide Ptr, Mapped, OnRange;
    if Resolve(s, ino, l) == 0 {
      MappedFills(s, o, s1, o1, ino, l, r);
    }
  }

  lemma FilledFollowsPointers(s: State, s1: State, s2: State, ino: int, lo: int, hi: int)
    requires Filled(s, s1, ino, lo, hi) && forall p :: Ptr(s2, p) == Ptr(s1, p)
    ensures Filled(s, s2, ino, lo, hi)
  {
    hide Ptr, LeafSlot, OnRange;
    forall l ensures Resolve(s2, ino, l) == Resolve(s1, ino, l) {
    }
  }

  lemma ChunkBytes(s: State, o: map<int, Place>, s1: State, o1: map<int, Place>, ino: int, l: int, r: int,
                   off: int, chunk: seq<byte>)
    requires Owned(s, o) && s.used <= s.disk.Keys && Ready(s, o, s1, o1, ino, l, r)
    requires 0 <= off && off + |chunk| <= BLOCK_SIZE
    ensures var s2 := s1.(disk := s1.disk[r := Splice(FileBlock(s, ino, l), off, chunk)]);
            && Owned(s2, o1) && s2.used <= s2.disk.Keys && (forall p :: Ptr(s2, p) == Ptr(s1, p))
            && Resolve(s2, ino, l) == r
            && WroteRange(s, s2, ino, l * BLOCK_SIZE + off, chunk)
  {
    hide Ready, Mapped, Tight;
    var blk := Splice(FileBlock(s, ino, l), off, chunk);
    var s2 := s1.(disk := s1.disk[r := blk]);
    ReadyPointers(s, o, s1, o1, ino, l, r);
    DataWriteKeepsOwned(s1, o1, r, blk);
    hide Ptr, Owned, LeafSlot;
    forall k, p
      ensures FileByte(s2, k, p) ==
        if k == ino && l * BLOCK_SIZE + off <= p < l * BLOCK_SIZE + off + |chunk|
        then chunk[p - (l * BLOCK_SIZE + off)] else FileByte(s, k, p)
    {
      var m := p / BLOCK_SIZE;
      if k == ino && m == l {
        assert FileByte(s2, k, p) == blk[p % BLOCK_SIZE];
      } else if 0 <= m < MAX_FILE_BLOCKS {
        var q := Place(k, LeafSlot(m));
        if LeafSlot(m) == LeafSlot(l) {
          LeafSlotInjective(m, l);
        }
        assert Resolve(s2, k, m) == Ptr(s, q) == Resolve(s, k, m);
      }
    }
  }

  /** Splicing a chunk into block `l` of a file stores it and changes no other byte. */
  lemma ChunkStored(s: State, o: map<int, Place>, s1: State, o1: map<int, Place>, ino: int, l: int, r: int,
                    off: int, chunk: seq<byte>)
    requires Owned(s, o) && s.used <= s.disk.Keys && Ready(s, o, s1, o1, ino, l, r) && ino in s.inodes
    requires |s1.used| == |s.used| + Need(s, ino, l)
    requires 0 <= off && off + |chunk| <= BLOCK_SIZE
    ensures var s2 := s1.(disk := s1.disk[r := Splice(FileBlock(s, ino, l), off, chunk)]);
            && Owned(s2, o1) && s2.used <= s2.disk.Keys && Resolve(s2, ino, l) == r
            && Wrote(s, s2, ino, l * BLOCK_SIZE + off, chunk, l, l + 1)
  {
    hide Ready, Mapped, Tight, Filled, WroteRange, Ptr, Owned, LeafSlot, Need, NeedRange, Resolve;
    var s2 := s1.(disk := s1.disk[r := Splice(FileBlock(s, ino, l), off, chunk)]);
    ReadyIsInRange(s, o, s1, o1, ino, l, r);
    ReadyPointers(s, o, s1, o1, ino, l, r);
    ReadyFills(s, o, s1, o1, ino, l, r);
    ChunkBytes(s, o, s1, o1, ino, l, r, off, chunk);
    FilledFollowsPointers(s, s1, s2, ino, l, l + 1);
    TightFollowsPointers(s1, s2);
    OneBlock(s, ino, l);
  }

  lemma ReadyIsInRange(s: State, o: map<int, Place>, s1: State, o1: map<int, Place>, ino: int, l: int, r: int)
    requires Ready(s, o, s1, o1, ino, l, r)
    ensures 0 <= l < MAX_FILE_BLOCKS
  {
  }

  lemma TightFollowsPointers(s: State, s': State)
    requires s'.inodes.Keys == s.inodes.Keys && forall p :: Ptr(s', p) == Ptr(s, p)
    ensures TightAll(s) ==> TightAll(s')
  {
    hide Ptr;
    if TightAll(s) {
      forall k | k in s'.inodes ensures Tight(s', k) {
        assert Tight(s, k);
      }
    }
  }

  // -------------------------------------------------------------- the file size

  /** Every mapped block of `k` starts below its size. */
  ghost predicate Bounded(s: State, k: int) {
    forall l :: Resolve(s, k, l) != 0 ==> k in s.inodes && l * BLOCK_SIZE < s.inodes[k].size
  }

  ghost predicate BoundedAll(s: State) {
    forall k :: Bounded(s, k)
  }

  /** What every inode satisfies between operations that had enough space. */
  ghost predicate WellFormed(s: State) {
    && TightAll(s) && BoundedAll(s)
    && (forall k :: k in s.inodes ==> 0 <= s.inodes[k].size <= MAX_FILE_SIZE)
  }

  function Resized(s: State, ino: int, size: int): State
    requires ino in s.inodes
  {
    s.(inodes := s.inodes[ino := s.inodes[ino].(size := size)])
  }

  lemma ResizeKeepsTree(s: State, ino: int, size: int)
    requires ino in s.inodes
    ensures forall p :: Ptr(Resized(s, ino, size), p) == Ptr(s, p)
    ensures forall o :: Owned(s, o) <==> Owned(Resized(s, ino, size), o)
    ensures forall k, l :: Resolve(Resized(s, ino, size), k, l) == Resolve(s, k, l)
    ensures forall k, p :: FileByte(Resized(s, ino, size), k, p) == FileByte(s, k, p)
    ensures TightAll(s) ==> TightAll(Resized(s, ino, size))
  {
    hide Word;
    var s' := Resized(s, ino, size);
    assert forall p :: Ptr(s', p) == Ptr(s, p);
    hide Ptr, LeafSlot;
    TightFollowsPointers(s, s');
    forall k, l ensures Resolve(s', k, l) == Resolve(s, k, l) {
    }
  }

  lemma RangeLeaf(k: int, l: int, ino: int, lo: int, hi: int)
    requires 0 <= l < MAX_FILE_BLOCKS && OnRange(Place(k, LeafSlot(l)), ino, lo, hi)
    ensures k == ino && lo <= l < hi
  {
  }
}
