/** The double indirect branch of testfs_allocate_block (fs/read_write.c). */
module AllocationDouble {
  import opened Words
  import opened Store
  import opened Growth
  import opened BlockLayer
  import opened Allocation

  /** Indices of a logical block within the double indirect range. */
  function Outer(l: int): int { (l - NR_DIRECT - NR_INDIRECT) / NR_INDIRECT }
  function Inner(l: int): int { (l - NR_DIRECT - NR_INDIRECT) % NR_INDIRECT }

  predicate InDouble(l: int) {
    NR_DIRECT + NR_INDIRECT <= l < MAX_FILE_BLOCKS
  }

  lemma DoubleSlot(l: int)
    requires InDouble(l)
    ensures LeafSlot(l) == DoubleLeaf(Outer(l), Inner(l))
    ensures 0 <= Outer(l) < NR_INDIRECT && 0 <= Inner(l) < NR_INDIRECT
  {
  }

  function Entry(s: State, ino: int, l: int): int {
    Ptr(s, Place(ino, DoubleEntry(Outer(l))))
  }

  lemma NeedDouble(s: State, ino: int, l: int)
    requires ino in s.inodes && InDouble(l) && Resolve(s, ino, l) == 0
    ensures Need(s, ino, l) ==
              if s.inodes[ino].dindirect == 0 then 3 else if Entry(s, ino, l) == 0 then 2 else 1
  {
    DoubleSlot(l);
  }

  /** The entry of an existing double indirect block as the code reads it. */
  lemma EntryIsWord(s: State, owner: map<int, Place>, ino: int, l: int)
    requires Owned(s, owner) && s.used <= s.disk.Keys && ino in s.inodes && InDouble(l)
    requires s.inodes[ino].dindirect != 0
    ensures 0 <= Outer(l) < NR_INDIRECT
    ensures s.inodes[ino].dindirect in s.disk && InDataArea(s.inodes[ino].dindirect) && s.inodes[ino].dindirect in s.used
    ensures Entry(s, ino, l) == Word(s.disk[s.inodes[ino].dindirect], Outer(l))
    ensures Entry(s, ino, l) != 0 ==>
              Entry(s, ino, l) in s.disk && Entry(s, ino, l) in s.used && Entry(s, ino, l) != s.inodes[ino].dindirect
  {
    hide Word;
    DoubleSlot(l);
    var d := Place(ino, Double);
    assert Ptr(s, d) == s.inodes[ino].dindirect;
    assert owner[Ptr(s, d)] == d;
  }

  // ------------------------------------------------- value-level descriptions

  lemma LeafMapped(s: State, o: map<int, Place>, ino: int, l: int, r: int, d': map<int, Block>, n': Inode)
    requires Owned(s, o) && s.used <= s.disk.Keys && InDataArea(r) && r !in s.used
    requires ino in s.inodes && InDouble(l) && Resolve(s, ino, l) == 0
    requires Entry(s, ino, l) != 0 && Entry(s, ino, l) in s.disk && 0 <= Inner(l) < NR_INDIRECT
    requires d' == s.disk[Entry(s, ino, l) := SetWord(s.disk[Entry(s, ino, l)], Inner(l), r)]
    requires n' == s.inodes[ino].(blockCount := s.inodes[ino].blockCount + 1)
    ensures Mapped(s, o, State(d', s.inodes[ino := n'], s.used + {r}), o[r := Place(ino, LeafSlot(l))], ino, l, r)
  {
    hide Mapped, Word, SetWord;
    DoubleSlot(l);
    var place := Place(ino, LeafSlot(l));
    assert Parent(place) == Place(ino, DoubleEntry(Outer(l)));
    MappedByLeaf(s, o, s, o, ino, l, r);
    assert Attach(s, place, r) == State(d', s.inodes[ino := n'], s.used + {r});
  }

  /** Linking a fresh, empty indirect block `e` into the double indirect block. */
  lemma EntryAttached(s: State, o: map<int, Place>, ino: int, l: int, e: int)
    requires Owned(s, o) && s.used <= s.disk.Keys && InDataArea(e) && e !in s.used
    requires ino in s.inodes && InDouble(l) && Entry(s, ino, l) == 0
    requires s.inodes[ino].dindirect != 0 && s.inodes[ino].dindirect in s.disk && 0 <= Outer(l) < NR_INDIRECT
    ensures var top := Place(ino, DoubleEntry(Outer(l)));
            var d := s.inodes[ino].dindirect;
            && Attachable(s, top)
            && Attach(s, top, e) == State(
                 s.disk[d := SetWord(s.disk[d], Outer(l), e)][e := ZeroBlock()],
                 s.inodes[ino := s.inodes[ino].(blockCount := s.inodes[ino].blockCount + 1)],
                 s.used + {e})
  {
    hide Word, SetWord;
  }

  /** The double indirect block existed, its entry and the data block are new. */
  lemma LeafMappedFreshEntry(s: State, o: map<int, Place>, ino: int, l: int, e: int, r: int,
                             d': map<int, Block>, n': Inode)
    requires Owned(s, o) && s.used <= s.disk.Keys && InDataArea(r) && r !in s.used
    requires InDataArea(e) && e !in s.used && e != r
    requires ino in s.inodes && InDouble(l) && Entry(s, ino, l) == 0
    requires s.inodes[ino].dindirect != 0 && s.inodes[ino].dindirect in s.disk && s.inodes[ino].dindirect in s.used
    requires 0 <= Outer(l) < NR_INDIRECT && 0 <= Inner(l) < NR_INDIRECT
    requires var d := s.inodes[ino].dindirect;
             d' == s.disk[d := SetWord(s.disk[d], Outer(l), e)][e := SetWord(ZeroBlock(), Inner(l), r)]
    requires n' == s.inodes[ino].(blockCount := s.inodes[ino].blockCount + 2)
    ensures Mapped(s, o, State(d', s.inodes[ino := n'], s.used + {e} + {r}),
                   o[e := Place(ino, DoubleEntry(Outer(l)))][r := Place(ino, LeafSlot(l))], ino, l, r)
  {
    hide Mapped, Grew, Tight, Word, SetWord;
    DoubleSlot(l);
    var top, place := Place(ino, DoubleEntry(Outer(l))), Place(ino, LeafSlot(l));
    EntryAttached(s, o, ino, l, e);
    OneLevel(s, o, top, e);
    var s1 := Attach(s, top, e);
    assert Ptr(s, place) == 0;
    assert Ptr(s1, place) == 0;
    assert Parent(place) == top && Ptr(s1, Parent(place)) == e;
    MappedByLeaf(s, o, s1, o[e := top], ino, l, r);
    assert Attach(s1, place, r).disk == d';
    assert Attach(s1, place, r) == State(d', s.inodes[ino := n'], s.used + {e} + {r});
  }

  lemma DoubleAttached(s: State, o: map<int, Place>, ino: int, d: int)
    requires Owned(s, o) && s.used <= s.disk.Keys && InDataArea(d) && d !in s.used
    requires ino in s.inodes && s.inodes[ino].dindirect == 0
    ensures var top := Place(ino, Double);
            var s1 := State(s.disk[d := ZeroBlock()],
                            s.inodes[ino := s.inodes[ino].(dindirect := d, blockCount := s.inodes[ino].blockCount + 1)],
                            s.used + {d});
            && Attachable(s, top) && Attach(s, top, d) == s1
            && Owned(s1, o[d := top]) && s1.used <= s1.disk.Keys && Grew(s, o, s1, o[d := top], ino)
            && (forall p :: Ptr(s1, p) != Ptr(s, p) ==> p == top)
  {
    hide Word, SetWord, Grew;
    OneLevel(s, o, Place(ino, Double), d);
  }

  /** All three blocks are new. */
  lemma LeafMappedFreshDouble(s: State, o: map<int, Place>, ino: int, l: int, d: int, e: int, r: int,
                              d': map<int, Block>, n': Inode)
    requires Owned(s, o) && s.used <= s.disk.Keys && InDataArea(r) && r !in s.used
    requires InDataArea(d) && d !in s.used && InDataArea(e) && e !in s.used && d != e && d != r && e != r
    requires ino in s.inodes && InDouble(l) && s.inodes[ino].dindirect == 0
    requires 0 <= Outer(l) < NR_INDIRECT && 0 <= Inner(l) < NR_INDIRECT
    requires d' == s.disk[d := SetWord(ZeroBlock(), Outer(l), e)][e := SetWord(ZeroBlock(), Inner(l), r)]
    requires n' == s.inodes[ino].(dindirect := d, blockCount := s.inodes[ino].blockCount + 3)
    ensures Mapped(s, o, State(d', s.inodes[ino := n'], s.used + {d} + {e} + {r}),
                   o[d := Place(ino, Double)][e := Place(ino, DoubleEntry(Outer(l)))][r := Place(ino, LeafSlot(l))],
                   ino, l, r)
  {
    hide Mapped, Grew, Tight, Word, SetWord, ZeroBlock, Owned;
    DoubleSlot(l);
    var top, mid, place := Place(ino, Double), Place(ino, DoubleEntry(Outer(l))), Place(ino, LeafSlot(l));
    DoubleAttached(s, o, ino, d);
    var s1, o1 := Attach(s, top, d), o[d := top];
    assert Ptr(s, mid) == 0 && Ptr(s, place) == 0;
    assert Ptr(s1, mid) == 0 && Ptr(s1, place) == 0;
    EntryAttached(s1, o1, ino, l, e);
    OneLevel(s1, o1, mid, e);
    var s2, o2 := Attach(s1, mid, e), o1[e := mid];
    GrewTwice(s, o, s1, o1, s2, o2, ino);
    assert Ptr(s2, place) == 0;
    assert Parent(place) == mid && Ptr(s2, mid) == e;
    assert forall p :: Ptr(s2, p) != Ptr(s, p) ==> p == mid || p == top;
    MappedByLeaf(s, o, s2, o2, ino, l, r);
    assert Attach(s2, place, r).disk == d';
    assert Attach(s2, place, r) == State(d', s.inodes[ino := n'], s.used + {d} + {e} + {r});
  }

  // -------------------------------------------------- the data block, last

  /** Both pointer blocks were already there. */
  method AllocateLeaf(fs: FileSystem, ino: int, l: int, dindirect: Block) returns (r: int)
    requires fs.Valid() && ino in fs.inodes && InDouble(l) && Resolve(fs.S(), ino, l) == 0
    requires fs.inodes[ino].dindirect != 0 && fs.inodes[ino].dindirect in fs.disk
    requires dindirect == fs.disk[fs.inodes[ino].dindirect] && Entry(fs.S(), ino, l) != 0
    modifies fs, fs.blockFreemap.v
    ensures fs.Wired()
    ensures r < 0 <==> |old(fs.Used())| >= fs.Capacity()
    ensures r < 0 ==> r == -ENOSPC && fs.S() == old(fs.S()) && fs.owner == old(fs.owner)
    ensures r >= 0 ==> |fs.Used()| == |old(fs.Used())| + 1
    ensures r >= 0 ==> Mapped(old(fs.S()), old(fs.owner), fs.S(), fs.owner, ino, l, r)
  {
    hide Mapped, Owned, Ptr, Resolve, LeafSlot, Word, SetWord, Entry, Outer, Inner, FileSystem.Wired, FileSystem.Used;
    ghost var s0, o0 := fs.S(), fs.owner;
    DoubleSlot(l);
    EntryIsWord(s0, o0, ino, l);
    var e := Word(dindirect, Outer(l));
    var indirect := fs.disk[e];
    r := fs.AllocBlockForInode(ino);
    if r >= 0 {
      fs.disk := fs.disk[e := SetWord(indirect, Inner(l), r)];
      fs.disk := fs.disk[fs.inodes[ino].dindirect := dindirect];
      fs.owner := o0[r := Place(ino, LeafSlot(l))];
      LeafMapped(s0, o0, ino, l, r, fs.disk, fs.inodes[ino]);
      assert fs.S() == State(fs.disk, s0.inodes[ino := fs.inodes[ino]], s0.used + {r});
    }
  }

  /** State after a fresh indirect block was linked into an existing double indirect block. */
  ghost predicate HasFreshEntry(s: State, s': State, ino: int, l: int, e: int, dindirect: Block) {
    && ino in s.inodes && 0 <= Outer(l) < NR_INDIRECT && 0 <= Inner(l) < NR_INDIRECT
    && InDataArea(e) && e !in s.used
    && var d := s.inodes[ino].dindirect;
    && d != 0 && d in s.disk && d in s.used
    && dindirect == SetWord(s.disk[d], Outer(l), e)
    && s' == State(s.disk[e := ZeroBlock()][d := dindirect],
                   s.inodes[ino := s.inodes[ino].(blockCount := s.inodes[ino].blockCount + 1)],
                   s.used + {e})
  }

  /** What running out of space leaves behind here: the link to the freed block. */
  ghost predicate Dangling(s: State, s': State, ino: int, l: int, e: int) {
    && ino in s.inodes && 0 <= Outer(l) < NR_INDIRECT && InDataArea(e) && e !in s.used
    && var d := s.inodes[ino].dindirect;
    && d in s.disk && d in s.used
    && s' == s.(disk := s.disk[d := SetWord(s.disk[d], Outer(l), e)][e := ZeroBlock()])
  }

  method AllocateLeafUnderFreshEntry(fs: FileSystem, ino: int, l: int, dindirect: Block, e: int, ghost s0: State)
    returns (r: int)
    requires fs.Wired() && Owned(s0, fs.owner) && s0.used <= s0.disk.Keys
    requires InDouble(l) && HasFreshEntry(s0, fs.S(), ino, l, e, dindirect) && Entry(s0, ino, l) == 0
    modifies fs, fs.blockFreemap.v
    ensures fs.Wired()
    ensures r < 0 <==> |old(fs.Used())| >= fs.Capacity()
    ensures r < 0 ==> r == -ENOSPC && Dangling(s0, fs.S(), ino, l, e) && fs.owner == old(fs.owner)
    ensures r >= 0 ==> |fs.Used()| == |old(fs.Used())| + 1
    ensures r >= 0 ==> Mapped(s0, old(fs.owner), fs.S(), fs.owner, ino, l, r)
  {
    hide Mapped, Owned, Ptr, Resolve, LeafSlot, Word, SetWord, Entry, Outer, Inner, HasFreshEntry, Dangling, FileSystem.Wired, FileSystem.Used;
    ghost var o0, s1 := fs.owner, fs.S();
    FreshEntryPresent(s0, s1, ino, l, e, dindirect);
    r := fs.AllocBlockForInode(ino);
    if r >= 0 {
      fs.disk := fs.disk[e := SetWord(ZeroBlock(), Inner(l), r)];
      fs.disk := fs.disk[fs.inodes[ino].dindirect := dindirect];
      fs.owner := o0[e := Place(ino, DoubleEntry(Outer(l)))][r := Place(ino, LeafSlot(l))];
      FreshEntryWritten(s0, s1, o0, ino, l, e, r, dindirect, fs.S());
    } else {
      UndoFreshEntry(fs, ino, l, dindirect, e, s0);
    }
  }

  lemma FreshEntryPresent(s: State, s1: State, ino: int, l: int, e: int, dindirect: Block)
    requires HasFreshEntry(s, s1, ino, l, e, dindirect)
    ensures ino in s1.inodes && 0 <= Outer(l) < NR_INDIRECT && 0 <= Inner(l) < NR_INDIRECT
  {
  }

  lemma FreshEntryWritten(s: State, s1: State, o: map<int, Place>, ino: int, l: int, e: int, r: int, dindirect: Block, s2: State)
    requires Owned(s, o) && s.used <= s.disk.Keys && InDouble(l) && HasFreshEntry(s, s1, ino, l, e, dindirect)
    requires Entry(s, ino, l) == 0 && InDataArea(r) && r !in s1.used
    requires s2.disk == s1.disk[e := SetWord(ZeroBlock(), Inner(l), r)][s1.inodes[ino].dindirect := dindirect]
    requires s2.inodes == s1.inodes[ino := s1.inodes[ino].(blockCount := s1.inodes[ino].blockCount + 1)]
    requires s2.used == s1.used + {r}
    ensures Mapped(s, o, s2, o[e := Place(ino, DoubleEntry(Outer(l)))][r := Place(ino, LeafSlot(l))], ino, l, r)
  {
    hide Mapped, Owned, Ptr, Resolve, LeafSlot, Word, SetWord, Entry, Outer, Inner;
    LeafMappedFreshEntry(s, o, ino, l, e, r, s2.disk, s2.inodes[ino]);
    assert s2 == State(s2.disk, s.inodes[ino := s2.inodes[ino]], s.used + {e} + {r});
  }

  /** The fresh indirect block is given back; the link to it stays (lines 245-247). */
  method UndoFreshEntry(fs: FileSystem, ino: int, l: int, ghost dindirect: Block, e: int, ghost s0: State)
    requires fs.Wired() && InDouble(l) && HasFreshEntry(s0, fs.S(), ino, l, e, dindirect)
    modifies fs, fs.blockFreemap.v
    ensures fs.Wired() && Dangling(s0, fs.S(), ino, l, e) && fs.owner == old(fs.owner)
  {
    hide Word, SetWord, Entry, Outer, Inner, FileSystem.Wired, FileSystem.Used;
    fs.FreeBlockFromInode(ino, e);
    assert fs.inodes[ino] == s0.inodes[ino];
    assert fs.inodes == s0.inodes && fs.Used() == s0.used;
  }

  /** State after both pointer blocks were freshly allocated. */
  ghost predicate HasFreshDouble(s: State, s': State, ino: int, l: int, e: int, dindirect: Block) {
    && ino in s.inodes && ino in s'.inodes && 0 <= Outer(l) < NR_INDIRECT && 0 <= Inner(l) < NR_INDIRECT
    && var d := s'.inodes[ino].dindirect;
    && InDataArea(d) && d !in s.used && InDataArea(e) && e !in s.used && d != e
    && s.inodes[ino].dindirect == 0
    && dindirect == SetWord(ZeroBlock(), Outer(l), e)
    && s' == State(s.disk[e := ZeroBlock()][d := dindirect],
                   s.inodes[ino := s.inodes[ino].(dindirect := d, blockCount := s.inodes[ino].blockCount + 2)],
                   s.used + {d} + {e})
  }

  /** The same with the disk writes in the order of the code: the fresh indirect
      block and the double indirect block twice each. */
  lemma FreshDoubleWritten(s: State, s1: State, o: map<int, Place>, ino: int, l: int, e: int, r: int, dindirect: Block, s2: State)
    requires Owned(s, o) && s.used <= s.disk.Keys && InDouble(l) && HasFreshDouble(s, s1, ino, l, e, dindirect)
    requires InDataArea(r) && r !in s1.used
    requires var d := s1.inodes[ino].dindirect;
             && s2.disk == s1.disk[e := SetWord(ZeroBlock(), Inner(l), r)][d := dindirect]
             && s2.inodes == s1.inodes[ino := s1.inodes[ino].(blockCount := s1.inodes[ino].blockCount + 1)]
             && s2.used == s1.used + {r}
    ensures var d := s1.inodes[ino].dindirect;
            Mapped(s, o, s2, o[d := Place(ino, Double)][e := Place(ino, DoubleEntry(Outer(l)))][r := Place(ino, LeafSlot(l))],
                   ino, l, r)
  {
    hide Mapped, Owned, Ptr, Resolve, LeafSlot, Word, SetWord, Entry, Outer, Inner;
    var d := s1.inodes[ino].dindirect;
    LeafMappedFreshDouble(s, o, ino, l, d, e, r, s2.disk, s2.inodes[ino]);
    assert s2 == State(s2.disk, s.inodes[ino := s2.inodes[ino]], s.used + {d} + {e} + {r});
  }

  /** Give both pointer blocks back (lines 248-251). */
  method UndoFreshDouble(fs: FileSystem, ino: int, l: int, ghost dindirect: Block, e: int, ghost s0: State)
    requires fs.Wired() && HasFreshDouble(s0, fs.S(), ino, l, e, dindirect)
    modifies fs, fs.blockFreemap.v
    ensures fs.Wired() && RolledBack(s0, fs.S()) && fs.owner == old(fs.owner)
  {
    hide SetWord, Outer, Inner, FileSystem.Wired, FileSystem.Used;
    fs.FreeBlockFromInode(ino, e);
    fs.FreeBlockFromInode(ino, fs.inodes[ino].dindirect);
    fs.inodes := fs.inodes[ino := fs.inodes[ino].(dindirect := 0)];
    assert fs.inodes[ino] == s0.inodes[ino];
    assert fs.inodes == s0.inodes && fs.Used() == s0.used;
  }

  method AllocateLeafUnderFreshDouble(fs: FileSystem, ino: int, l: int, dindirect: Block, e: int, ghost s0: State)
    returns (r: int)
    requires fs.Wired() && Owned(s0, fs.owner) && s0.used <= s0.disk.Keys
    requires InDouble(l) && HasFreshDouble(s0, fs.S(), ino, l, e, dindirect)
    modifies fs, fs.blockFreemap.v
    ensures fs.Wired()
    ensures r < 0 <==> |old(fs.Used())| >= fs.Capacity()
    ensures r < 0 ==> r == -ENOSPC && RolledBack(s0, fs.S()) && fs.owner == old(fs.owner)
    ensures r >= 0 ==> |fs.Used()| == |old(fs.Used())| + 1
    ensures r >= 0 ==> Mapped(s0, old(fs.owner), fs.S(), fs.owner, ino, l, r)
  {
    hide Mapped, Owned, RolledBack, LeafSlot, SetWord, Outer, Inner, FileSystem.Wired, FileSystem.Used;
    ghost var s1, o0, d := fs.S(), fs.owner, fs.inodes[ino].dindirect;
    r := fs.AllocBlockForInode(ino);
    if r >= 0 {
      fs.disk := fs.disk[e := SetWord(ZeroBlock(), Inner(l), r)];
      fs.disk := fs.disk[fs.inodes[ino].dindirect := dindirect];
      fs.owner := o0[d := Place(ino, Double)][e := Place(ino, DoubleEntry(Outer(l)))][r := Place(ino, LeafSlot(l))];
      FreshDoubleWritten(s0, s1, o0, ino, l, e, r, dindirect, fs.S());
    } else {
      UndoFreshDouble(fs, ino, l, dindirect, e, s0);
    }
  }

  // ------------------------------------------------------- the pointer blocks

  /** The double indirect block is there (lines 205-207, then 213-236). */
  method AllocateUnderDouble(fs: FileSystem, ino: int, l: int) returns (r: int, ghost e: int)
    requires fs.Valid() && ino in fs.inodes && InDouble(l) && Resolve(fs.S(), ino, l) == 0
    requires fs.inodes[ino].dindirect != 0
    modifies fs, fs.blockFreemap.v
    ensures fs.Wired()
    ensures r < 0 <==> |old(fs.Used())| + Need(old(fs.S()), ino, l) > fs.Capacity()
    ensures r < 0 ==> r == -ENOSPC && fs.owner == old(fs.owner)
    ensures r < 0 && Entry(old(fs.S()), ino, l) == 0 && |old(fs.Used())| + 1 == fs.Capacity() ==>
              Dangling(old(fs.S()), fs.S(), ino, l, e)
    ensures r < 0 && !(Entry(old(fs.S()), ino, l) == 0 && |old(fs.Used())| + 1 == fs.Capacity()) ==>
              fs.S() == old(fs.S())
    ensures r >= 0 ==> |fs.Used()| == |old(fs.Used())| + Need(old(fs.S()), ino, l)
    ensures r >= 0 ==> Mapped(old(fs.S()), old(fs.owner), fs.S(), fs.owner, ino, l, r)
  {
    hide Mapped, Owned, Ptr, Resolve, LeafSlot, Word, SetWord, Entry, Outer, Inner, Need, FileSystem.Wired, FileSystem.Used;
    ghost var s0 := fs.S();
    e := 0;
    NeedDouble(s0, ino, l);
    DoubleSlot(l);
    EntryIsWord(s0, fs.owner, ino, l);
    var dindirect := fs.disk[fs.inodes[ino].dindirect];
    if Word(dindirect, Outer(l)) == 0 {
      r := fs.AllocBlockForInode(ino);
      if r >= 0 {
        e := r;
        dindirect := SetWord(dindirect, Outer(l), r);
        fs.disk := fs.disk[r := ZeroBlock()];
        fs.disk := fs.disk[fs.inodes[ino].dindirect := dindirect];
        r := AllocateLeafUnderFreshEntry(fs, ino, l, dindirect, r, s0);
      }
    } else {
      r := AllocateLeaf(fs, ino, l, dindirect);
    }
  }

  /** The double indirect block has to be allocated first (lines 197-204). */
  method AllocateFromNoDouble(fs: FileSystem, ino: int, l: int) returns (r: int)
    requires fs.Valid() && ino in fs.inodes && InDouble(l) && Resolve(fs.S(), ino, l) == 0
    requires fs.inodes[ino].dindirect == 0
    modifies fs, fs.blockFreemap.v
    ensures fs.Wired()
    ensures r < 0 <==> |old(fs.Used())| + Need(old(fs.S()), ino, l) > fs.Capacity()
    ensures r < 0 ==> r == -ENOSPC && RolledBack(old(fs.S()), fs.S()) && fs.owner == old(fs.owner)
    ensures r >= 0 ==> |fs.Used()| == |old(fs.Used())| + Need(old(fs.S()), ino, l)
    ensures r >= 0 ==> Mapped(old(fs.S()), old(fs.owner), fs.S(), fs.owner, ino, l, r)
  {
    hide Mapped, Owned, Ptr, Resolve, LeafSlot, Word, SetWord, Entry, Outer, Inner, Need, FileSystem.Wired, FileSystem.Used;
    ghost var s0 := fs.S();
    NeedDouble(s0, ino, l);
    DoubleSlot(l);
    var dindirect := ZeroBlock();
    r := fs.AllocBlockForInode(ino);
    if r < 0 {
      return;
    }
    fs.inodes := fs.inodes[ino := fs.inodes[ino].(dindirect := r)];
    r := fs.AllocBlockForInode(ino);
    if r >= 0 {
      dindirect := SetWord(dindirect, Outer(l), r);
      fs.disk := fs.disk[r := ZeroBlock()];
      fs.disk := fs.disk[fs.inodes[ino].dindirect := dindirect];
      r := AllocateLeafUnderFreshDouble(fs, ino, l, dindirect, r, s0);
    } else {
      UndoDouble(fs, ino, s0);
    }
  }

  /** Give the double indirect block back (lines 226-229). */
  method UndoDouble(fs: FileSystem, ino: int, ghost s0: State)
    requires fs.Wired() && ino in s0.inodes && ino in fs.inodes && fs.inodes[ino].dindirect != 0
    requires var d := fs.inodes[ino].dindirect;
             && d !in s0.used && s0.inodes[ino].dindirect == 0
             && fs.S() == State(s0.disk,
                                s0.inodes[ino := s0.inodes[ino].(dindirect := d, blockCount := s0.inodes[ino].blockCount + 1)],
                                s0.used + {d})
    modifies fs, fs.blockFreemap.v
    ensures fs.Wired() && RolledBack(s0, fs.S()) && fs.owner == old(fs.owner)
  {
    hide FileSystem.Wired, FileSystem.Used;
    fs.FreeBlockFromInode(ino, fs.inodes[ino].dindirect);
    fs.inodes := fs.inodes[ino := fs.inodes[ino].(dindirect := 0)];
    assert fs.inodes[ino] == s0.inodes[ino];
    assert fs.inodes == s0.inodes && fs.Used() == s0.used;
  }
}
