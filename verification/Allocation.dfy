/** testfs_allocate_block (fs/read_write.c), with the block limit checked before
    the lookup as in the top-level read_write.c. */
module Allocation {
  import opened Words
  import opened Store
  import opened Growth
  import opened BlockLayer

  /** Out of space after a fresh indirect block was linked under an existing double
      indirect block: the block is freed but the link to it stays on disk. */
  predicate Dangles(s: State, ino: int, l: int, free: int)
    requires ino in s.inodes && 0 <= l < MAX_FILE_BLOCKS
  {
    LeafSlot(l).DoubleLeaf? && s.inodes[ino].dindirect != 0 && Need(s, ino, l) == 2 && free == 1
  }

  /** A path of new blocks from the inode down to a data block, as seen on disk. */
  lemma OneLevel(s: State, owner: map<int, Place>, top: Place, b: int)
    requires Owned(s, owner) && s.used <= s.disk.Keys
    requires Attachable(s, top) && !IsLeaf(top.slot) && InDataArea(b) && b !in s.used
    ensures var s1 := Attach(s, top, b);
            && Owned(s1, owner[b := top]) && s1.used <= s1.disk.Keys
            && Grew(s, owner, s1, owner[b := top], top.ino)
            && Ptr(s1, top) == b
            && (forall p :: Ptr(s1, p) != Ptr(s, p) ==> p == top)
  {
    hide Word;
    hide SetWord;
    AttachGrows(s, owner, top, b);
  }

  lemma DirectMapped(s: State, o: map<int, Place>, ino: int, l: int, r: int, n': Inode)
    requires Owned(s, o) && s.used <= s.disk.Keys && InDataArea(r) && r !in s.used
    requires ino in s.inodes && 0 <= l < NR_DIRECT && Resolve(s, ino, l) == 0
    requires n' == s.inodes[ino].(direct := s.inodes[ino].direct[l := r], blockCount := s.inodes[ino].blockCount + 1)
    ensures Mapped(s, o, State(s.disk, s.inodes[ino := n'], s.used + {r}), o[r := Place(ino, Direct(l))], ino, l, r)
  {
    hide Mapped;
    var place := Place(ino, Direct(l));
    MappedByLeaf(s, o, s, o, ino, l, r);
    assert Attach(s, place, r) == State(s.disk, s.inodes[ino := n'], s.used + {r});
  }

  method AllocateDirect(fs: FileSystem, ino: int, l: int) returns (r: int)
    requires fs.Valid() && ino in fs.inodes && 0 <= l < NR_DIRECT && Resolve(fs.S(), ino, l) == 0
    modifies fs, fs.blockFreemap.v
    ensures fs.Wired()
    ensures r < 0 <==> |old(fs.Used())| + 1 > fs.Capacity()
    ensures r < 0 ==> r == -ENOSPC && fs.S() == old(fs.S()) && fs.owner == old(fs.owner)
    ensures r >= 0 ==> |fs.Used()| == |old(fs.Used())| + 1
    ensures r >= 0 ==> Mapped(old(fs.S()), old(fs.owner), fs.S(), fs.owner, ino, l, r)
  {
    hide Mapped, Owned, Ptr, Resolve, FileSystem.Wired, FileSystem.Used;
    ghost var s0 := fs.S();
    r := fs.AllocBlockForInode(ino);
    if r >= 0 {
      fs.inodes := fs.inodes[ino := fs.inodes[ino].(direct := fs.inodes[ino].direct[l := r])];
      fs.owner := fs.owner[r := Place(ino, Direct(l))];
      DirectMapped(s0, old(fs.owner), ino, l, r, fs.inodes[ino]);
      assert fs.S() == State(s0.disk, s0.inodes[ino := fs.inodes[ino]], s0.used + {r});
    }
  }

  // ------------------------------------------------------- one pointer block

  lemma IndirectMapped(s: State, o: map<int, Place>, ino: int, l: int, r: int, d': map<int, Block>, n': Inode)
    requires Owned(s, o) && s.used <= s.disk.Keys && InDataArea(r) && r !in s.used
    requires ino in s.inodes && NR_DIRECT <= l < NR_DIRECT + NR_INDIRECT && Resolve(s, ino, l) == 0
    requires s.inodes[ino].indirect != 0 && s.inodes[ino].indirect in s.disk
    requires d' == s.disk[s.inodes[ino].indirect := SetWord(s.disk[s.inodes[ino].indirect], l - NR_DIRECT, r)]
    requires n' == s.inodes[ino].(blockCount := s.inodes[ino].blockCount + 1)
    ensures Mapped(s, o, State(d', s.inodes[ino := n'], s.used + {r}), o[r := Place(ino, LeafSlot(l))], ino, l, r)
  {
    hide Mapped, Word, SetWord;
    var place := Place(ino, LeafSlot(l));
    MappedByLeaf(s, o, s, o, ino, l, r);
    assert Attach(s, place, r) == State(d', s.inodes[ino := n'], s.used + {r});
  }

  lemma IndirectMappedFresh(s: State, o: map<int, Place>, ino: int, l: int, b: int, r: int, d': map<int, Block>, n': Inode)
    requires Owned(s, o) && s.used <= s.disk.Keys && InDataArea(r) && r !in s.used
    requires InDataArea(b) && b !in s.used && b != r
    requires ino in s.inodes && NR_DIRECT <= l < NR_DIRECT + NR_INDIRECT && s.inodes[ino].indirect == 0
    requires d' == s.disk[b := SetWord(ZeroBlock(), l - NR_DIRECT, r)]
    requires n' == s.inodes[ino].(indirect := b, blockCount := s.inodes[ino].blockCount + 2)
    ensures Mapped(s, o, State(d', s.inodes[ino := n'], s.used + {b} + {r}),
                   o[b := Place(ino, Indirect)][r := Place(ino, LeafSlot(l))], ino, l, r)
  {
    hide Mapped, Grew, Word, SetWord, Tight;
    var top, place := Place(ino, Indirect), Place(ino, LeafSlot(l));
    OneLevel(s, o, top, b);
    var s1 := Attach(s, top, b);
    assert Ptr(s, place) == 0 && place != top;
    assert Ptr(s1, place) == 0;
    assert Parent(place) == top && Ptr(s1, Parent(place)) == b;
    MappedByLeaf(s, o, s1, o[b := top], ino, l, r);
    assert Attach(s1, place, r).disk == d';
    assert Attach(s1, place, r) == State(d', s.inodes[ino := n'], s.used + {b} + {r});
  }

  lemma NeedIndirect(s: State, ino: int, l: int)
    requires ino in s.inodes && NR_DIRECT <= l < NR_DIRECT + NR_INDIRECT && Resolve(s, ino, l) == 0
    ensures Need(s, ino, l) == if s.inodes[ino].indirect == 0 then 2 else 1
  {
  }

  /** State after the indirect block was found (`!added`) or freshly allocated. */
  ghost predicate HasIndirect(s: State, s': State, ino: int, added: bool, indirect: Block) {
    && ino in s.inodes && ino in s'.inodes && s'.disk == s.disk
    && (!added ==> s' == s && s.inodes[ino].indirect != 0 && s.inodes[ino].indirect in s.disk
                   && s.disk[s.inodes[ino].indirect] == indirect)
    && (added ==>
          var b := s'.inodes[ino].indirect;
          && s.inodes[ino].indirect == 0 && InDataArea(b) && b !in s.used && s'.used == s.used + {b}
          && s'.inodes == s.inodes[ino := s.inodes[ino].(indirect := b, blockCount := s.inodes[ino].blockCount + 1)]
          && indirect == ZeroBlock())
  }

  method AllocateUnderIndirect(fs: FileSystem, ino: int, l: int, buffer: Block, indirectAllocated: bool, ghost s0: State)
    returns (r: int)
    requires fs.Wired() && Owned(s0, fs.owner) && s0.used <= s0.disk.Keys
    requires NR_DIRECT <= l < NR_DIRECT + NR_INDIRECT && Resolve(s0, ino, l) == 0
    requires HasIndirect(s0, fs.S(), ino, indirectAllocated, buffer)
    modifies fs, fs.blockFreemap.v
    ensures fs.Wired()
    ensures r < 0 <==> |old(fs.Used())| >= fs.Capacity()
    ensures r < 0 ==> r == -ENOSPC && RolledBack(s0, fs.S()) && fs.owner == old(fs.owner)
    ensures r >= 0 ==> |fs.Used()| == |old(fs.Used())| + 1
    ensures r >= 0 ==> Mapped(s0, old(fs.owner), fs.S(), fs.owner, ino, l, r)
    ensures r >= 0 ==> ino in fs.inodes && Stores(fs.S(), fs.inodes[ino].indirect, l - NR_DIRECT, r)
  {
    hide Mapped, Owned, Ptr, Resolve, LeafSlot, Word, SetWord, HasIndirect, RolledBack, FileSystem.Wired, FileSystem.Used;
    ghost var o0, s1 := fs.owner, fs.S();
    IndirectPresent(s0, s1, ino, indirectAllocated, buffer);
    r := fs.AllocBlockForInode(ino);
    if r >= 0 {
      ghost var b := fs.inodes[ino].indirect;
      var indirect := SetWord(buffer, l - NR_DIRECT, r);
      SetWordBytes(buffer, l - NR_DIRECT, r);
      fs.disk := fs.disk[fs.inodes[ino].indirect := indirect];
      fs.owner := (if indirectAllocated then o0[b := Place(ino, Indirect)] else o0)[r := Place(ino, LeafSlot(l))];
      IndirectWritten(s0, s1, o0, ino, l, r, buffer, indirectAllocated, fs.S());
    } else if indirectAllocated {
      UndoIndirect(fs, ino, buffer, s0);
    }
  }

  lemma IndirectPresent(s: State, s1: State, ino: int, added: bool, buffer: Block)
    requires HasIndirect(s, s1, ino, added, buffer)
    ensures ino in s1.inodes && (!added ==> RolledBack(s, s1))
  {
  }

  /** The data block is linked into the indirect block. */
  lemma IndirectWritten(s: State, s1: State, o: map<int, Place>, ino: int, l: int, r: int, buffer: Block, added: bool, s2: State)
    requires Owned(s, o) && s.used <= s.disk.Keys && HasIndirect(s, s1, ino, added, buffer)
    requires NR_DIRECT <= l < NR_DIRECT + NR_INDIRECT && Resolve(s, ino, l) == 0 && InDataArea(r) && r !in s1.used
    requires s2.disk == s1.disk[s1.inodes[ino].indirect := SetWord(buffer, l - NR_DIRECT, r)]
    requires s2.inodes == s1.inodes[ino := s1.inodes[ino].(blockCount := s1.inodes[ino].blockCount + 1)]
    requires s2.used == s1.used + {r}
    ensures var o1 := if added then o[s1.inodes[ino].indirect := Place(ino, Indirect)] else o;
            Mapped(s, o, s2, o1[r := Place(ino, LeafSlot(l))], ino, l, r)
  {
    hide Mapped, Owned, Ptr, Resolve, LeafSlot, Word, SetWord;
    if added {
      var b := s1.inodes[ino].indirect;
      IndirectMappedFresh(s, o, ino, l, b, r, s2.disk, s2.inodes[ino]);
      assert s2 == State(s2.disk, s.inodes[ino := s2.inodes[ino]], s.used + {b} + {r});
    } else {
      IndirectMapped(s, o, ino, l, r, s2.disk, s2.inodes[ino]);
      assert s2 == State(s2.disk, s.inodes[ino := s2.inodes[ino]], s.used + {r});
    }
  }

  /** The indirect block that was just allocated is given back (lines 279-284). */
  method UndoIndirect(fs: FileSystem, ino: int, ghost buffer: Block, ghost s0: State)
    requires fs.Wired() && HasIndirect(s0, fs.S(), ino, true, buffer)
    modifies fs, fs.blockFreemap.v
    ensures fs.Wired() && RolledBack(s0, fs.S()) && fs.owner == old(fs.owner)
  {
    hide FileSystem.Wired, FileSystem.Used;
    fs.FreeBlockFromInode(ino, fs.inodes[ino].indirect);
    fs.inodes := fs.inodes[ino := fs.inodes[ino].(indirect := 0)];
    assert fs.inodes[ino] == s0.inodes[ino];
    assert fs.inodes == s0.inodes && fs.Used() == s0.used;
  }

  method AllocateIndirect(fs: FileSystem, ino: int, l: int) returns (r: int)
    requires fs.Valid() && ino in fs.inodes && NR_DIRECT <= l < NR_DIRECT + NR_INDIRECT && Resolve(fs.S(), ino, l) == 0
    modifies fs, fs.blockFreemap.v
    ensures fs.Wired()
    ensures r < 0 <==> |old(fs.Used())| + Need(old(fs.S()), ino, l) > fs.Capacity()
    ensures r < 0 ==> r == -ENOSPC && RolledBack(old(fs.S()), fs.S()) && fs.owner == old(fs.owner)
    ensures r >= 0 ==> |fs.Used()| == |old(fs.Used())| + Need(old(fs.S()), ino, l)
    ensures r >= 0 ==> Mapped(old(fs.S()), old(fs.owner), fs.S(), fs.owner, ino, l, r)
    ensures r >= 0 ==> ino in fs.inodes && Stores(fs.S(), fs.inodes[ino].indirect, l - NR_DIRECT, r)
  {
    hide Mapped, Owned, Ptr, Resolve, Need, LeafSlot, Word, SetWord, FileSystem.Wired, FileSystem.Used;
    ghost var s0 := fs.S();
    PointersAreBlocks(s0, fs.owner, ino);
    NeedIndirect(s0, ino, l);
    if fs.inodes[ino].indirect == 0 {
      r := fs.AllocBlockForInode(ino);
      if r < 0 {
        return;
      }
      fs.inodes := fs.inodes[ino := fs.inodes[ino].(indirect := r)];
      r := AllocateUnderIndirect(fs, ino, l, ZeroBlock(), true, s0);
    } else {
      r := AllocateUnderIndirect(fs, ino, l, fs.disk[fs.inodes[ino].indirect], false, s0);
    }
  }
}
