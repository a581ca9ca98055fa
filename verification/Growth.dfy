/** How the block tree changes when a logical block is mapped or a mapping is
    rolled back, as relations between states. */
module Growth {
  import opened Words
  import opened Store

  /** New blocks that mapping `l` takes: the data block and the missing pointer blocks above it. */
  function Need(s: State, ino: int, l: int): (k: int)
    requires ino in s.inodes && 0 <= l < MAX_FILE_BLOCKS
    ensures 0 <= k <= 3
  {
    if Resolve(s, ino, l) != 0 then 0
    else match LeafSlot(l)
      case Direct(_) => 1
      case IndirectEntry(_) => if s.inodes[ino].indirect == 0 then 2 else 1
      case DoubleLeaf(i, _) =>
        if s.inodes[ino].dindirect == 0 then 3
        else if Ptr(s, Place(ino, DoubleEntry(i))) == 0 then 2
        else 1
  }

  /** Everything a client can see is as before; only blocks that are free may have been zeroed. */
  ghost predicate RolledBack(s: State, s': State) {
    && s'.used == s.used && s'.inodes == s.inodes && s.disk.Keys <= s'.disk.Keys
    && (forall b :: b in s.used ==> AgreeAt(s.disk, s'.disk, b))
  }

  lemma RollbackKeepsFiles(s: State, s': State, owner: map<int, Place>)
    requires Owned(s, owner) && RolledBack(s, s')
    ensures Owned(s', owner)
    ensures forall p :: Ptr(s', p) == Ptr(s, p)
    ensures forall ino, p :: FileByte(s', ino, p) == FileByte(s, ino, p)
  {
    PointersFramed(s, s'.disk);
    assert s' == s.(disk := s'.disk);
    forall ino, p
      ensures FileByte(s', ino, p) == FileByte(s, ino, p)
    {
      assert Resolve(s', ino, p / BLOCK_SIZE) == Resolve(s, ino, p / BLOCK_SIZE);
    }
  }

  /** Pointer blocks are never empty: each one has an entry, down to a data block. */
  ghost predicate Tight(s: State, ino: int) {
    && (Ptr(s, Place(ino, Indirect)) != 0 ==> exists i :: Ptr(s, Place(ino, IndirectEntry(i))) != 0)
    && (Ptr(s, Place(ino, Double)) != 0 ==> exists i :: Ptr(s, Place(ino, DoubleEntry(i))) != 0)
    && (forall i :: Ptr(s, Place(ino, DoubleEntry(i))) != 0 ==>
          exists j :: Ptr(s, Place(ino, DoubleLeaf(i, j))) != 0)
  }

  /** Blocks were added to inode `ino`: what was mapped stays mapped, and the
      contents of every data block stay as they were. */
  ghost predicate Grew(s: State, owner: map<int, Place>, s': State, owner': map<int, Place>, ino: int) {
    && Owned(s', owner') && owner.Keys <= owner'.Keys
    && (forall b :: b in owner ==> owner'[b] == owner[b])
    && (forall p :: Ptr(s, p) != 0 ==> Ptr(s', p) == Ptr(s, p))
    && (forall b :: b in owner && IsLeaf(owner[b].slot) ==> AgreeAt(s.disk, s'.disk, b))
    && ino in s.inodes && s'.inodes.Keys == s.inodes.Keys
    && (forall k :: k in s.inodes && k != ino ==> s'.inodes[k] == s.inodes[k])
    && s'.inodes[ino].size == s.inodes[ino].size
  }

  /** Logical block `l` of `ino` is now the new block `r`; no other logical block
      of any inode resolves differently, and no data block changed. */
  ghost predicate Mapped(s: State, owner: map<int, Place>, s': State, owner': map<int, Place>, ino: int, l: int, r: int) {
    && 0 <= l < MAX_FILE_BLOCKS
    && Grew(s, owner, s', owner', ino)
    && r !in s.used && r in owner' && owner'[r] == Place(ino, LeafSlot(l))
    && (forall p :: p != Place(ino, LeafSlot(l)) && !OnPath(p, ino, LeafSlot(l)) ==> Ptr(s', p) == Ptr(s, p))
    && s'.used <= s'.disk.Keys + {r}
    && (forall k :: k in s.inodes && Tight(s, k) ==> Tight(s', k))
  }

  lemma AttachGrows(s: State, owner: map<int, Place>, p: Place, b: int)
    requires Owned(s, owner) && Attachable(s, p) && InDataArea(b) && b !in s.used
    ensures Grew(s, owner, Attach(s, p, b), owner[b := p], p.ino)
    ensures Ptr(Attach(s, p, b), p) == b
    ensures forall q :: q != p ==> Ptr(Attach(s, p, b), q) == Ptr(s, q)
    ensures s.disk.Keys <= Attach(s, p, b).disk.Keys
    ensures !IsLeaf(p.slot) ==> b in Attach(s, p, b).disk
  {
    hide Word;
    hide SetWord;
    AttachKeepsOwned(s, owner, p, b);
    if HasParent(p.slot) {
      PtrThroughParent(s, p);
      assert owner[Ptr(s, Parent(p))] == Parent(p);
    }
  }

  lemma GrewTwice(s: State, o: map<int, Place>, s1: State, o1: map<int, Place>, s2: State, o2: map<int, Place>, ino: int)
    requires Grew(s, o, s1, o1, ino) && Grew(s1, o1, s2, o2, ino)
    ensures Grew(s, o, s2, o2, ino)
  {
    hide Word;
    hide Ptr;
  }

  /** New pointers appear only on the path from the inode to one data block. */
  lemma TightKept(s: State, s': State, ino: int, leaf: Slot, k: int)
    requires Tight(s, k)
    requires IsLeaf(leaf) && Ptr(s', Place(ino, leaf)) != 0
    requires forall p :: Ptr(s, p) != 0 ==> Ptr(s', p) == Ptr(s, p)
    requires forall p :: Ptr(s', p) != Ptr(s, p) ==> p == Place(ino, leaf) || OnPath(p, ino, leaf)
    requires leaf.DoubleLeaf? ==> Ptr(s', Place(ino, DoubleEntry(leaf.i))) != 0
    ensures Tight(s', k)
  {
    hide Ptr;
    if Ptr(s', Place(k, Indirect)) != 0 && Ptr(s, Place(k, Indirect)) != 0 {
      var i :| Ptr(s, Place(k, IndirectEntry(i))) != 0;
      assert Ptr(s', Place(k, IndirectEntry(i))) != 0;
    }
    if Ptr(s', Place(k, Double)) != 0 && Ptr(s, Place(k, Double)) != 0 {
      var i :| Ptr(s, Place(k, DoubleEntry(i))) != 0;
      assert Ptr(s', Place(k, DoubleEntry(i))) != 0;
    }
    forall i | Ptr(s', Place(k, DoubleEntry(i))) != 0
      ensures exists j :: Ptr(s', Place(k, DoubleLeaf(i, j))) != 0
    {
      if Ptr(s, Place(k, DoubleEntry(i))) != 0 {
        var j :| Ptr(s, Place(k, DoubleLeaf(i, j))) != 0;
        assert Ptr(s', Place(k, DoubleLeaf(i, j))) != 0;
      }
    }
  }

  ghost predicate OnPath(p: Place, ino: int, leaf: Slot) {
    p.ino == ino &&
    match leaf
    case IndirectEntry(_) => p.slot == Indirect
    case DoubleLeaf(i, _) => p.slot == Double || p.slot == DoubleEntry(i)
    case _ => false
  }

  /** The three ways a logical block gets mapped, from the lowest missing block up. */
  lemma MappedByLeaf(s: State, owner: map<int, Place>, s1: State, o1: map<int, Place>, ino: int, l: int, r: int)
    requires Owned(s, owner) && 0 <= l < MAX_FILE_BLOCKS
    requires (s1 == s && o1 == owner) || Grew(s, owner, s1, o1, ino)
    requires Owned(s1, o1) && s1.used <= s1.disk.Keys && s.used <= s1.used
    requires forall p :: Ptr(s1, p) != Ptr(s, p) ==> OnPath(p, ino, LeafSlot(l))
    requires Attachable(s1, Place(ino, LeafSlot(l))) && InDataArea(r) && r !in s1.used
    ensures var p := Place(ino, LeafSlot(l));
            Mapped(s, owner, Attach(s1, p, r), o1[r := p], ino, l, r)
  {
    hide Word;
    hide SetWord;
    var p := Place(ino, LeafSlot(l));
    var s2 := Attach(s1, p, r);
    AttachGrows(s1, o1, p, r);
    if s1 != s || o1 != owner {
      GrewTwice(s, owner, s1, o1, s2, o1[r := p], ino);
    }
    forall k | k in s.inodes && Tight(s, k)
      ensures Tight(s2, k)
    {
      hide Ptr;
      TightKept(s, s2, ino, LeafSlot(l), k);
    }
  }
}
