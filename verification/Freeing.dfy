/** Bookkeeping for testfs_free_blocks: which blocks of an inode have been freed
    so far, told by how far the loops have come. */
module Freeing {
  import opened Words
  import opened Store
  import opened Growth
  import opened Ranges
  import opened FileWrites

  /** Loop positions: direct slots, indirect entries, outer and inner double
      indirect entries, and whether the two pointer blocks in the inode are gone. */
  datatype Progress = Progress(direct: int, entries: int, indirect: bool, outer: int, inner: int, double: bool)

  predicate Done(p: Progress, slot: Slot) {
    match slot
    case Direct(i) => i < p.direct
    case IndirectEntry(i) => i < p.entries
    case Indirect => p.indirect
    case DoubleLeaf(i, j) => i < p.outer || (i == p.outer && j < p.inner)
    case DoubleEntry(i) => i < p.outer
    case Double => p.double
  }

  /** DIVROUNDUP(i_size, BLOCK_SIZE), kept in an int */
  function BlocksUpTo(size: int): int {
    Int32((size + BLOCK_SIZE - 1) / BLOCK_SIZE)
  }

  /** For sizes whose number of blocks fits an int it is the least number of blocks that hold
      the size. */
  lemma BlocksUpToMeans(size: int)
    requires 0 <= size <= BLOCK_SIZE * INT_MAX
    ensures (BlocksUpTo(size) - 1) * BLOCK_SIZE < size <= BlocksUpTo(size) * BLOCK_SIZE
  {
  }

  /** How many entries of the double indirect block before entry `i` are present. */
  function Rank(s: State, ino: int, i: int): (r: int)
    ensures 0 <= r && (i >= 0 ==> r <= i)
    decreases i
  {
    if i <= 0 then 0 else Rank(s, ino, i - 1) + if Ptr(s, Place(ino, DoubleEntry(i - 1))) != 0 then 1 else 0
  }

  ghost function PresentBefore(s: State, ino: int, i: int): set<int> {
    set x | 0 <= x < i && Ptr(s, Place(ino, DoubleEntry(x))) != 0
  }

  lemma {:induction false} RankCounts(s: State, ino: int, i: nat)
    ensures Rank(s, ino, i) == |PresentBefore(s, ino, i)|
  {
    hide Ptr;
    if i > 0 {
      RankCounts(s, ino, i - 1);
      var present := Ptr(s, Place(ino, DoubleEntry(i - 1))) != 0;
      assert PresentBefore(s, ino, i) == PresentBefore(s, ino, i - 1) + if present then {i - 1} else {};
    }
  }

  lemma {:induction false} RankGrows(s: State, ino: int, i: int, j: int)
    requires i <= j
    ensures Rank(s, ino, i) <= Rank(s, ino, j)
    decreases j
  {
    hide Ptr;
    if 0 < j && i < j {
      RankGrows(s, ino, i, j - 1);
    }
  }

  /** The slots whose block the loops free, told by the state before: below the double
      indirect block the position is counted over the entries that are present. */
  predicate Hit(s: State, ino: int, slot: Slot)
    requires ino in s.inodes
  {
    var e := BlocksUpTo(s.inodes[ino].size);
    match slot
    case Direct(i) => i < e
    case Indirect => true
    case IndirectEntry(i) => NR_DIRECT + i < e
    case Double => NR_DIRECT + NR_INDIRECT < e
    case DoubleEntry(i) => NR_DIRECT + NR_INDIRECT + Rank(s, ino, i) * NR_INDIRECT < e
    case DoubleLeaf(i, j) => NR_DIRECT + NR_INDIRECT + Rank(s, ino, i) * NR_INDIRECT + j < e
  }

  /** The same in terms of the size: blocks that start below it, where a block under the
      double indirect block is taken to start where it would if the entries present were the
      first ones. */
  predicate Below(s: State, ino: int, slot: Slot)
    requires ino in s.inodes
  {
    var size := s.inodes[ino].size;
    match slot
    case Direct(i) => i * BLOCK_SIZE < size
    case Indirect => true
    case IndirectEntry(i) => (10 + i) * BLOCK_SIZE < size
    case Double => 2058 * BLOCK_SIZE < size
    case DoubleEntry(i) => (2058 + Rank(s, ino, i) * 2048) * BLOCK_SIZE < size
    case DoubleLeaf(i, j) => (2058 + Rank(s, ino, i) * 2048 + j) * BLOCK_SIZE < size
  }

  lemma HitIsBelow(s: State, ino: int, slot: Slot)
    requires ino in s.inodes && 0 <= s.inodes[ino].size <= BLOCK_SIZE * INT_MAX
    ensures Hit(s, ino, slot) <==> Below(s, ino, slot)
  {
    hide BlocksUpTo, Rank;
    BlocksUpToMeans(s.inodes[ino].size);
  }

  /** Every mapped slot is hit. */
  ghost predicate Complete(s: State, ino: int)
    requires ino in s.inodes
  {
    forall slot :: Ptr(s, Place(ino, slot)) != 0 ==> Hit(s, ino, slot)
  }

  /** `gone` is exactly the set of this inode's blocks whose slot has been passed and hit. */
  ghost predicate GoneIs(s: State, o: map<int, Place>, ino: int, p: Progress, gone: set<int>)
    requires ino in s.inodes
  {
    forall b :: b in gone <==> b in o && o[b].ino == ino && Done(p, o[b].slot) && Hit(s, ino, o[b].slot)
  }

  /** Freeing one more slot adds its block, which was still there. */
  lemma PassSlot(s: State, o: map<int, Place>, ino: int, p: Progress, p': Progress, slot: Slot, gone: set<int>)
    requires ino in s.inodes && Owned(s, o) && GoneIs(s, o, ino, p, gone) && !Done(p, slot) && Hit(s, ino, slot)
    requires forall x :: ValidSlot(x) ==> (Done(p', x) <==> Done(p, x) || x == slot)
    ensures var b := Ptr(s, Place(ino, slot));
            && GoneIs(s, o, ino, p', gone + if b == 0 then {} else {b})
            && (b != 0 ==> b in s.used && b !in gone && b in BlocksOf(o, ino))
  {
    hide Ptr, Hit;
    ValidOwners(s, o);
  }

  /** Passing slots that are empty or not hit changes nothing. */
  lemma PassOver(s: State, o: map<int, Place>, ino: int, p: Progress, p': Progress, gone: set<int>)
    requires ino in s.inodes && Owned(s, o) && GoneIs(s, o, ino, p, gone)
    requires forall x :: ValidSlot(x) && Done(p, x) ==> Done(p', x)
    requires forall x :: ValidSlot(x) && Done(p', x) && !Done(p, x) ==> Ptr(s, Place(ino, x)) == 0 || !Hit(s, ino, x)
    ensures GoneIs(s, o, ino, p', gone)
  {
    hide Ptr, Hit;
    ValidOwners(s, o);
    forall b
      ensures b in gone <==> b in o && o[b].ino == ino && Done(p', o[b].slot) && Hit(s, ino, o[b].slot)
    {
      if b in o && o[b].ino == ino {
        assert Ptr(s, o[b]) == b && o[b] == Place(ino, o[b].slot);
      }
    }
  }

  lemma ValidOwners(s: State, o: map<int, Place>)
    requires Owned(s, o)
    ensures forall b :: b in o ==> ValidSlot(o[b].slot) && o[b].ino in s.inodes
  {
    forall b | b in o
      ensures ValidSlot(o[b].slot) && o[b].ino in s.inodes
    {
      assert Ptr(s, o[b]) == b;
    }
  }

  /** The file system while blocks of `ino` are being freed: nothing else has changed. */
  ghost predicate Partly(s: State, o: map<int, Place>, s': State, ino: int, gone: set<int>) {
    && ino in s.inodes && gone <= BlocksOf(o, ino)
    && s'.used == s.used - gone
    && s'.disk.Keys == s.disk.Keys
    && (forall b :: b in s.disk && b !in gone ==> s'.disk[b] == s.disk[b])
    && s'.inodes.Keys == s.inodes.Keys
    && (forall k :: k in s.inodes && k != ino ==> s'.inodes[k] == s.inodes[k])
    && s'.inodes[ino].blockCount == s.inodes[ino].blockCount - |gone|
    && s'.inodes[ino].size == s.inodes[ino].size
  }

  /** The inode still has the pointers it started with, apart from freed direct ones. */
  predicate Pointers(n: Inode, n': Inode, freedDirect: int) {
    && n'.indirect == n.indirect && n'.dindirect == n.dindirect
    && (forall i :: 0 <= i < NR_DIRECT ==> n'.direct[i] == if i < freedDirect then 0 else n.direct[i])
  }

  lemma LeavesBelow(s: State, ino: int, slot: Slot)
    requires Bounded(s, ino) && ino in s.inodes && IsLeaf(slot) && Ptr(s, Place(ino, slot)) != 0
    ensures ValidSlot(slot) && SlotIndex(slot) * BLOCK_SIZE < s.inodes[ino].size
  {
    assert ValidSlot(slot);
    AddressingIsBijective(SlotIndex(slot), slot);
    assert Resolve(s, ino, SlotIndex(slot)) == Ptr(s, Place(ino, slot));
  }

  /** If every mapped block of the inode starts below its size and no pointer block is
      empty, everything is hit: counted positions never run ahead of logical ones. */
  lemma BoundedIsComplete(s: State, ino: int)
    requires ino in s.inodes && Tight(s, ino) && Bounded(s, ino) && 0 <= s.inodes[ino].size <= MAX_FILE_SIZE
    ensures Complete(s, ino)
    ensures s.inodes[ino].indirect != 0 ==> BlocksUpTo(s.inodes[ino].size) > NR_DIRECT
  {
    hide Ptr, Rank;
    assert Ptr(s, Place(ino, Indirect)) == s.inodes[ino].indirect by { RootPointers(s, ino); }
    forall slot | Ptr(s, Place(ino, slot)) != 0 ensures Hit(s, ino, slot) {
      var leaf := SomeLeaf(s, ino, slot);
      LeavesBelow(s, ino, leaf);
      SlotIsValid(s, ino, slot);
    }
    if s.inodes[ino].indirect != 0 {
      var leaf := SomeLeaf(s, ino, Indirect);
      LeavesBelow(s, ino, leaf);
    }
  }

  lemma SlotIsValid(s: State, ino: int, slot: Slot)
    requires Ptr(s, Place(ino, slot)) != 0
    ensures ValidSlot(slot)
  {
  }

  /** Below every pointer there is a data block. */
  lemma SomeLeaf(s: State, ino: int, slot: Slot) returns (leaf: Slot)
    requires Tight(s, ino) && Ptr(s, Place(ino, slot)) != 0
    ensures IsLeaf(leaf) && Ptr(s, Place(ino, leaf)) != 0 && (IsLeaf(slot) ==> leaf == slot)
    ensures slot.Indirect? ==> leaf.IndirectEntry?
    ensures slot.Double? ==> leaf.DoubleLeaf?
    ensures slot.DoubleEntry? ==> leaf.DoubleLeaf? && leaf.i == slot.i
  {
    hide Ptr;
    match slot {
      case Indirect =>
        var i :| Ptr(s, Place(ino, IndirectEntry(i))) != 0;
        leaf := IndirectEntry(i);
      case Double =>
        var i :| Ptr(s, Place(ino, DoubleEntry(i))) != 0;
        var j :| Ptr(s, Place(ino, DoubleLeaf(i, j))) != 0;
        leaf := DoubleLeaf(i, j);
      case DoubleEntry(i) =>
        var j :| Ptr(s, Place(ino, DoubleLeaf(i, j))) != 0;
        leaf := DoubleLeaf(i, j);
      case _ =>
        leaf := slot;
    }
  }

  // ------------------------------------------------------------ at the end

  lemma EmptyInodeHasNoPointers(s: State, p: Place)
    requires p.ino in s.inodes ==> s.inodes[p.ino] == EmptyInode()
    ensures Ptr(s, p) == 0
  {
  }

  lemma SharesAreDisjoint(o: map<int, Place>, ino: int, k: int)
    requires k != ino
    ensures BlocksOf(o - BlocksOf(o, ino), k) == BlocksOf(o, k)
    ensures BlocksOf(o - BlocksOf(o, ino), ino) == {}
  {
  }

  /** All blocks of `ino` are gone and its inode is blank: the rest of the system is intact. */
  ghost predicate FreedAll(s: State, o: map<int, Place>, s': State, ino: int) {
    && ino in s.inodes
    && s'.used == s.used - BlocksOf(o, ino)
    && s'.disk.Keys == s.disk.Keys
    && (forall b :: b in s.disk && b !in BlocksOf(o, ino) ==> s'.disk[b] == s.disk[b])
    && s'.inodes == s.inodes[ino := EmptyInode()]
  }

  lemma FreedPointers(s: State, o: map<int, Place>, s': State, ino: int, p: Place)
    requires Owned(s, o) && FreedAll(s, o, s', ino)
    ensures Ptr(s', p) == if p.ino == ino then 0 else Ptr(s, p)
    decreases if p.slot.DoubleLeaf? then 2 else if HasParent(p.slot) then 1 else 0
  {
    hide Word;
    if p.ino == ino {
      EmptyInodeHasNoPointers(s', p);
    } else if p.ino in s.inodes && ValidSlot(p.slot) && HasParent(p.slot) {
      PtrThroughParent(s, p);
      PtrThroughParent(s', p);
      var up := Parent(p);
      FreedPointers(s, o, s', ino, up);
      assert Ptr(s, up) != 0 ==> o[Ptr(s, up)] == up;
    }
  }

  /** Freeing gives back exactly the inode's blocks; ownership of the others, and
      every other file, is unchanged. */
  lemma FreedAllIsExact(s: State, o: map<int, Place>, s': State, ino: int)
    requires Owned(s, o) && FreedAll(s, o, s', ino)
    ensures Owned(s', o - BlocksOf(o, ino))
    ensures forall k, l :: Resolve(s', k, l) == if k == ino then 0 else Resolve(s, k, l)
    ensures forall k, p :: FileByte(s', k, p) == if k == ino then 0 else FileByte(s, k, p)
  {
    forall p
      ensures Ptr(s', p) == if p.ino == ino then 0 else Ptr(s, p)
    {
      FreedPointers(s, o, s', ino, p);
    }
    hide Ptr;
    forall k | k in s.inodes
      ensures s'.inodes[k].blockCount == |BlocksOf(o - BlocksOf(o, ino), k)|
    {
      if k != ino {
        SharesAreDisjoint(o, ino, k);
      } else {
        SharesAreDisjoint(o, ino, ino + 1);
      }
    }
    forall k, p
      ensures FileByte(s', k, p) == if k == ino then 0 else FileByte(s, k, p)
    {
      var m := p / BLOCK_SIZE;
      if k != ino && 0 <= m < MAX_FILE_BLOCKS && Resolve(s, k, m) != 0 {
        var q := Place(k, LeafSlot(m));
        assert o[Ptr(s, q)] == q;
      }
    }
  }

  /** Freeing keeps the shape of every inode. */
  lemma FreedAllKeepsShape(s: State, o: map<int, Place>, s': State, ino: int)
    requires Owned(s, o) && FreedAll(s, o, s', ino)
    ensures TightAll(s) ==> TightAll(s')
    ensures WellFormed(s) ==> WellFormed(s')
  {
    hide Owned;
    forall p ensures Ptr(s', p) == if p.ino == ino then 0 else Ptr(s, p) {
      FreedPointers(s, o, s', ino, p);
    }
    hide Ptr;
    if TightAll(s) {
      forall k | k in s'.inodes ensures Tight(s', k) {
        assert k != ino ==> Tight(s, k);
      }
    }
    if WellFormed(s) {
      forall k ensures Bounded(s', k) {
        assert Bounded(s, k);
        forall l | Resolve(s', k, l) != 0 ensures k in s'.inodes && l * BLOCK_SIZE < s'.inodes[k].size {
          assert Resolve(s', k, l) == Resolve(s, k, l);
        }
      }
    }
  }
}
