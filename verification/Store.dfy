/** The block tree of testfs as a value: in-memory inodes, disk contents and the
    set of allocated blocks, with the ownership invariant that ties them
    together (fs/inode.h, fs/read_write.c, fs/super.h). */
module Store {
  import opened Words

  /** Blocks 0..145 hold the super block, the two free maps and the inodes. */
  const DATA_BLOCKS_START: int := 146
  /** Bits in the block free map: BLOCK_SIZE * BLOCK_FREEMAP_SIZE * BITS_PER_WORD */
  const NR_FREEMAP_BITS: int := 1048576
  /** 10 direct blocks, 2048 under the indirect block, 2048 * 2048 under the double one */
  const MAX_FILE_BLOCKS: int := 4196362
  const MAX_FILE_SIZE: int := 34376597504

  const ENOSPC: int := 28
  const EFBIG: int := 27

  datatype RawInode = RawInode(direct: seq<int>, indirect: int, dindirect: int, blockCount: int, size: int)

  type Inode = r: RawInode | |r.direct| == NR_DIRECT
    witness RawInode(seq(NR_DIRECT, _ => 0), 0, 0, 0, 0)

  /** An inode slot as mktestfs and testfs_remove_inode leave it. */
  function EmptyInode(): Inode {
    RawInode([0, 0, 0, 0, 0, 0, 0, 0, 0, 0], 0, 0, 0, 0)
  }

  datatype State = State(disk: map<int, Block>, inodes: map<int, Inode>, used: set<int>)

  /** Where in an inode's tree a block pointer is stored. */
  datatype Slot =
    | Direct(i: int)
    | Indirect
    | IndirectEntry(i: int)
    | Double
    | DoubleEntry(i: int)
    | DoubleLeaf(i: int, j: int)

  datatype Place = Place(ino: int, slot: Slot)

  predicate ValidSlot(slot: Slot) {
    match slot
    case Direct(i) => 0 <= i < NR_DIRECT
    case IndirectEntry(i) => 0 <= i < NR_INDIRECT
    case DoubleEntry(i) => 0 <= i < NR_INDIRECT
    case DoubleLeaf(i, j) => 0 <= i < NR_INDIRECT && 0 <= j < NR_INDIRECT
    case _ => true
  }

  /** Leaf slots name data blocks, the others name blocks of pointers. */
  predicate IsLeaf(slot: Slot) {
    slot.Direct? || slot.IndirectEntry? || slot.DoubleLeaf?
  }

  predicate InDataArea(b: int) {
    DATA_BLOCKS_START <= b < DATA_BLOCKS_START + NR_FREEMAP_BITS
  }

  function Look(disk: map<int, Block>, b: int, i: int): int {
    if b != 0 && b in disk && 0 <= i < NR_INDIRECT then Word(disk[b], i) else 0
  }

  /** The pointer stored at a place, 0 when the place does not exist. */
  function Ptr(s: State, p: Place): int {
    if p.ino !in s.inodes || !ValidSlot(p.slot) then 0 else
    var n := s.inodes[p.ino];
    match p.slot
    case Direct(i) => n.direct[i]
    case Indirect => n.indirect
    case IndirectEntry(i) => Look(s.disk, n.indirect, i)
    case Double => n.dindirect
    case DoubleEntry(i) => Look(s.disk, n.dindirect, i)
    case DoubleLeaf(i, j) => Look(s.disk, Look(s.disk, n.dindirect, i), j)
  }

  ghost function BlocksOf(owner: map<int, Place>, ino: int): set<int> {
    set b | b in owner && owner[b].ino == ino
  }

  /** Every allocated block is named by exactly one place of one inode, and every
      non-zero pointer names an allocated block: no sharing, no leak, no dangling
      pointer. `block_count` is the size of the inode's share. */
  ghost predicate Owned(s: State, owner: map<int, Place>) {
    && owner.Keys == s.used
    && (forall b :: b in owner ==> InDataArea(b) && Ptr(s, owner[b]) == b)
    && (forall p :: Ptr(s, p) != 0 ==> Ptr(s, p) in owner && owner[Ptr(s, p)] == p)
    && (forall ino :: ino in s.inodes ==> s.inodes[ino].blockCount == |BlocksOf(owner, ino)|)
  }

  /** The ownership invariant read without the witness: distinct places hold
      distinct blocks, and the allocated blocks are exactly the reachable ones. */
  lemma OwnedIsExact(s: State, owner: map<int, Place>)
    requires Owned(s, owner)
    ensures forall p, q :: Ptr(s, p) != 0 && Ptr(s, p) == Ptr(s, q) ==> p == q
    ensures forall b :: b in s.used <==> b != 0 && exists p :: Ptr(s, p) == b
  {
    forall b
      ensures b in s.used <==> b != 0 && exists p :: Ptr(s, p) == b
    {
      if b in s.used {
        assert Ptr(s, owner[b]) == b;
      }
    }
  }

  // ---------------------------------------------------------------- addressing

  function LeafSlot(l: int): (slot: Slot)
    requires 0 <= l < MAX_FILE_BLOCKS
    ensures ValidSlot(slot) && IsLeaf(slot)
  {
    if l < NR_DIRECT then Direct(l)
    else if l < NR_DIRECT + NR_INDIRECT then IndirectEntry(l - NR_DIRECT)
    else
      var d := l - NR_DIRECT - NR_INDIRECT;
      DoubleLeaf(d / NR_INDIRECT, d % NR_INDIRECT)
  }

  function SlotIndex(slot: Slot): (l: int)
    requires ValidSlot(slot) && IsLeaf(slot)
    ensures 0 <= l < MAX_FILE_BLOCKS
  {
    match slot
    case Direct(i) => i
    case IndirectEntry(i) => NR_DIRECT + i
    case DoubleLeaf(i, j) => NR_DIRECT + NR_INDIRECT + i * NR_INDIRECT + j
  }

  /** Logical block numbers and leaf slots are in bijection. */
  lemma AddressingIsBijective(l: int, slot: Slot)
    ensures 0 <= l < MAX_FILE_BLOCKS ==> SlotIndex(LeafSlot(l)) == l
    ensures ValidSlot(slot) && IsLeaf(slot) ==> LeafSlot(SlotIndex(slot)) == slot
  {
  }

  function Resolve(s: State, ino: int, l: int): int {
    if 0 <= l < MAX_FILE_BLOCKS then Ptr(s, Place(ino, LeafSlot(l))) else 0
  }

  /** Byte `p` of a file; a hole reads as zero. */
  function FileByte(s: State, ino: int, p: int): byte {
    var b := Resolve(s, ino, p / BLOCK_SIZE);
    if b != 0 && b in s.disk then s.disk[b][p % BLOCK_SIZE] else 0
  }

  /** The contents of logical block `l`. */
  function FileBlock(s: State, ino: int, l: int): Block {
    var b := Resolve(s, ino, l);
    if b != 0 && b in s.disk then s.disk[b] else ZeroBlock()
  }

  // ------------------------------------------------------------ state changes

  predicate AgreeAt(d: map<int, Block>, d': map<int, Block>, b: int) {
    (b in d <==> b in d') && (b in d ==> d[b] == d'[b])
  }

  /** Disk writes outside the pointer blocks change no pointer. */
  lemma PointersFramed(s: State, d': map<int, Block>)
    requires forall p: Place :: !IsLeaf(p.slot) && Ptr(s, p) != 0 ==> AgreeAt(s.disk, d', Ptr(s, p))
    ensures forall p :: Ptr(s.(disk := d'), p) == Ptr(s, p)
  {
    var s' := s.(disk := d');
    forall p
      ensures Ptr(s', p) == Ptr(s, p)
    {
      if p.ino in s.inodes && ValidSlot(p.slot) {
        assert Ptr(s, Place(p.ino, Indirect)) == s.inodes[p.ino].indirect;
        assert Ptr(s, Place(p.ino, Double)) == s.inodes[p.ino].dindirect;
        if p.slot.DoubleLeaf? {
          var e := Place(p.ino, DoubleEntry(p.slot.i));
          assert Ptr(s', e) == Ptr(s, e);
        }
      }
    }
  }

  /** Writing an allocated data block or an unallocated block keeps the tree. */
  lemma DataWriteKeepsOwned(s: State, owner: map<int, Place>, b: int, blk: Block)
    requires Owned(s, owner)
    requires b in owner ==> IsLeaf(owner[b].slot)
    ensures Owned(s.(disk := s.disk[b := blk]), owner)
    ensures forall p :: Ptr(s.(disk := s.disk[b := blk]), p) == Ptr(s, p)
  {
    PointersFramed(s, s.disk[b := blk]);
  }

  predicate HasParent(slot: Slot) {
    slot.IndirectEntry? || slot.DoubleEntry? || slot.DoubleLeaf?
  }

  /** The place of the pointer block that stores the pointer at `p`. */
  function Parent(p: Place): Place
    requires HasParent(p.slot)
  {
    match p.slot
    case IndirectEntry(_) => Place(p.ino, Indirect)
    case DoubleEntry(_) => Place(p.ino, Double)
    case DoubleLeaf(i, _) => Place(p.ino, DoubleEntry(i))
  }

  function WordIndex(slot: Slot): int
    requires HasParent(slot)
  {
    match slot
    case IndirectEntry(i) => i
    case DoubleEntry(i) => i
    case DoubleLeaf(_, j) => j
  }

  lemma PtrThroughParent(s: State, p: Place)
    requires p.ino in s.inodes && ValidSlot(p.slot) && HasParent(p.slot)
    ensures Ptr(s, p) == Look(s.disk, Ptr(s, Parent(p)), WordIndex(p.slot))
    ensures ValidSlot(Parent(p).slot) && !IsLeaf(Parent(p).slot)
    ensures 0 <= WordIndex(p.slot) < NR_INDIRECT
  {
  }

  /** A pointer below a pointer block is stored in four bytes of that block, lowest first:
      entry `i` of the indirect block for logical block 10 + i; for logical block
      2058 + 2048 i + j entry `i` of the double indirect block, and entry `j` of the block it
      names. */
  lemma PointerIsStored(s: State, ino: int, l: int)
    requires ino in s.inodes && NR_DIRECT <= l < MAX_FILE_BLOCKS && Resolve(s, ino, l) > 0
    ensures l < 2058 ==> Stores(s, s.inodes[ino].indirect, l - 10, Resolve(s, ino, l))
    ensures l >= 2058 ==>
              var i, j := (l - 2058) / 2048, (l - 2058) % 2048;
              var e := Look(s.disk, s.inodes[ino].dindirect, i);
              && (e > 0 ==> Stores(s, s.inodes[ino].dindirect, i, e))
              && Stores(s, e, j, Resolve(s, ino, l))
  {
    hide Word;
    if l < 2058 {
      LookIsStored(s, s.inodes[ino].indirect, l - 10);
    } else {
      LookIsStored(s, s.inodes[ino].dindirect, (l - 2058) / 2048);
      LookIsStored(s, Look(s.disk, s.inodes[ino].dindirect, (l - 2058) / 2048), (l - 2058) % 2048);
    }
  }

  /** The four bytes at entry `i` of block `b` stand for `v`. */
  predicate Stores(s: State, b: int, i: int, v: int) {
    0 <= i < NR_INDIRECT && b in s.disk && LittleEndian(s.disk[b][4 * i..4 * i + 4]) == v
  }

  lemma LookIsStored(s: State, b: int, i: int)
    ensures Look(s.disk, b, i) > 0 ==> Stores(s, b, i, Look(s.disk, b, i))
  {
    hide Word;
    if Look(s.disk, b, i) > 0 {
      WordIsLittleEndian(s.disk[b], i);
    }
  }

  /** The place exists, is empty, and the block that stores it is on disk. */
  ghost predicate Attachable(s: State, p: Place) {
    && p.ino in s.inodes && ValidSlot(p.slot) && Ptr(s, p) == 0
    && (HasParent(p.slot) ==> Ptr(s, Parent(p)) != 0 && Ptr(s, Parent(p)) in s.disk)
  }

  function WithPointer(n: Inode, slot: Slot, b: int): Inode
    requires ValidSlot(slot)
  {
    match slot
    case Direct(i) => n.(direct := n.direct[i := b])
    case Indirect => n.(indirect := b)
    case Double => n.(dindirect := b)
    case _ => n
  }

  ghost function AttachDisk(s: State, p: Place, b: int): map<int, Block>
    requires Attachable(s, p) && IsWord(b)
  {
    var d :=
      if HasParent(p.slot) then
        var up := Ptr(s, Parent(p));
        s.disk[up := SetWord(s.disk[up], WordIndex(p.slot), b)]
      else s.disk;
    if IsLeaf(p.slot) then d else d[b := ZeroBlock()]
  }

  /** Store block `b` at the empty place `p`; a new pointer block starts out zeroed. */
  ghost function Attach(s: State, p: Place, b: int): State
    requires Attachable(s, p) && IsWord(b)
  {
    var n := s.inodes[p.ino];
    State(AttachDisk(s, p, b),
          s.inodes[p.ino := WithPointer(n, p.slot, b).(blockCount := n.blockCount + 1)],
          s.used + {b})
  }

  lemma BlocksOfAttach(owner: map<int, Place>, b: int, p: Place, ino: int)
    requires b !in owner
    ensures |BlocksOf(owner[b := p], ino)| == |BlocksOf(owner, ino)| + (if p.ino == ino then 1 else 0)
  {
    if p.ino == ino {
      assert BlocksOf(owner[b := p], ino) == BlocksOf(owner, ino) + {b};
    } else {
      assert BlocksOf(owner[b := p], ino) == BlocksOf(owner, ino);
    }
  }

  /** Attaching a fresh block changes the pointer at that place and no other. */
  lemma {:induction false} AttachPointer(s: State, owner: map<int, Place>, p: Place, b: int, q: Place)
    requires Owned(s, owner) && Attachable(s, p) && InDataArea(b) && b !in s.used
    ensures Ptr(Attach(s, p, b), q) == if q == p then b else Ptr(s, q)
    decreases if q.slot.DoubleLeaf? then 2 else if HasParent(q.slot) then 1 else 0
  {
    var s' := Attach(s, p, b);
    if q.ino in s.inodes && ValidSlot(q.slot) && HasParent(q.slot) {
      var up := Parent(q);
      PtrThroughParent(s, q);
      PtrThroughParent(s', q);
      AttachPointer(s, owner, p, b, up);
      if up == p {
        WordOfZero(WordIndex(q.slot));
      } else {
        AttachWord(s, owner, p, b, q);
      }
    }
  }

  lemma AttachWord(s: State, owner: map<int, Place>, p: Place, b: int, q: Place)
    requires Owned(s, owner) && Attachable(s, p) && InDataArea(b) && b !in s.used
    requires q.ino in s.inodes && ValidSlot(q.slot) && HasParent(q.slot) && Parent(q) != p
    ensures Look(AttachDisk(s, p, b), Ptr(s, Parent(q)), WordIndex(q.slot)) == if q == p then b else Ptr(s, q)
  {
    PtrThroughParent(s, q);
    var c := Ptr(s, Parent(q));
    if c != 0 {
      assert c in owner && owner[c] == Parent(q);
      if HasParent(p.slot) {
        PtrThroughParent(s, p);
        assert owner[Ptr(s, Parent(p))] == Parent(p);
        WordOfSetWord(s.disk[Ptr(s, Parent(p))], WordIndex(p.slot), b);
      }
    }
  }

  lemma AttachKeepsOwned(s: State, owner: map<int, Place>, p: Place, b: int)
    requires Owned(s, owner) && Attachable(s, p) && InDataArea(b) && b !in s.used
    ensures Owned(Attach(s, p, b), owner[b := p])
    ensures Ptr(Attach(s, p, b), p) == b
    ensures forall q :: q != p ==> Ptr(Attach(s, p, b), q) == Ptr(s, q)
  {
    forall q
      ensures Ptr(Attach(s, p, b), q) == if q == p then b else Ptr(s, q)
    {
      AttachPointer(s, owner, p, b, q);
    }
    forall ino | ino in s.inodes
      ensures |BlocksOf(owner[b := p], ino)| == |BlocksOf(owner, ino)| + (if p.ino == ino then 1 else 0)
    {
      BlocksOfAttach(owner, b, p, ino);
    }
  }
}
