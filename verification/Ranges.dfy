/** What it takes to map a run of logical blocks, told from the state before. */
module Ranges {
  import opened Words
  import opened Store
  import opened Growth

  const FIRST_DOUBLE: int := 2058

  /** The place lies on the way to one of the logical blocks [lo, hi) of `ino`. */
  predicate OnRange(p: Place, ino: int, lo: int, hi: int) {
    p.ino == ino &&
    match p.slot
    case Direct(i) => lo <= i < hi
    case Indirect => lo < hi && lo < FIRST_DOUBLE && NR_DIRECT < hi
    case IndirectEntry(i) => lo <= NR_DIRECT + i < hi
    case Double => lo < hi && FIRST_DOUBLE < hi
    case DoubleEntry(i) =>
      lo < hi && lo < FIRST_DOUBLE + (i + 1) * NR_INDIRECT && FIRST_DOUBLE + i * NR_INDIRECT < hi
    case DoubleLeaf(i, j) => lo <= FIRST_DOUBLE + i * NR_INDIRECT + j < hi
  }

  /** Blocks [lo, hi) of `ino` are mapped, and nothing else was added or changed. */
  ghost predicate Filled(s: State, s': State, ino: int, lo: int, hi: int) {
    && (forall l :: lo <= l < hi ==> Resolve(s', ino, l) != 0)
    && (forall p :: Ptr(s, p) != 0 ==> Ptr(s', p) == Ptr(s, p))
    && (forall p :: Ptr(s', p) != 0 ==> Ptr(s, p) != 0 || OnRange(p, ino, lo, hi))
  }

  /** New blocks that mapping `m` takes once [lo, m) is mapped. */
  function NeedAfter(s: State, ino: int, lo: int, m: int): (k: int)
    requires ino in s.inodes && 0 <= lo <= m < MAX_FILE_BLOCKS
    ensures 0 <= k <= 3
  {
    if Resolve(s, ino, m) != 0 then 0
    else match LeafSlot(m)
      case Direct(_) => 1
      case IndirectEntry(i) => if s.inodes[ino].indirect == 0 && (lo == m || i == 0) then 2 else 1
      case DoubleLeaf(i, j) =>
        if s.inodes[ino].dindirect == 0 && (lo == m || m == FIRST_DOUBLE) then 3
        else if Ptr(s, Place(ino, DoubleEntry(i))) == 0 && (lo == m || j == 0) then 2
        else 1
  }

  /** New blocks that mapping all of [lo, hi) takes. */
  function NeedRange(s: State, ino: int, lo: int, hi: int): (k: int)
    requires ino in s.inodes && 0 <= lo && hi <= MAX_FILE_BLOCKS
    ensures 0 <= k && (lo <= hi ==> k <= 3 * (hi - lo))
    decreases hi - lo
  {
    if hi <= lo then 0 else NeedRange(s, ino, lo, hi - 1) + NeedAfter(s, ino, lo, hi - 1)
  }

  lemma FilledNothing(s: State, ino: int, lo: int)
    ensures Filled(s, s, ino, lo, lo)
  {
  }

  /** Mapping the next block extends the run. */
  lemma FilledMore(s: State, s1: State, s2: State, ino: int, lo: int, m: int, hi: int)
    requires Filled(s, s1, ino, lo, m) && Filled(s1, s2, ino, m, hi) && lo <= m <= hi
    ensures Filled(s, s2, ino, lo, hi)
  {
    hide Ptr, Resolve;
    forall l | lo <= l < hi ensures Resolve(s2, ino, l) != 0 {
      if l < m {
        StaysMapped(s1, s2, ino, l);
      }
    }
  }

  lemma StaysMapped(s: State, s': State, ino: int, l: int)
    requires Resolve(s, ino, l) != 0 && forall p :: Ptr(s, p) != 0 ==> Ptr(s', p) == Ptr(s, p)
    ensures Resolve(s', ino, l) != 0
  {
    hide Ptr;
  }

  lemma PathIsRange(p: Place, ino: int, l: int)
    requires 0 <= l < MAX_FILE_BLOCKS && (p == Place(ino, LeafSlot(l)) || OnPath(p, ino, LeafSlot(l)))
    ensures OnRange(p, ino, l, l + 1)
  {
  }

  lemma MappedFills(s: State, o: map<int, Place>, s': State, o': map<int, Place>, ino: int, l: int, r: int)
    requires Mapped(s, o, s', o', ino, l, r)
    ensures Filled(s, s', ino, l, l + 1)
  {
    hide Ptr, LeafSlot, OnPath, OnRange, Tight;
    assert Ptr(s', Place(ino, LeafSlot(l))) == r;
    forall p | Ptr(s', p) != 0 ensures Ptr(s, p) != 0 || OnRange(p, ino, l, l + 1) {
      if p == Place(ino, LeafSlot(l)) || OnPath(p, ino, LeafSlot(l)) {
        PathIsRange(p, ino, l);
      }
    }
  }

  // ------------------------------------- the need, seen from the state before the run

  lemma SameLeaf(s: State, s1: State, ino: int, lo: int, m: int)
    requires Filled(s, s1, ino, lo, m) && 0 <= lo <= m < MAX_FILE_BLOCKS
    ensures Resolve(s1, ino, m) != 0 <==> Resolve(s, ino, m) != 0
  {
    hide Ptr;
    AddressingIsBijective(m, LeafSlot(m));
  }

  /** A mapped block has its pointer blocks. */
  lemma MappedHasParents(s: State, ino: int, l: int)
    requires Resolve(s, ino, l) != 0
    ensures ino in s.inodes && 0 <= l < MAX_FILE_BLOCKS
    ensures LeafSlot(l).IndirectEntry? ==> s.inodes[ino].indirect != 0
    ensures LeafSlot(l).DoubleLeaf? ==> s.inodes[ino].dindirect != 0 && Ptr(s, Place(ino, DoubleEntry(LeafSlot(l).i))) != 0
  {
    hide Word;
  }

  lemma RootPointers(s: State, ino: int)
    requires ino in s.inodes
    ensures Ptr(s, Place(ino, Indirect)) == s.inodes[ino].indirect && Ptr(s, Place(ino, Double)) == s.inodes[ino].dindirect
  {
  }

  /** Once [lo, m) is mapped, mapping `m` needs what was foreseen. */
  lemma NeedForeseen(s: State, s1: State, ino: int, lo: int, m: int)
    requires Filled(s, s1, ino, lo, m) && 0 <= lo <= m < MAX_FILE_BLOCKS && ino in s.inodes && ino in s1.inodes
    ensures Need(s1, ino, m) == NeedAfter(s, ino, lo, m)
  {
    hide Ptr, Resolve;
    SameLeaf(s, s1, ino, lo, m);
    RootPointers(s, ino);
    RootPointers(s1, ino);
    if lo < m {
      MappedHasParents(s1, ino, m - 1);
    }
  }
}
