/** The outcome of testfs_write_data (fs/read_write.c), foreseen from the state before
    the call: which blocks it reaches, what it stores, what it returns. */
module WritePlan {
  import opened Words
  import opened Store
  import opened Ranges

  /** The block number that reaches the block layer: a long converted to int. */
  function FirstBlock(start: int): int {
    Int32(start / BLOCK_SIZE)
  }

  /** Where in the file the bytes go. */
  function Position(start: int): int {
    FirstBlock(start) * BLOCK_SIZE + start % BLOCK_SIZE
  }

  /** Up to an offset of 2^44 bytes go where they should. */
  lemma PositionIsStart(start: int)
    requires 0 <= start < BLOCK_SIZE * 0x8000_0000
    ensures Position(start) == start && FirstBlock(start) == start / BLOCK_SIZE
  {
  }

  /** Bytes go where they should if and only if the offset is below 2^44. */
  lemma PositionExactly(start: int)
    requires 0 <= start
    ensures Position(start) == start <==> start < BLOCK_SIZE * 0x8000_0000
  {
    if start < BLOCK_SIZE * 0x8000_0000 {
      PositionIsStart(start);
    }
  }

  /** At 2^45 the block number wraps around to 0: the first bytes of the file. */
  lemma PositionWraps()
    ensures Position(35184372088832) == 0
  {
  }

  /** The size after the clipping at the limit. */
  function Clipped(start: int, n: int): int {
    if start % BLOCK_SIZE + n > BLOCK_SIZE && start <= MAX_FILE_SIZE && n > MAX_FILE_SIZE - start
    then MAX_FILE_SIZE - start else n
  }

  /** One past the last block that a write of `size` bytes at position `at` stores to. */
  function EndBlock(at: int, size: int): int {
    if size == 0 then at / BLOCK_SIZE + 1 else (at + size - 1) / BLOCK_SIZE + 1
  }

  /** The first block of [lo, hi) that `room` blocks do not suffice for, or `hi`. */
  function Reached(s: State, ino: int, lo: int, hi: int, room: int): (m: int)
    requires ino in s.inodes && 0 <= lo <= hi <= MAX_FILE_BLOCKS && 0 <= room
    ensures lo <= m <= hi
    decreases hi
  {
    if hi == lo then lo
    else
      var m := Reached(s, ino, lo, hi - 1, room);
      if m < hi - 1 then m else if NeedRange(s, ino, lo, hi) <= room then hi else hi - 1
  }

  lemma {:induction false} ReachedStops(s: State, ino: int, lo: int, hi: int, room: int)
    requires ino in s.inodes && 0 <= lo <= hi <= MAX_FILE_BLOCKS && 0 <= room
    ensures var m := Reached(s, ino, lo, hi, room);
            NeedRange(s, ino, lo, m) <= room && (m < hi ==> NeedRange(s, ino, lo, m + 1) > room)
    decreases hi
  {
    hide NeedRange;
    if hi == lo {
      NothingNeeded(s, ino, lo);
    } else {
      ReachedStops(s, ino, lo, hi - 1, room);
    }
  }

  lemma NothingNeeded(s: State, ino: int, lo: int)
    requires ino in s.inodes && 0 <= lo <= MAX_FILE_BLOCKS
    ensures NeedRange(s, ino, lo, lo) == 0
  {
  }

  lemma {:induction false} NeedGrows(s: State, ino: int, lo: int, m: int, hi: int)
    requires ino in s.inodes && 0 <= lo <= m <= hi <= MAX_FILE_BLOCKS
    ensures NeedRange(s, ino, lo, m) <= NeedRange(s, ino, lo, hi)
    decreases hi
  {
    if m < hi {
      NeedGrows(s, ino, lo, m, hi - 1);
    }
  }

  /** The stopping block is the only one with that property. */
  lemma ReachedIs(s: State, ino: int, lo: int, m: int, hi: int, room: int)
    requires ino in s.inodes && 0 <= lo <= m <= hi <= MAX_FILE_BLOCKS && 0 <= room
    requires NeedRange(s, ino, lo, m) <= room && (m < hi ==> NeedRange(s, ino, lo, m + 1) > room)
    ensures Reached(s, ino, lo, hi, room) == m
  {
    hide NeedRange, Reached;
    ReachedStops(s, ino, lo, hi, room);
    var k := Reached(s, ino, lo, hi, room);
    if k < m {
      NeedGrows(s, ino, lo, k + 1, m);
    } else if m < k {
      NeedGrows(s, ino, lo, m + 1, k);
    }
  }

  /** A write gets everywhere it wants exactly when all it needs fits. */
  lemma ReachedAll(s: State, ino: int, lo: int, hi: int, room: int)
    requires ino in s.inodes && 0 <= lo <= hi <= MAX_FILE_BLOCKS && 0 <= room
    ensures Reached(s, ino, lo, hi, room) == hi <==> NeedRange(s, ino, lo, hi) <= room
  {
    hide NeedRange, Reached;
    ReachedStops(s, ino, lo, hi, room);
    if NeedRange(s, ino, lo, hi) <= room {
      ReachedIs(s, ino, lo, hi, hi, room);
    }
  }

  /** `stop` is the block at which the write stopped, or one past the last. */
  datatype Outcome = Outcome(result: int, stored: int, resized: bool, stop: int)

  function Result(start: int, n: int): int {
    if Clipped(start, n) != n then -EFBIG else n
  }

  function OutcomeOf(s: State, ino: int, start: int, n: int, room: int): Outcome
    requires ino in s.inodes && 0 <= FirstBlock(start) && 0 <= room && 0 <= n
  {
    var lo, at, size := FirstBlock(start), Position(start), Clipped(start, n);
    if lo >= MAX_FILE_BLOCKS then Outcome(-EFBIG, 0, false, lo)
    else
      var hi := Max(lo + 1, EndBlock(at, size));
      var m := Reached(s, ino, lo, Min(hi, MAX_FILE_BLOCKS), room);
      var stored := if m == lo then 0 else Min(size, m * BLOCK_SIZE - at);
      if m < hi && !(m == lo + 1 && hi == lo + 2)
      then Outcome(if m < MAX_FILE_BLOCKS then -ENOSPC else -EFBIG, stored, false, m)
      else Outcome(Result(start, n), stored, size > 0, m)
  }

  /** An out-of-space stop under an existing double indirect block that links a fresh
      indirect block and then has no block left for the data. */
  predicate Sticks(s: State, ino: int, lo: int, m: int, room: int)
    requires ino in s.inodes && 0 <= lo <= m < MAX_FILE_BLOCKS
  {
    LeafSlot(m).DoubleLeaf? && NeedAfter(s, ino, lo, m) == 2 && room - NeedRange(s, ino, lo, m) == 1
  }

  // ------------------------------------------------------------ what the outcome means

  /** With space, exactly [start, min(start + n, limit)) is stored, and the limit is
      reported exactly when it cuts something off. */
  lemma WithSpace(s: State, ino: int, start: int, n: int, room: int)
    requires ino in s.inodes && 0 <= start < MAX_FILE_SIZE && 0 <= n && 0 <= room
    requires Max(start / BLOCK_SIZE + 1, EndBlock(start, Clipped(start, n))) <= MAX_FILE_BLOCKS ==>
               NeedRange(s, ino, start / BLOCK_SIZE, Max(start / BLOCK_SIZE + 1, EndBlock(start, Clipped(start, n)))) <= room
    ensures 0 <= FirstBlock(start) < MAX_FILE_BLOCKS
    ensures var out := OutcomeOf(s, ino, start, n, room);
            && out.stored == Min(n, MAX_FILE_SIZE - start)
            && out.result == (if start + n > MAX_FILE_SIZE then -EFBIG else n)
            && out.resized == (n > 0)
  {
    hide NeedRange, Reached;
    PositionIsStart(start);
    var size := Clipped(start, n);
    var hi := Max(start / BLOCK_SIZE + 1, EndBlock(start, size));
    assert start + size <= MAX_FILE_SIZE;
    assert hi <= MAX_FILE_BLOCKS;
    ReachedAll(s, ino, start / BLOCK_SIZE, hi, room);
  }

  /** The result claims more than was stored in exactly one case: a write to two blocks
      of which only the first could be stored. */
  lemma MisreportedExactly(s: State, ino: int, start: int, n: int, room: int)
    requires ino in s.inodes && 0 <= start && 0 <= FirstBlock(start) < MAX_FILE_BLOCKS && 0 <= n && 0 <= room
    ensures var out := OutcomeOf(s, ino, start, n, room);
            var lo, hi := FirstBlock(start), Max(FirstBlock(start) + 1, EndBlock(Position(start), Clipped(start, n)));
            out.result >= 0 && out.stored < n <==>
              && Clipped(start, n) == n && hi == lo + 2 && NeedRange(s, ino, lo, lo + 1) <= room
              && (lo + 2 <= MAX_FILE_BLOCKS ==> NeedRange(s, ino, lo, lo + 2) > room)
  {
    hide NeedRange, Reached;
    var lo, at, size := FirstBlock(start), Position(start), Clipped(start, n);
    var hi := Max(lo + 1, EndBlock(at, size));
    var top := Min(hi, MAX_FILE_BLOCKS);
    ReachedStops(s, ino, lo, top, room);
    var m := Reached(s, ino, lo, top, room);
    if hi == lo + 2 && NeedRange(s, ino, lo, lo + 1) <= room && (lo + 2 <= MAX_FILE_BLOCKS ==> NeedRange(s, ino, lo, lo + 2) > room) {
      ReachedIs(s, ino, lo, lo + 1, top, room);
    }
  }

  /** When a write fails and when it sets the size. It gets through if it stays below the
      limit and its blocks fit, or if it is one to two blocks of which the first fits. */
  lemma OutcomeExactly(s: State, ino: int, start: int, n: int, room: int)
    requires ino in s.inodes && 0 <= start && 0 <= FirstBlock(start) < MAX_FILE_BLOCKS && 0 <= n && 0 <= room
    ensures var out, size := OutcomeOf(s, ino, start, n, room), Clipped(start, n);
            var lo, hi := FirstBlock(start), Max(FirstBlock(start) + 1, EndBlock(Position(start), size));
            var through := || (hi <= MAX_FILE_BLOCKS && NeedRange(s, ino, lo, hi) <= room)
                           || (hi == lo + 2 && NeedRange(s, ino, lo, lo + 1) <= room);
            var short := NeedRange(s, ino, lo, Min(hi, MAX_FILE_BLOCKS)) > room;
            && (out.resized <==> through && size > 0)
            && out.result == (if through then (if size == n then n else -EFBIG) else if short then -ENOSPC else -EFBIG)
  {
    hide NeedRange, Reached, Clipped, Position, FirstBlock, EndBlock;
    var lo, at, size := FirstBlock(start), Position(start), Clipped(start, n);
    var hi := Max(lo + 1, EndBlock(at, size));
    var top := Min(hi, MAX_FILE_BLOCKS);
    ReachedAll(s, ino, lo, top, room);
    if hi == lo + 2 {
      ReachedStops(s, ino, lo, top, room);
      NeedGrows(s, ino, lo, lo + 1, top);
      if NeedRange(s, ino, lo, lo + 1) <= room && Reached(s, ino, lo, top, room) != top {
        ReachedIs(s, ino, lo, lo + 1, top, room);
      }
    }
  }

  /** A start whose block number is at or above the limit after the conversion, and only
      such a start, is refused with nothing stored and EFBIG whatever the space. */
  lemma RefusedExactly(s: State, ino: int, start: int, n: int)
    requires ino in s.inodes && 0 <= start && 0 <= FirstBlock(start) && 0 < n
    ensures FirstBlock(start) >= MAX_FILE_BLOCKS <==>
              forall room :: 0 <= room ==>
                var out := OutcomeOf(s, ino, start, n, room); out.result == -EFBIG && out.stored == 0
  {
    hide NeedRange, Reached;
    if FirstBlock(start) < MAX_FILE_BLOCKS {
      var lo := FirstBlock(start);
      var hi := Max(lo + 1, EndBlock(Position(start), Clipped(start, n)));
      var top := Min(hi, MAX_FILE_BLOCKS);
      var room := NeedRange(s, ino, lo, top);
      ReachedAll(s, ino, lo, top, room);
      assert OutcomeOf(s, ino, start, n, room).stored != 0;
    }
  }
}
