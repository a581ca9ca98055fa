/** Reading file data (fs/read_write.c). */
module Reading {
  import opened Words
  import opened Store
  import opened Ranges
  import opened BlockLayer
  import opened WritePlan

  // ------------------------------------------------------------------- reading

  /** A read that spans blocks and ends exactly on a block boundary leaves its
      last block out: the remainder is tested modulo the block size. */
  predicate SkipsLast(start: int, n: int) {
    start % BLOCK_SIZE + n > BLOCK_SIZE && (start + n) % BLOCK_SIZE == 0
  }

  /** Bytes that a read of `n` bytes at `start` puts into the caller's buffer. */
  function Copied(start: int, n: int): int {
    if SkipsLast(start, n) then n - BLOCK_SIZE else n
  }

  /** Reads of at most one block's worth of bytes are never cut short. */
  lemma ShortReadsAreWhole(start: int, n: int)
    requires 0 <= start && 0 <= n <= BLOCK_SIZE
    ensures Copied(start, n) == n
  {
  }

  /** memcpy(buf + pos, block + off, len) where block is logical block `l`. */
  method CopyBlock(fs: FileSystem, ino: int, l: int, off: int, buf: array<byte>, pos: int, len: int)
    requires fs.Valid() && ino in fs.inodes && 0 <= l
    requires fs.stray == 0 || (l < MAX_FILE_BLOCKS && !OutOfRange(fs.inodes[ino], l))
    requires 0 <= off && 0 <= len && off + len <= BLOCK_SIZE && 0 <= pos && pos + len <= buf.Length
    requires buf as object != fs.blockFreemap.v
    modifies buf
    ensures forall k :: 0 <= k < buf.Length ==>
              buf[k] == if pos <= k < pos + len then FileByte(fs.S(), ino, l * BLOCK_SIZE + off + (k - pos)) else old(buf[k])
  {
    hide Owned, Resolve, FileSystem.Wired, FileSystem.Used;
    var phys, block := fs.ReadBlock(ino, l);
    forall k | pos <= k < pos + len {
      buf[k] := block[off + (k - pos)];
    }
    forall k | pos <= k < pos + len
      ensures buf[k] == FileByte(fs.S(), ino, l * BLOCK_SIZE + off + (k - pos))
    {
      var p := l * BLOCK_SIZE + off + (k - pos);
      assert p / BLOCK_SIZE == l && p % BLOCK_SIZE == off + (k - pos);
      assert buf[k] == block[p % BLOCK_SIZE];
    }
  }

  /** The lookups of a read of blocks [lo, hi) stay in range, or find a zero where they do
      not; and no block number changes sign. */
  predicate Readable(stray: int, n: Inode, lo: int, hi: int) {
    && 0 <= lo && hi <= 0x8000_0000
    && (stray == 0 || (hi <= MAX_FILE_BLOCKS && (hi <= FIRST_DOUBLE || n.dindirect != 0 || n.indirect == 0)))
  }

  lemma ReadableBlock(stray: int, n: Inode, lo: int, hi: int, l: int)
    requires Readable(stray, n, lo, hi) && lo <= l < hi
    ensures 0 <= l < 0x8000_0000 && (stray == 0 || (l < MAX_FILE_BLOCKS && !OutOfRange(n, l)))
  {
  }

  /** The part of testfs_read_data for reads that span blocks (lines 103-145). */
  method ReadSpan(fs: FileSystem, ino: int, buf: array<byte>, start: int, size: int)
    requires fs.Valid() && ino in fs.inodes && 0 <= start && 0 <= size <= buf.Length
    requires Readable(fs.stray, fs.inodes[ino], FirstBlock(start), EndBlock(Position(start), size))
    requires start % BLOCK_SIZE + size > BLOCK_SIZE
    requires buf as object != fs.blockFreemap.v
    modifies buf
    ensures forall k :: 0 <= k < buf.Length ==>
              buf[k] == if k < Copied(start, size) then FileByte(fs.S(), ino, Position(start) + k) else old(buf[k])
  {
    hide FileSystem.Valid, FileByte, FirstBlock, Position, Readable, Copied, Int32;
    var blockNr, blockIx := start / BLOCK_SIZE, start % BLOCK_SIZE;
    ghost var lo, at, hi := FirstBlock(start), Position(start), EndBlock(Position(start), size);
    Parts(start, size);
    ReadableBlock(fs.stray, fs.inodes[ino], lo, hi, lo);
    CopyBlock(fs, ino, Int32(blockNr), blockIx, buf, 0, BLOCK_SIZE - blockIx);
    var i, pos := 0, BLOCK_SIZE - blockIx;
    while size - pos > BLOCK_SIZE
      invariant 0 <= i && pos == BLOCK_SIZE - blockIx + i * BLOCK_SIZE && pos < size
      invariant forall k :: 0 <= k < buf.Length ==>
                  buf[k] == if k < pos then FileByte(fs.S(), ino, at + k) else old(buf[k])
    {
      i := i + 1;
      NextPart(start, size, i);
      ReadableBlock(fs.stray, fs.inodes[ino], lo, hi, lo + i);
      NextBlock(start, i);
      CopyBlock(fs, ino, Int32(blockNr + i), 0, buf, pos, BLOCK_SIZE);
      pos := pos + BLOCK_SIZE;
    }
    LastPart(start, size, pos);
    if (size - pos) % BLOCK_SIZE != 0 {
      NextPart(start, size, i + 1);
      ReadableBlock(fs.stray, fs.inodes[ino], lo, hi, lo + i + 1);
      NextBlock(start, i + 1);
      CopyBlock(fs, ino, Int32(blockNr + i + 1), 0, buf, pos, (size - pos) % BLOCK_SIZE);
    }
  }

  /** The blocks of a spanning read. */
  lemma Parts(start: int, size: int)
    requires start % BLOCK_SIZE + size > BLOCK_SIZE
    ensures FirstBlock(start) == Int32(start / BLOCK_SIZE) && FirstBlock(start) < EndBlock(Position(start), size)
    ensures Position(start) == FirstBlock(start) * BLOCK_SIZE + start % BLOCK_SIZE
  {
    hide Int32;
  }

  lemma NextPart(start: int, size: int, i: int)
    requires 0 < i && start % BLOCK_SIZE + size > i * BLOCK_SIZE
    ensures FirstBlock(start) + i < EndBlock(Position(start), size)
  {
    hide Int32;
  }

  lemma NextBlock(start: int, i: int)
    requires 0 <= FirstBlock(start) && 0 <= i && FirstBlock(start) + i < 0x8000_0000
    ensures Int32(start / BLOCK_SIZE + i) == FirstBlock(start) + i
  {
    ConvertedSum(start / BLOCK_SIZE, i);
  }

  lemma ConvertedSum(x: int, i: int)
    requires 0 <= Int32(x) && 0 <= i && Int32(x) + i < 0x8000_0000
    ensures Int32(x + i) == Int32(x) + i
  {
    var q := x / 0x1_0000_0000;
    assert x + i == q * 0x1_0000_0000 + (Int32(x) + i);
  }

  /** What the modulus leaves of the last part. */
  lemma LastPart(start: int, size: int, pos: int)
    requires 0 <= start && 0 < size - pos <= BLOCK_SIZE && (start + pos) % BLOCK_SIZE == 0
    requires start % BLOCK_SIZE + size > BLOCK_SIZE
    ensures (size - pos) % BLOCK_SIZE == if SkipsLast(start, size) then 0 else size - pos
    ensures SkipsLast(start, size) ==> size - pos == BLOCK_SIZE
    ensures Copied(start, size) == pos + (size - pos) % BLOCK_SIZE
  {
  }

  /** A size_t of 64 bits, which wraps around. */
  const SIZE_RANGE: int := 0x1_0000_0000_0000_0000

  /** testfs_read_data. The result counts all `n` bytes up to the end of file;
      the buffer receives `Copied(start, n)` of them and is otherwise untouched. Behind the
      end of file the number of bytes left wraps around and is too large to be read. */
  method ReadData(fs: FileSystem, ino: int, buf: array<byte>, start: int, want: int) returns (r: int)
    requires fs.Valid() && ino in fs.inodes && 0 <= fs.inodes[ino].size && 0 <= want <= buf.Length && want <= INT_MAX
    requires 0 <= start < 0x8000_0000_0000_0000
    requires start <= fs.inodes[ino].size || start % BLOCK_SIZE < start - fs.inodes[ino].size || Refused(start, want)
    requires start <= fs.inodes[ino].size ==>
               || Refused(start, want)
               || Readable(fs.stray, fs.inodes[ino], FirstBlock(start),
                           Max(FirstBlock(start) + 1, EndBlock(Position(start), Min(want, fs.inodes[ino].size - start))))
    requires buf as object != fs.blockFreemap.v
    modifies buf
    ensures Refused(start, want) || start > fs.inodes[ino].size ==> r == -EFBIG && buf[..] == old(buf[..])
    ensures !(Refused(start, want) || start > fs.inodes[ino].size) ==>
              && r == Min(want, fs.inodes[ino].size - start)
              && (forall k :: 0 <= k < buf.Length ==>
                    buf[k] == if k < Copied(start, r) then FileByte(fs.S(), ino, Position(start) + k) else old(buf[k]))
  {
    hide FileSystem.Valid, FileByte, FirstBlock, Position, Readable, Copied, Int32;
    if Refused(start, want) {
      return -EFBIG;
    }
    var size := want;
    if start + size > fs.inodes[ino].size {
      size := (fs.inodes[ino].size - start) % SIZE_RANGE;
    }
    var blockNr, blockIx := start / BLOCK_SIZE, start % BLOCK_SIZE;
    if (blockIx + size) % SIZE_RANGE > BLOCK_SIZE {
      if size > MAX_FILE_SIZE {
        return -EFBIG;
      }
      Parts(start, size);
      ReadSpan(fs, ino, buf, start, size);
      return size;
    }
    OnePart(start, size);
    ReadableBlock(fs.stray, fs.inodes[ino], FirstBlock(start), Max(FirstBlock(start) + 1, EndBlock(Position(start), size)), FirstBlock(start));
    CopyBlock(fs, ino, Int32(blockNr), blockIx, buf, 0, size);
    return size;
  }

  /** The test that opens testfs_read_data. */
  predicate Refused(start: int, want: int) {
    start <= MAX_FILE_SIZE && want > MAX_FILE_SIZE - start
  }

  lemma OnePart(start: int, size: int)
    requires 0 <= size && start % BLOCK_SIZE + size <= BLOCK_SIZE
    ensures FirstBlock(start) == Int32(start / BLOCK_SIZE) && Copied(start, size) == size
    ensures Position(start) == FirstBlock(start) * BLOCK_SIZE + start % BLOCK_SIZE
  {
    hide Int32;
  }
}
