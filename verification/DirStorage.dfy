/** The file of a directory on the block layer: testfs_read_data and testfs_write_data on a
    file of known contents do what the directory code is modelled to see and to write. */
module DirStorage {
  import opened Words
  import opened Store
  import opened BlockLayer
  import opened FileWrites
  import opened WritePlan
  import opened ReadWrite
  import opened Reading
  import DirLog

  /** The contents of a file up to its size. */
  ghost predicate Holds(s: State, ino: int, data: seq<byte>) {
    ino in s.inodes && s.inodes[ino].size == |data| && forall k :: 0 <= k < |data| ==> FileByte(s, ino, k) == data[k]
  }

  /** testfs_read_data on a file of these contents delivers as described. */
  method ReadThrough(fs: FileSystem, ino: int, buf: array<byte>, start: int, ghost data: seq<byte>) returns (r: int)
    requires fs.Valid() && Holds(fs.S(), ino, data) && |data| <= MAX_FILE_SIZE
    requires 0 <= start && start + buf.Length <= |data| && buf.Length <= INT_MAX
    requires Readable(fs.stray, fs.inodes[ino], start / BLOCK_SIZE, Max(start / BLOCK_SIZE + 1, EndBlock(start, buf.Length)))
    requires buf as object != fs.blockFreemap.v
    modifies buf
    ensures r == buf.Length && buf[..] == DirLog.Delivered(data, start, old(buf[..]))
  {
    hide FileByte, FileSystem.Valid;
    PositionIsStart(start);
    DirLog.CopiedInRange(start, buf.Length);
    r := ReadData(fs, ino, buf, start, buf.Length);
  }

  /** testfs_write_data on a file of these contents, with space: the bytes are overwritten
      in place or appended. */
  method WriteThrough(fs: FileSystem, ino: int, chunk: seq<byte>, start: int, ghost data: seq<byte>) returns (r: int)
    requires fs.Valid() && Holds(fs.S(), ino, data)
    requires 0 <= start <= |data| && 0 < |chunk| <= INT_MAX && start + |chunk| <= MAX_FILE_SIZE
    requires Guarded(fs.stray, fs.inodes[ino], start / BLOCK_SIZE, HighBlock(start, |chunk|))
    requires Demand(fs.S(), ino, start, |chunk|) <= Max(0, fs.Capacity() - |fs.Used()|)
    modifies fs, fs.blockFreemap.v
    ensures fs.Valid() && r == |chunk| && Holds(fs.S(), ino, DirLog.Overwrite(data, start, chunk))
  {
    hide FileByte, FileSystem.Wired, FileSystem.Used, Performed, Stuck, Owned, Demand, FileWrites.WellFormed, Guarded;
    PositionIsStart(start);
    ghost var s0, room := fs.S(), Max(0, fs.Capacity() - |fs.Used()|);
    r := WriteData(fs, ino, chunk, start);
    WrittenWithSpace(s0, fs.S(), ino, chunk, start, r, room);
    assert chunk[..|chunk|] == chunk;
    OverwrittenHolds(s0, fs.S(), ino, chunk, start, data);
  }

  lemma OverwrittenHolds(s: State, s': State, ino: int, chunk: seq<byte>, start: int, data: seq<byte>)
    requires Holds(s, ino, data) && 0 <= start <= |data| && 0 < |chunk|
    requires WroteRange(s, s', ino, start, chunk) && SizesAfter(s, s', ino, start, |chunk|)
    ensures Holds(s', ino, DirLog.Overwrite(data, start, chunk))
  {
    hide FileByte;
    var data' := DirLog.Overwrite(data, start, chunk);
    forall k | 0 <= k < |data'| ensures FileByte(s', ino, k) == data'[k] {
    }
  }
}
