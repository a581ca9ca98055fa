/** A directory as it lies in its file (fs/dir.c, fs/dir.h): variable-length records,
    one after the other. A record whose inode number is negative is a tombstone; its
    room is used again by a name of the same length. */
module DirLog {
  import opened Words
  import opened Reading

  const ENOENT: int := 2
  const EEXIST: int := 17
  const EINVAL: int := 22
  const ENOTEMPTY: int := 39
  const INVALID_INODE_NR: int := -1
  const HEADER: int := 8

  /** A C string without its terminator. */
  predicate IsName(name: seq<byte>) {
    0 !in name && |name| + 1 < 0x8000_0000
  }

  /** `raw` are the d_name_len bytes after the header. */
  datatype Record = Record(inode: int, raw: seq<byte>)

  predicate WellFormed(r: Record) {
    1 <= |r.raw| < 0x8000_0000 && IsWord(r.inode)
  }

  predicate AllWellFormed(rs: seq<Record>) {
    forall i :: 0 <= i < |rs| ==> WellFormed(rs[i])
  }

  predicate Live(r: Record) {
    r.inode >= 0
  }

  /** The name of a record, as strcmp sees it. */
  function Label(r: Record): seq<byte> {
    CString(r.raw)
  }

  /** The record that testfs_write_dirent makes. */
  function Make(name: seq<byte>, nr: int): Record {
    Record(nr, name + [0])
  }

  lemma MadeLabel(name: seq<byte>, nr: int)
    requires IsName(name)
    ensures Label(Make(name, nr)) == name
  {
    CStringOfTerminated(name);
  }

  // --------------------------------------------------------------------- the bytes

  /** The bytes before the first zero. */
  function CString(b: seq<byte>): (s: seq<byte>)
    ensures 0 !in s && |s| <= |b|
  {
    if b == [] || b[0] == 0 then [] else [b[0]] + CString(b[1..])
  }

  lemma {:induction false} CStringOfTerminated(s: seq<byte>)
    requires 0 !in s
    ensures CString(s + [0]) == s
  {
    if s != [] {
      assert (s + [0])[1..] == s[1..] + [0];
      CStringOfTerminated(s[1..]);
    }
  }

  function Length(r: Record): (n: int)
    ensures n >= HEADER
  {
    HEADER + |r.raw|
  }

  function Encode(r: Record): (b: seq<byte>)
    requires WellFormed(r)
    ensures |b| == Length(r)
  {
    Le32(|r.raw|) + Le32(r.inode) + r.raw
  }

  /** The bytes of a record: four for the length of the name with its terminator, four for
      the inode number, each lowest first, and the name. */
  lemma RecordBytes(r: Record)
    requires WellFormed(r)
    ensures LittleEndian(Encode(r)[0..4]) == |r.raw| && LittleEndian(Encode(r)[4..8]) == Unsigned(r.inode)
    ensures Encode(r)[8..] == r.raw
  {
    FieldIsLittleEndian(|r.raw|, Le32(0));
    FieldIsLittleEndian(r.inode, Le32(0));
    hide Le32;
    assert Encode(r)[0..4] == Le32(|r.raw|) && Encode(r)[4..8] == Le32(r.inode);
  }

  function EncodeAll(rs: seq<Record>): (b: seq<byte>)
    requires AllWellFormed(rs)
  {
    if rs == [] then [] else Encode(rs[0]) + EncodeAll(rs[1..])
  }

  /** Where record `i` starts. */
  function Offset(rs: seq<Record>, i: int): (n: int)
    requires 0 <= i <= |rs|
    ensures n >= 0 && (i > 0 ==> n > 0)
  {
    if i == 0 then 0 else Length(rs[0]) + Offset(rs[1..], i - 1)
  }

  lemma {:induction false} OffsetStep(rs: seq<Record>, i: int)
    requires 0 <= i < |rs|
    ensures Offset(rs, i + 1) == Offset(rs, i) + Length(rs[i])
  {
    if i > 0 {
      OffsetStep(rs[1..], i - 1);
    }
  }

  /** Record `i` is found at its offset, and the end of the log is the end of the file. */
  lemma {:induction false} RecordAt(rs: seq<Record>, i: int)
    requires AllWellFormed(rs) && 0 <= i <= |rs|
    ensures 0 <= Offset(rs, i) <= |EncodeAll(rs)|
    ensures i == |rs| <==> Offset(rs, i) == |EncodeAll(rs)|
    ensures i < |rs| ==> Offset(rs, i) + Length(rs[i]) <= |EncodeAll(rs)|
    ensures i < |rs| ==> EncodeAll(rs)[Offset(rs, i)..Offset(rs, i) + Length(rs[i])] == Encode(rs[i])
  {
    hide Encode;
    if rs != [] {
      var rest := EncodeAll(rs[1..]);
      if i > 0 {
        RecordAt(rs[1..], i - 1);
        if i < |rs| {
          var a, n := Offset(rs[1..], i - 1), Length(rs[i]);
          Shifted(Encode(rs[0]), rest, a, a + n);
        }
      } else {
        assert EncodeAll(rs)[0..Length(rs[0])] == Encode(rs[0]);
      }
    }
  }

  lemma Shifted(x: seq<byte>, y: seq<byte>, a: int, b: int)
    requires 0 <= a <= b <= |y|
    ensures (x + y)[|x| + a..|x| + b] == y[a..b]
  {
  }

  // --------------------------------------------------------------- reading a record

  /** Memory that was not initialised: `junk` and then zeros. */
  function Memory(junk: seq<byte>, n: nat): (m: seq<byte>)
    ensures |m| == n && forall k :: 0 <= k < n && k < |junk| ==> m[k] == junk[k]
  {
    if n <= |junk| then junk[..n] else junk + seq(n - |junk|, _ => 0)
  }

  /** What testfs_read_data leaves in a buffer: the bytes it copies, and behind them what
      was there before. */
  function Delivered(b: seq<byte>, start: int, buf: seq<byte>): (d: seq<byte>)
    requires 0 <= start && start + |buf| <= |b|
    ensures |d| == |buf|
  {
    var k := Copied(start, |buf|);
    CopiedInRange(start, |buf|);
    b[start..start + k] + buf[k..]
  }

  lemma CopiedInRange(start: int, n: nat)
    requires 0 <= start
    ensures 0 <= Copied(start, n) <= n
  {
  }

  /** What testfs_next_dirent reads at an offset. */
  function ReadRecord(b: seq<byte>, off: int, junk: seq<byte>): Record
    requires 0 <= off && off + HEADER <= |b|
    requires 0 <= OfLe32(b[off..off + 4]) <= |b| - off - HEADER
  {
    var len := OfLe32(b[off..off + 4]);
    Record(OfLe32(b[off + 4..off + 8]), Delivered(b, off + HEADER, Memory(junk, len)))
  }

  /** How a record at offset `off` looks to a scan. */
  function Seen(r: Record, off: int, junk: seq<byte>): Record
    requires 0 <= off
  {
    var n := |r.raw|;
    CopiedInRange(off + HEADER, n);
    var k := Copied(off + HEADER, n);
    Record(r.inode, r.raw[..k] + Memory(junk, n)[k..])
  }

  /** A scan sees the record as it is unless its name spans blocks and ends on a block
      boundary; then the last block of the name is whatever the memory held. */
  lemma SeenExactly(r: Record, off: int, junk: seq<byte>)
    requires 0 <= off
    ensures |Seen(r, off, junk).raw| == |r.raw|
    ensures Seen(r, off, junk) == r <==>
              || !SkipsLast(off + HEADER, |r.raw|)
              || Memory(junk, |r.raw|)[|r.raw| - BLOCK_SIZE..] == r.raw[|r.raw| - BLOCK_SIZE..]
    ensures |r.raw| <= BLOCK_SIZE ==> Seen(r, off, junk) == r
  {
    var n := |r.raw|;
    var m := Memory(junk, n);
    CopiedInRange(off + HEADER, n);
    var k := Copied(off + HEADER, n);
    assert r.raw == r.raw[..k] + r.raw[k..];
    if SkipsLast(off + HEADER, n) {
      assert k == n - BLOCK_SIZE;
      if Seen(r, off, junk) == r {
        assert (r.raw[..k] + m[k..])[k..] == m[k..];
      }
    }
  }

  lemma ReadsBack(b: seq<byte>, off: int, r: Record, junk: seq<byte>)
    requires WellFormed(r) && 0 <= off && off + Length(r) <= |b| && b[off..off + Length(r)] == Encode(r)
    ensures OfLe32(b[off..off + 4]) == |r.raw|
    ensures ReadRecord(b, off, junk) == Seen(r, off, junk)
  {
    var e := b[off..off + Length(r)];
    Within(b, off, Length(r), 0, 4);
    Within(b, off, Length(r), 4, 8);
    Within(b, off, Length(r), HEADER, Length(r));
    assert e[0..4] == Le32(|r.raw|);
    assert e[4..8] == Le32(r.inode);
    assert e[HEADER..Length(r)] == r.raw;
    hide Memory, Copied, Le32, OfLe32;
    Le32RoundTrip(|r.raw|);
    Le32RoundTrip(r.inode);
    CopiedInRange(off + HEADER, |r.raw|);
    var k := Copied(off + HEADER, |r.raw|);
    assert b[off + HEADER..off + HEADER + |r.raw|] == r.raw;
    assert b[off + HEADER..off + HEADER + k] == b[off + HEADER..off + HEADER + |r.raw|][..k];
  }

  lemma Within(b: seq<byte>, off: int, n: int, i: int, j: int)
    requires 0 <= off && off + n <= |b| && 0 <= i <= j <= n
    ensures b[off + i..off + j] == b[off..off + n][i..j]
  {
    var e := b[off..off + n];
    assert forall k :: i <= k < j ==> e[k] == b[off + k];
    assert forall k :: 0 <= k < j - i ==> e[i..j][k] == b[off + i..off + j][k];
  }

  /** The bytes determine the records. */
  lemma {:induction false} LogIsUnambiguous(rs: seq<Record>, ts: seq<Record>)
    requires AllWellFormed(rs) && AllWellFormed(ts) && EncodeAll(rs) == EncodeAll(ts)
    ensures rs == ts
  {
    hide Encode;
    if rs != [] && ts != [] {
      var b := EncodeAll(rs);
      assert b[0..Length(rs[0])] == Encode(rs[0]);
      assert b[0..Length(ts[0])] == Encode(ts[0]);
      EncodedOnce(b, rs[0], ts[0]);
      assert b[Length(rs[0])..] == EncodeAll(rs[1..]) == EncodeAll(ts[1..]);
      LogIsUnambiguous(rs[1..], ts[1..]);
    }
  }

  lemma EncodedOnce(b: seq<byte>, r: Record, t: Record)
    requires WellFormed(r) && WellFormed(t) && Length(r) <= |b| && Length(t) <= |b|
    requires b[0..Length(r)] == Encode(r) && b[0..Length(t)] == Encode(t)
    ensures r == t
  {
    hide Le32, OfLe32;
    assert b[0..4] == Encode(r)[0..4] == Encode(t)[0..4];
    assert Encode(r)[0..4] == Le32(|r.raw|) && Encode(t)[0..4] == Le32(|t.raw|);
    Le32RoundTrip(|r.raw|);
    Le32RoundTrip(|t.raw|);
    assert Encode(r)[4..8] == Le32(r.inode) && Encode(t)[4..8] == Le32(t.inode);
    Le32RoundTrip(r.inode);
    Le32RoundTrip(t.inode);
    assert Encode(r)[8..] == r.raw && Encode(t)[8..] == t.raw;
  }

  /** memcpy into a file that may grow */
  function Overwrite(b: seq<byte>, off: int, chunk: seq<byte>): (b': seq<byte>)
    requires 0 <= off <= |b|
  {
    b[..off] + chunk + if off + |chunk| <= |b| then b[off + |chunk|..] else []
  }

  /** Writing a record of the same length over another changes that record only. */
  lemma {:induction false} OverwriteRecord(rs: seq<Record>, i: int, r: Record)
    requires AllWellFormed(rs) && WellFormed(r) && 0 <= i < |rs| && |r.raw| == |rs[i].raw|
    ensures 0 <= Offset(rs, i) <= |EncodeAll(rs)|
    ensures Overwrite(EncodeAll(rs), Offset(rs, i), Encode(r)) == EncodeAll(rs[i := r])
  {
    hide Encode;
    RecordAt(rs, i);
    var all, off := EncodeAll(rs), Offset(rs, i);
    if i == 0 {
      assert rs[0 := r][1..] == rs[1..];
      assert all[off + Length(r)..] == EncodeAll(rs[1..]);
    } else {
      OverwriteRecord(rs[1..], i - 1, r);
      assert rs[i := r][1..] == rs[1..][i - 1 := r];
      OverwriteShifted(Encode(rs[0]), EncodeAll(rs[1..]), Offset(rs[1..], i - 1), Encode(r));
    }
  }

  lemma OverwriteShifted(x: seq<byte>, y: seq<byte>, off: int, chunk: seq<byte>)
    requires 0 <= off <= |y|
    ensures Overwrite(x + y, |x| + off, chunk) == x + Overwrite(y, off, chunk)
  {
  }

  lemma {:induction false} AppendRecord(rs: seq<Record>, r: Record)
    requires AllWellFormed(rs) && WellFormed(r)
    ensures AllWellFormed(rs + [r]) && EncodeAll(rs + [r]) == EncodeAll(rs) + Encode(r)
  {
    hide Encode;
    if rs == [] {
      assert EncodeAll([r]) == Encode(r) + EncodeAll([]);
    } else {
      AppendRecord(rs[1..], r);
      assert (rs + [r])[1..] == rs[1..] + [r];
    }
  }

}
