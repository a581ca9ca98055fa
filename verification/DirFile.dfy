/** A directory's file changed in place by the functions of fs/dir.c, which read it through
    testfs_read_data. */
module DirFile {
  import opened Words
  import opened Reading
  import opened DirLog
  import opened DirMap

  /** What the buffer from malloc for the record at an offset holds. */
  type Junk = int -> seq<byte>

  /** The records as a scan sees them. */
  function SeenAll(rs: seq<Record>, junk: Junk): (ts: seq<Record>)
    ensures |ts| == |rs| && forall i :: 0 <= i < |rs| ==> ts[i] == Seen(rs[i], Offset(rs, i), junk(Offset(rs, i)))
  {
    seq(|rs|, i requires 0 <= i < |rs| => Seen(rs[i], Offset(rs, i), junk(Offset(rs, i))))
  }

  /** No name spans blocks and ends on a block boundary. */
  predicate AllWhole(rs: seq<Record>) {
    forall i :: 0 <= i < |rs| ==> !SkipsLast(Offset(rs, i) + HEADER, |rs[i].raw|)
  }

  predicate AllShort(rs: seq<Record>) {
    forall i :: 0 <= i < |rs| ==> |rs[i].raw| <= BLOCK_SIZE
  }

  lemma ShortIsWhole(start: int, n: int)
    requires 0 <= start && 0 <= n
    ensures n <= BLOCK_SIZE ==> !SkipsLast(start, n)
  {
  }

  /** Then scans see the records as they are; names of at most a block are always so. */
  lemma WholeIsSeen(rs: seq<Record>, junk: Junk)
    ensures AllWhole(rs) ==> SeenAll(rs, junk) == rs
    ensures AllShort(rs) ==> AllWhole(rs)
  {
    hide Seen, Offset, SkipsLast, Memory;
    forall i | 0 <= i < |rs|
      ensures !SkipsLast(Offset(rs, i) + HEADER, |rs[i].raw|) ==> Seen(rs[i], Offset(rs, i), junk(Offset(rs, i))) == rs[i]
      ensures |rs[i].raw| <= BLOCK_SIZE ==> !SkipsLast(Offset(rs, i) + HEADER, |rs[i].raw|)
    {
      SeenExactly(rs[i], Offset(rs, i), junk(Offset(rs, i)));
      ShortIsWhole(Offset(rs, i) + HEADER, |rs[i].raw|);
    }
  }

  /** A new root directory in which a name of 16354 bytes is created: the 16355 bytes of the
      name start at offset 29 and end on a block boundary, and a scan does not find it. */
  lemma LongNameIsLost(name: seq<byte>, junk: Junk)
    requires IsName(name) && |name| == 16354 && junk(21) == []
    ensures var rs := [Make(DOT, 0), Make(DOTDOT, 0), Make(name, 1)];
            && Offset(rs, 2) + HEADER == 29 && Lookup(rs, name) == 1
            && Lookup(SeenAll(rs, junk), name) == -ENOENT
  {
    hide Seen, CString;
    var rs := [Make(DOT, 0), Make(DOTDOT, 0), Make(name, 1)];
    assert Offset(rs, 0) == 0;
    OffsetStep(rs, 0);
    OffsetStep(rs, 1);
    MadeLabel(DOT, 0);
    MadeLabel(DOTDOT, 0);
    MadeLabel(name, 1);
    var ts := SeenAll(rs, junk);
    forall i | 0 <= i < 2 ensures ts[i] == rs[i] {
      SeenExactly(rs[i], Offset(rs, i), junk(Offset(rs, i)));
    }
    LongLabel(name);
    assert forall i :: 0 <= i < 3 ==> Label(ts[i]) != name;
  }

  lemma LongLabel(name: seq<byte>)
    requires |name| == 16354
    ensures |Label(Seen(Make(name, 1), 21, []))| <= 8163
  {
    var r := Make(name, 1);
    CopiedInRange(29, 16355);
    assert Copied(29, 16355) == 8163;
    var raw := Seen(r, 21, []).raw;
    assert raw[8163] == Memory([], 16355)[8163] == 0;
    ShortLabel(raw, 8163);
  }

  lemma {:induction false} ShortLabel(raw: seq<byte>, k: nat)
    requires k < |raw| && raw[k] == 0
    ensures |CString(raw)| <= k
  {
    if k > 0 && raw[0] != 0 {
      ShortLabel(raw[1..], k - 1);
    }
  }

  // ------------------------------------------------------- where a new record goes

  /** The offset at which testfs_add_dirent wants the record. */
  function Room(rs: seq<Record>, name: seq<byte>): int {
    Offset(rs, Vacancy(rs, |name| + 1))
  }

  /** testfs_write_dirent takes the offset as an int: where that is not negative, the record
      goes to its place if and only if the offset is below 2^31. */
  lemma PlacedExactly(rs: seq<Record>, name: seq<byte>, nr: int)
    requires AllWellFormed(rs) && IsName(name) && nr >= 0 && IsWord(nr) && 0 <= Int32(Room(rs, name))
    ensures Int32(Room(rs, name)) <= |EncodeAll(rs)| && AllWellFormed(Add(rs, name, nr))
    ensures Overwrite(EncodeAll(rs), Int32(Room(rs, name)), Encode(Make(name, nr))) == EncodeAll(Add(rs, name, nr))
            <==> Room(rs, name) < 0x8000_0000
  {
    hide EncodeAll, Encode, Offset, Vacancy, AllWellFormed, Int32;
    var p, r := Vacancy(rs, |name| + 1), Make(name, nr);
    var off, e := Offset(rs, p), Encode(r);
    RecordAt(rs, p);
    WrappedDown(off);
    AddedBytes(rs, name, nr);
    if off >= 0x8000_0000 {
      WrittenElsewhere(EncodeAll(rs), Int32(off), off, e);
      if p < |rs| {
        TombstoneStays(rs, p, r);
      }
    }
  }

  lemma WrappedDown(x: int)
    requires 0 <= x && 0 <= Int32(x)
    ensures if x < 0x8000_0000 then Int32(x) == x else Int32(x) + 0x1_0000_0000 <= x
  {
  }

  lemma AddedBytes(rs: seq<Record>, name: seq<byte>, nr: int)
    requires AllWellFormed(rs) && IsName(name) && nr >= 0 && IsWord(nr)
    ensures var r := Make(name, nr);
            && WellFormed(r) && AllWellFormed(Add(rs, name, nr)) && 0 <= Room(rs, name) <= |EncodeAll(rs)|
            && EncodeAll(Add(rs, name, nr)) == Overwrite(EncodeAll(rs), Room(rs, name), Encode(r))
  {
    hide EncodeAll, Encode, Offset;
    var p, r := Vacancy(rs, |name| + 1), Make(name, nr);
    RecordAt(rs, p);
    if p < |rs| {
      OverwriteRecord(rs, p, r);
    } else {
      AppendRecord(rs, r);
    }
  }

  /** A chunk that ends before `off` changes nothing from there on. */
  lemma WrittenElsewhere(b: seq<byte>, at: int, off: int, chunk: seq<byte>)
    requires 0 <= at && at + |chunk| <= off <= |b|
    ensures |Overwrite(b, at, chunk)| == |b| && Overwrite(b, at, chunk)[off..] == b[off..]
    ensures off == |b| && chunk != [] ==> |Overwrite(b, off, chunk)| > |b|
  {
  }

  /** A live record is not what was at the place of a tombstone. */
  lemma TombstoneStays(rs: seq<Record>, p: int, r: Record)
    requires AllWellFormed(rs) && 0 <= p < |rs| && !Live(rs[p]) && Live(r) && WellFormed(r) && |r.raw| == |rs[p].raw|
    ensures Offset(rs, p) <= |EncodeAll(rs)|
    ensures |Overwrite(EncodeAll(rs), Offset(rs, p), Encode(r))| == |EncodeAll(rs)|
    ensures Overwrite(EncodeAll(rs), Offset(rs, p), Encode(r))[Offset(rs, p)..] != EncodeAll(rs)[Offset(rs, p)..]
  {
    hide EncodeAll, Encode, Offset, AllWellFormed;
    var b, off, n := EncodeAll(rs), Offset(rs, p), Length(r);
    RecordAt(rs, p);
    WellFormedAt(rs, p);
    var b' := Overwrite(b, off, Encode(r));
    assert b'[off..][..n] == Encode(r);
    assert b[off..][..n] == Encode(rs[p]);
    EncodeApart(r, rs[p]);
  }

  lemma EncodeApart(r: Record, t: Record)
    requires WellFormed(r) && WellFormed(t) && r.inode != t.inode
    ensures Encode(r) != Encode(t)
  {
    hide Le32, OfLe32;
    Le32RoundTrip(r.inode);
    Le32RoundTrip(t.inode);
    assert Encode(r)[4..8] == Le32(r.inode) && Encode(t)[4..8] == Le32(t.inode);
  }

  /** A directory with two names of 2^30 bytes: for a third name the offset becomes negative. */
  lemma FullDirectory(x: seq<byte>, y: seq<byte>, name: seq<byte>)
    requires |x| == |y| == 0x4000_0000
    ensures var rs := [Make(DOT, 0), Make(DOTDOT, 0), Make(x, 1), Make(y, 2)];
            Room(rs, name) == 0x8000_0000 + 39 && Int32(Room(rs, name)) < 0
  {
    hide Int32;
    var rs := [Make(DOT, 0), Make(DOTDOT, 0), Make(x, 1), Make(y, 2)];
    assert Vacancy(rs, |name| + 1) == 4;
    StartsAtZero(rs);
    hide Offset;
    OffsetStep(rs, 0);
    OffsetStep(rs, 1);
    OffsetStep(rs, 2);
    OffsetStep(rs, 3);
    assert Offset(rs, 4) == 0x8000_0027;
    Negative();
  }

  lemma Negative()
    ensures Int32(0x8000_0027) < 0
  {
  }

  // ------------------------------------------------------------------ the directory

  /** The contents of a directory's file. */
  class Directory {
    var data: seq<byte>
    ghost var records: seq<Record>

    ghost predicate Valid()
      reads this
    {
      AllWellFormed(records) && data == EncodeAll(records)
    }

    constructor ()
      ensures Valid() && records == []
    {
      data, records := [], [];
    }

    /** testfs_next_dirent: the record at the offset as a scan sees it, or none at the end
        of the file. The inode number, the length and the next offset are always right. */
    method NextDirent(offset: int, junk: seq<byte>, ghost i: int) returns (found: bool, d: Record, next: int)
      requires Valid() && 0 <= i <= |records| && offset == Offset(records, i)
      ensures found <==> i < |records|
      ensures found ==> d == Seen(records[i], Offset(records, i), junk) && next == Offset(records, i + 1)
      ensures found ==> d.inode == records[i].inode && |d.raw| == |records[i].raw|
      ensures !found ==> offset == |data|
    {
      hide EncodeAll, Offset, ReadRecord, Encode, Seen;
      RecordAt(records, i);
      d, next := Record(INVALID_INODE_NR, []), offset;
      found := offset < |data|;
      if found {
        ReadsBack(data, offset, records[i], junk);
        SeenKeeps(records[i], offset, junk);
        OffsetStep(records, i);
        d := ReadRecord(data, offset, junk);
        next := offset + HEADER + OfLe32(data[offset..offset + 4]);
      }
    }

    /** testfs_dir_name_to_inode_nr */
    method NameToInode(name: seq<byte>, junk: Junk) returns (ret: int)
      requires Valid()
      ensures ret == Lookup(SeenAll(records, junk), name)
      ensures AllWhole(records) ==> ret == if name in Entries(records) then Entries(records)[name] else -ENOENT
    {
      hide EncodeAll, Offset, Entries, AllWellFormed, SeenAll, Seen, AllWhole, Label, Find, CString;
      LookupIsGet(records, name);
      WholeIsSeen(records, junk);
      SeenLength(records, junk);
      ghost var ts := SeenAll(records, junk);
      ret := -ENOENT;
      var offset := 0;
      ghost var i := 0;
      StartsAtZero(records);
      while ret < 0
        invariant 0 <= i <= |records| && offset == Offset(records, i)
        invariant ret < 0 ==> ret == -ENOENT && i <= Find(ts, name)
        invariant ret >= 0 ==> ret == Lookup(ts, name)
        decreases |records| - i, -ret
      {
        var found, d, next := NextDirent(offset, junk(offset), i);
        if !found {
          break;
        }
        SeenAt(records, junk, i);
        offset := next;
        i := i + 1;
        if d.inode < 0 || Label(d) != name {
          continue;
        }
        ret := d.inode;
      }
    }

    /** testfs_find_dirent: inode numbers are always seen right. */
    method FindDirent(nr: int, junk: Junk) returns (found: bool, d: Record)
      requires Valid()
      ensures found <==> FindInode(records, nr) < |records|
      ensures found ==> d == SeenAll(records, junk)[FindInode(records, nr)]
    {
      hide EncodeAll, Offset, AllWellFormed, SeenAll, Seen;
      SeenLength(records, junk);
      StartsAtZero(records);
      var offset := 0;
      ghost var i := 0;
      found, d := true, Record(INVALID_INODE_NR, []);
      while found
        invariant 0 <= i <= FindInode(records, nr) && offset == Offset(records, i)
        invariant !found ==> i == |records|
        decreases |records| - i, if found then 1 else 0
      {
        var next;
        found, d, next := NextDirent(offset, junk(offset), i);
        if found {
          SeenAt(records, junk, i);
          if d.inode == nr {
            return;
          }
          offset := next;
          i := i + 1;
        }
      }
    }

    /** A write of one record over another of the same length, or at the end. */
    method WriteRecord(r: Record, offset: int, ghost i: int)
      requires Valid() && WellFormed(r) && 0 <= i <= |records| && offset == Offset(records, i)
      requires i < |records| ==> |records[i].raw| == |r.raw|
      modifies this
      ensures Valid() && records == if i < |old(records)| then old(records)[i := r] else old(records) + [r]
    {
      hide Offset, Encode;
      RecordAt(records, i);
      if i < |records| {
        OverwriteRecord(records, i, r);
      } else {
        AppendRecord(records, r);
      }
      data := Overwrite(data, offset, Encode(r));
      records := if i < |records| then records[i := r] else records + [r];
    }

    /** The scan of testfs_add_dirent: the name is taken, or there is a place for it. */
    method FindRoom(name: seq<byte>, junk: Junk) returns (taken: bool, found: bool, p_offset: int, ghost p: int)
      requires Valid()
      ensures var ts, v := SeenAll(records, junk), Vacancy(records, |name| + 1);
              && (taken <==> Find(ts, name) < v)
              && (!taken ==> p == v && p_offset == Offset(records, p) && (found <==> v < |records|))
    {
      hide EncodeAll, Offset, AllWellFormed, SeenAll, Seen, Label, Find, Vacancy, CString;
      SeenLength(records, junk);
      StartsAtZero(records);
      ghost var ts := SeenAll(records, junk);
      var offset := 0;
      ghost var i := 0;
      taken, found, p_offset, p := false, false, 0, 0;
      while !taken && !found
        invariant 0 <= i <= |records| && offset == Offset(records, i)
        invariant 0 <= p <= |records| && p_offset == Offset(records, p)
        invariant !taken && !found ==> i <= Find(ts, name) && i <= Vacancy(records, |name| + 1)
        invariant found ==> !taken && p == Vacancy(records, |name| + 1) < |records| && p <= Find(ts, name)
        invariant taken ==> Find(ts, name) < Vacancy(records, |name| + 1)
        decreases |records| - i, if found || taken then 0 else 1
      {
        p_offset, p := offset, i;
        var more, d, next := NextDirent(offset, junk(offset), i);
        if !more {
          break;
        }
        SeenAt(records, junk, i);
        offset := next;
        i := i + 1;
        if d.inode >= 0 && Label(d) == name {
          taken := true;
          continue;
        }
        if d.inode >= 0 || |d.raw| != |name| + 1 {
          continue;
        }
        found := true;
      }
    }

    /** testfs_write_dirent. The offset arrives as an int: if that is negative the call does
        not come back, since no block has a negative number (`lost`). */
    method WriteDirent(name: seq<byte>, nr: int, offset: int, ghost i: int) returns (lost: bool)
      requires Valid() && IsName(name) && nr >= 0 && IsWord(nr)
      requires i == Vacancy(records, |name| + 1) && offset == Offset(records, i)
      modifies this
      ensures lost <==> Int32(offset) < 0
      ensures lost ==> unchanged(this)
      ensures !lost ==> Int32(offset) <= |old(data)| && data == Overwrite(old(data), Int32(offset), Encode(Make(name, nr)))
      ensures !lost ==> (data == EncodeAll(Add(old(records), name, nr)) <==> offset < 0x8000_0000)
      ensures offset < 0x8000_0000 ==> !lost && Valid() && records == Add(old(records), name, nr)
    {
      hide EncodeAll, Offset, Encode, Vacancy, Add, AllWellFormed, Int32;
      AddedBytes(records, name, nr);
      RecordAt(records, i);
      var at := Int32(offset);
      lost := at < 0;
      if !lost {
        PlacedExactly(records, name, nr);
        data := Overwrite(data, at, Encode(Make(name, nr)));
        records := Add(records, name, nr);
      }
    }

    /** testfs_add_dirent: -EEXIST exactly if a scan sees the name live before the first
        tombstone of the right length; otherwise the record goes there or to the end, where
        the write may fail with `err` and change nothing. From an offset of 2^31 on it does
        not get to its place. */
    method AddDirent(name: seq<byte>, nr: int, junk: Junk, err: int) returns (ret: int, lost: bool)
      requires Valid() && IsName(name) && nr >= 0 && IsWord(nr) && err <= 0
      modifies this
      ensures var rs, p := old(records), Vacancy(old(records), |name| + 1);
              var at := Int32(Room(rs, name));
              && (lost <==> Find(SeenAll(rs, junk), name) >= p && at < 0)
              && (lost ==> unchanged(this))
              && (!lost ==>
                    if Find(SeenAll(rs, junk), name) < p then ret == -EEXIST && unchanged(this)
                    else if p == |rs| && err < 0 then ret == err && unchanged(this)
                    else
                      && ret == Int32(HEADER + |name| + 1)
                      && 0 <= at <= |old(data)| && data == Overwrite(old(data), at, Encode(Make(name, nr)))
                      && (data == EncodeAll(Add(rs, name, nr)) <==> Room(rs, name) < 0x8000_0000)
                      && (Room(rs, name) < 0x8000_0000 ==> Valid() && records == Add(rs, name, nr)))
      ensures old(AllWhole(records) && Unique(records)) && err == 0 && Room(old(records), name) < 0x8000_0000 ==>
                && (name !in old(Entries(records)) ==>
                      Unique(records) && Entries(records) == old(Entries(records))[name := nr])
                && (Unique(records) <==>
                      name !in old(Entries(records)) || Find(old(records), name) < Vacancy(old(records), |name| + 1))
    {
      hide EncodeAll, Offset, Entries, Unique, AllWellFormed, SeenAll, AllWhole, Label, Find, Vacancy, CString, Add, Encode, Int32;
      WholeIsSeen(records, junk);
      AddedToMap(records, name, nr);
      Converts();
      ret := 0;
      var taken, found, offset; ghost var p;
      taken, found, offset, p := FindRoom(name, junk);
      if taken {
        return -EEXIST, false;
      }
      if !found && err < 0 && Int32(offset) >= 0 {
        return err, false;
      }
      lost := WriteDirent(name, nr, offset, p);
      ret := Int32(HEADER + |name| + 1);
    }

    /** testfs_remove_dirent_allowed, on a directory */
    method RemoveAllowed(junk: Junk) returns (ret: int)
      requires Valid()
      ensures ret == if OnlyDots(SeenAll(records, junk)) then 0 else -ENOTEMPTY
    {
      hide EncodeAll, Offset, AllWellFormed, SeenAll, Seen, Label, CString;
      SeenLength(records, junk);
      StartsAtZero(records);
      ghost var ts := SeenAll(records, junk);
      var offset := 0;
      ghost var i := 0;
      ret := 0;
      while ret == 0
        invariant 0 <= i <= |records| && offset == Offset(records, i)
        invariant ret == 0 ==> forall j :: 0 <= j < i ==> !Live(ts[j]) || Dotted(Label(ts[j]))
        invariant ret != 0 ==> ret == -ENOTEMPTY && !OnlyDots(ts)
        decreases |records| - i, if ret == 0 then 1 else 0
      {
        var more, d, next := NextDirent(offset, junk(offset), i);
        if !more {
          break;
        }
        SeenAt(records, junk, i);
        offset := next;
        i := i + 1;
        if d.inode < 0 || Label(d) == DOT || Label(d) == DOTDOT {
          continue;
        }
        ret := -ENOTEMPTY;
      }
    }

    /** The search of testfs_remove_dirent: the first record seen live under the name. */
    method FindEntry(name: seq<byte>, junk: Junk) returns (found: bool, d: Record, p_offset: int, ghost i: int)
      requires Valid()
      ensures i == Find(SeenAll(records, junk), name) && (found <==> i < |records|)
      ensures found ==> d == SeenAll(records, junk)[i] && d.inode >= 0 && p_offset == Offset(records, i)
      ensures found ==> |d.raw| == |records[i].raw|
    {
      hide EncodeAll, Offset, AllWellFormed, SeenAll, Seen, Label, Find, CString;
      SeenLength(records, junk);
      StartsAtZero(records);
      ghost var ts := SeenAll(records, junk);
      var offset := 0;
      i := 0;
      while true
        invariant 0 <= i <= Find(ts, name) && offset == Offset(records, i)
        decreases |records| - i
      {
        p_offset := offset;
        found, d, offset := NextDirent(offset, junk(offset), i);
        if !found {
          return;
        }
        SeenAt(records, junk, i);
        if d.inode >= 0 && Label(d) == name {
          return;
        }
        i := i + 1;
      }
    }

    /** testfs_remove_dirent; `dirs` are the directories of the file system. The record is
        written back as it was seen, with the inode number of a tombstone. */
    method RemoveDirent(name: seq<byte>, dirs: map<int, Directory>, junk: Junk, below: Junk) returns (ret: int)
      requires Valid() && forall k :: k in dirs ==> k >= 0 && dirs[k].Valid()
      modifies this
      ensures Valid()
      ensures Dotted(name) ==> ret == -EINVAL
      ensures var nr := Lookup(SeenAll(old(records), junk), name);
              !Dotted(name) ==>
                ret == if nr in dirs && !OnlyDots(SeenAll(old(dirs[nr].records), below)) then -ENOTEMPTY else nr
      ensures ret < 0 ==> records == old(records)
      ensures ret >= 0 ==>
                var ts := SeenAll(old(records), junk);
                Find(ts, name) < |ts| && records == old(records)[Find(ts, name) := Record(INVALID_INODE_NR, ts[Find(ts, name)].raw)]
      ensures ret >= 0 && old(AllWhole(records) && Unique(records)) ==>
                Unique(records) && Entries(records) == old(Entries(records)) - {name}
    {
      hide EncodeAll, Offset, Entries, Unique, AllWellFormed, SeenAll, AllWhole, Label, Find, CString, OnlyDots;
      WholeIsSeen(records, junk);
      RemovedFromMap(records, name);
      SeenLength(records, junk);
      if name == DOT || name == DOTDOT {
        return -EINVAL;
      }
      var found, d, p_offset; ghost var i;
      found, d, p_offset, i := FindEntry(name, junk);
      if !found {
        return -ENOENT;
      }
      if d.inode in dirs {
        ret := dirs[d.inode].RemoveAllowed(below);
        if ret < 0 {
          return;
        }
      }
      WellFormedAt(records, i);
      WriteRecord(Record(INVALID_INODE_NR, d.raw), p_offset, i);
      ret := d.inode;
    }
  }

  lemma SeenAt(rs: seq<Record>, junk: Junk, i: int)
    requires 0 <= i < |rs|
    ensures |SeenAll(rs, junk)| == |rs| && SeenAll(rs, junk)[i] == Seen(rs[i], Offset(rs, i), junk(Offset(rs, i)))
  {
  }

  lemma Converts()
    ensures forall x :: 0 <= x < 0x8000_0000 ==> Int32(x) == x
  {
  }

  lemma SeenKeeps(r: Record, off: int, junk: seq<byte>)
    requires 0 <= off
    ensures Seen(r, off, junk).inode == r.inode && |Seen(r, off, junk).raw| == |r.raw|
  {
    SeenExactly(r, off, junk);
  }

  lemma SeenLength(rs: seq<Record>, junk: Junk)
    ensures |SeenAll(rs, junk)| == |rs| && forall i :: 0 <= i < |rs| ==> SeenAll(rs, junk)[i].inode == rs[i].inode
  {
    forall i | 0 <= i < |rs| ensures SeenAll(rs, junk)[i].inode == rs[i].inode {
      SeenKeeps(rs[i], Offset(rs, i), junk(Offset(rs, i)));
    }
  }

  lemma AddedToMap(rs: seq<Record>, name: seq<byte>, nr: int)
    requires nr >= 0 && IsName(name)
    ensures Unique(rs) && name !in Entries(rs) ==>
              && Find(rs, name) >= Vacancy(rs, |name| + 1)
              && Unique(Add(rs, name, nr)) && Entries(Add(rs, name, nr)) == Entries(rs)[name := nr]
    ensures Unique(rs) ==>
              (Unique(if Find(rs, name) < Vacancy(rs, |name| + 1) then rs else Add(rs, name, nr))
               <==> name !in Entries(rs) || Find(rs, name) < Vacancy(rs, |name| + 1))
  {
    if Unique(rs) {
      AddedIsUnique(rs, name, nr);
      if name !in Entries(rs) {
        AddIsInsert(rs, name, nr);
      }
    }
  }

  lemma AddedWhere(rs: seq<Record>, name: seq<byte>, nr: int)
    ensures var p := Vacancy(rs, |name| + 1);
            Add(rs, name, nr) == if p < |rs| then rs[p := Make(name, nr)] else rs + [Make(name, nr)]
  {
  }

  lemma RemovedFromMap(rs: seq<Record>, name: seq<byte>)
    ensures Unique(rs) ==> Unique(Remove(rs, name)) && Entries(Remove(rs, name)) == Entries(rs) - {name}
  {
    if Unique(rs) {
      RemoveIsDelete(rs, name);
    }
  }

  lemma WellFormedAt(rs: seq<Record>, i: int)
    requires AllWellFormed(rs) && 0 <= i < |rs|
    ensures WellFormed(rs[i])
  {
  }

  lemma StartsAtZero(rs: seq<Record>)
    ensures Offset(rs, 0) == 0
  {
  }
}
