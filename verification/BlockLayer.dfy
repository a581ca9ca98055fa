/** Block allocation for inodes (fs/super.c, fs/inode.c) and the lookup and
    allocation of logical blocks (fs/read_write.c). */
module BlockLayer {
  import opened Words
  import BitWords
  import opened Bitmaps
  import opened Store

  /** The first `n` data blocks. */
  ghost function DataArea(n: nat): (area: set<int>)
    ensures |area| == n
    ensures forall b :: b in area <==> DATA_BLOCKS_START <= b < DATA_BLOCKS_START + n
  {
    if n == 0 then {} else DataArea(n - 1) + {DATA_BLOCKS_START + n - 1}
  }

  lemma {:induction false} SubsetSize<T>(a: set<T>, b: set<T>)
    requires a <= b
    ensures |a| <= |b|
    ensures |a| == |b| ==> a == b
  {
    if a != {} {
      var x :| x in a;
      SubsetSize(a - {x}, b - {x});
      if |a| == |b| { assert a == (a - {x}) + {x} && b == (b - {x}) + {x}; }
    }
  }

  /** A set of data blocks is full exactly when it has as many members as there
      are bits in the free map. */
  lemma FullExactly(used: set<int>, n: nat)
    requires forall b :: b in used ==> DATA_BLOCKS_START <= b < DATA_BLOCKS_START + n
    ensures |used| >= n <==> forall b :: DATA_BLOCKS_START <= b < DATA_BLOCKS_START + n ==> b in used
  {
    var all := DataArea(n);
    assert used <= all;
    SubsetSize(used, all);
    if forall b :: DATA_BLOCKS_START <= b < DATA_BLOCKS_START + n ==> b in used {
      assert used == all;
    }
  }

  /** The physical block numbers of a set of free-map indices. */
  ghost function Shifted(bits: set<int>): (u: set<int>)
    ensures forall b :: b in u <==> InDataArea(b) && b - DATA_BLOCKS_START in bits
  {
    set b | DATA_BLOCKS_START <= b < DATA_BLOCKS_START + NR_FREEMAP_BITS && InDataArea(b) && b - DATA_BLOCKS_START in bits
  }

  lemma ShiftedChanges(bits: set<int>, i: int)
    requires 0 <= i < NR_FREEMAP_BITS
    ensures Shifted(bits + {i}) == Shifted(bits) + {i + DATA_BLOCKS_START}
    ensures Shifted(bits - {i}) == Shifted(bits) - {i + DATA_BLOCKS_START}
  {
  }

  lemma FullBits(bits: set<int>)
    ensures |Shifted(bits)| >= NR_FREEMAP_BITS <==> forall i :: 0 <= i < NR_FREEMAP_BITS ==> i in bits
  {
    FullExactly(Shifted(bits), NR_FREEMAP_BITS);
    if forall b :: InDataArea(b) ==> b in Shifted(bits) {
      forall i | 0 <= i < NR_FREEMAP_BITS ensures i in bits {
        assert InDataArea(i + DATA_BLOCKS_START);
      }
    }
  }

  /** testfs_read_block indexes the indirect block past its end for this block. */
  predicate OutOfRange(n: Inode, l: int) {
    NR_DIRECT + NR_INDIRECT <= l && n.dindirect == 0 && n.indirect != 0
  }

  lemma ResolveUnfolds(s: State, ino: int, l: int)
    requires ino in s.inodes && 0 <= l < MAX_FILE_BLOCKS
    ensures l < NR_DIRECT ==> Resolve(s, ino, l) == s.inodes[ino].direct[l]
    ensures NR_DIRECT <= l < NR_DIRECT + NR_INDIRECT ==>
              Resolve(s, ino, l) == Look(s.disk, s.inodes[ino].indirect, l - NR_DIRECT)
    ensures NR_DIRECT + NR_INDIRECT <= l ==>
              var d := l - NR_DIRECT - NR_INDIRECT;
              && Ptr(s, Place(ino, DoubleEntry(d / NR_INDIRECT))) == Look(s.disk, s.inodes[ino].dindirect, d / NR_INDIRECT)
              && Resolve(s, ino, l) == Look(s.disk, Ptr(s, Place(ino, DoubleEntry(d / NR_INDIRECT))), d % NR_INDIRECT)
  {
  }

  lemma BeyondTheLimit(s: State, ino: int, l: int)
    requires l >= MAX_FILE_BLOCKS
    ensures Resolve(s, ino, l) == 0
  {
  }

  /** The pointers of an inode are 0 or name allocated blocks. */
  lemma PointersAreBlocks(s: State, owner: map<int, Place>, ino: int)
    requires Owned(s, owner) && ino in s.inodes
    ensures s.inodes[ino].indirect == 0 || (s.inodes[ino].indirect in s.used && s.inodes[ino].indirect > 0)
    ensures s.inodes[ino].dindirect == 0 || (s.inodes[ino].dindirect in s.used && s.inodes[ino].dindirect > 0)
    ensures forall p :: Ptr(s, p) == 0 || (Ptr(s, p) in s.used && Ptr(s, p) > 0)
  {
    assert Ptr(s, Place(ino, Indirect)) == s.inodes[ino].indirect;
    assert Ptr(s, Place(ino, Double)) == s.inodes[ino].dindirect;
  }

  lemma BlankTable(s: State)
    requires s.used == {} && s.disk == map[] && forall k :: k in s.inodes ==> s.inodes[k] == EmptyInode()
    ensures Owned(s, map[]) && forall p :: Ptr(s, p) == 0
  {
    forall ino ensures BlocksOf(map[], ino) == {} {
    }
  }

  class FileSystem {
    var disk: map<int, Block>
    var inodes: map<int, Inode>
    const blockFreemap: Bitmap
    var usedBlockCount: int
    const maxFsBlocks: int
    /** The word that an out-of-range index into a block buffer happens to find. */
    const stray: int
    ghost var owner: map<int, Place>

    ghost function Used(): (u: set<int>)
      reads blockFreemap.v
    {
      Shifted(blockFreemap.Bits())
    }

    ghost predicate Wired()
      reads this`usedBlockCount, blockFreemap.v
    {
      && blockFreemap.Valid() && blockFreemap.nbits == NR_FREEMAP_BITS
      && usedBlockCount == |Used()|
    }

    ghost function S(): State
      reads this`disk, this`inodes, blockFreemap.v
    {
      State(disk, inodes, Used())
    }

    /** Blocks that can be allocated at the same time. */
    function Capacity(): int {
      Min(maxFsBlocks, NR_FREEMAP_BITS)
    }

    ghost predicate Valid()
      reads this, blockFreemap.v
    {
      && Wired() && Owned(S(), owner) && Used() <= disk.Keys
    }

    /** A freshly made file system: every inode slot blank, every data block free. */
    constructor (maxBlocks: int, strayWord: int, table: set<int>)
      ensures Valid() && maxFsBlocks == maxBlocks && stray == strayWord
      ensures disk == map[] && Used() == {} && owner == map[] && fresh(blockFreemap.v)
      ensures inodes.Keys == table
      ensures forall k :: k in inodes ==> inodes[k] == EmptyInode()
    {
      blockFreemap := new Bitmap(NR_FREEMAP_BITS);
      disk, owner := map[], map[];
      inodes := map k | k in table :: EmptyInode();
      usedBlockCount, maxFsBlocks, stray := 0, maxBlocks, strayWord;
      new;
      assert Used() == {};
      BlankTable(S());
    }

    // ------------------------------------------------------ fs/super.c, fs/inode.c

    method AllocBlock() returns (r: int)
      requires Wired()
      modifies this`usedBlockCount, blockFreemap.v
      ensures Wired()
      ensures r < 0 <==> |old(Used())| >= Capacity()
      ensures r < 0 <==> |old(Used())| >= maxFsBlocks || |old(Used())| >= NR_FREEMAP_BITS
      ensures r < 0 ==> r == -ENOSPC && Used() == old(Used())
      ensures r >= 0 ==> InDataArea(r) && r !in old(Used()) && Used() == old(Used()) + {r}
      ensures r >= 0 ==> forall b :: DATA_BLOCKS_START <= b < r ==> b in old(Used())
    {
      hide Bitmap.Bits, Bitmap.Valid, BitWords.Number, BitWords.Pow2;
      FullBits(blockFreemap.Bits());
      if usedBlockCount >= maxFsBlocks {
        return -ENOSPC;
      }
      var ok, index := blockFreemap.Alloc();
      if !ok {
        return -ENOSPC;
      }
      r := DATA_BLOCKS_START + index;
      ShiftedChanges(old(blockFreemap.Bits()), index);
      usedBlockCount := usedBlockCount + 1;
    }

    method FreeBlock(b: int)
      requires Wired() && b in Used()
      modifies this`disk, this`usedBlockCount, blockFreemap.v
      ensures Wired()
      ensures disk == old(disk)[b := ZeroBlock()]
      ensures Used() == old(Used()) - {b}
    {
      hide Bitmap.Bits, Bitmap.Valid;
      disk := disk[b := ZeroBlock()];
      blockFreemap.Unmark(b - DATA_BLOCKS_START);
      ShiftedChanges(old(blockFreemap.Bits()), b - DATA_BLOCKS_START);
      usedBlockCount := usedBlockCount - 1;
    }

    method AllocBlockForInode(ino: int) returns (r: int)
      requires Wired() && ino in inodes
      modifies this`inodes, this`usedBlockCount, blockFreemap.v
      ensures Wired()
      ensures r < 0 <==> |old(Used())| >= Capacity()
      ensures r < 0 ==> r == -ENOSPC && S() == old(S())
      ensures r >= 0 ==> InDataArea(r) && r !in old(Used()) && Used() == old(Used()) + {r}
      ensures r >= 0 ==>
                inodes == old(inodes)[ino := old(inodes)[ino].(blockCount := old(inodes)[ino].blockCount + 1)]
    {
      r := AllocBlock();
      if r >= 0 {
        inodes := inodes[ino := inodes[ino].(blockCount := inodes[ino].blockCount + 1)];
      }
    }

    method FreeBlockFromInode(ino: int, b: int)
      requires Wired() && ino in inodes && (b != 0 ==> b in Used())
      modifies this`disk, this`inodes, this`usedBlockCount, blockFreemap.v
      ensures Wired()
      ensures b == 0 ==> S() == old(S())
      ensures b != 0 ==>
                && disk == old(disk)[b := ZeroBlock()] && Used() == old(Used()) - {b}
                && inodes == old(inodes)[ino := old(inodes)[ino].(blockCount := old(inodes)[ino].blockCount - 1)]
    {
      if b == 0 {
        return;
      }
      FreeBlock(b);
      inodes := inodes[ino := inodes[ino].(blockCount := inodes[ino].blockCount - 1)];
    }

    // ------------------------------------------------------------ fs/read_write.c

    function Index(blk: Block, i: int): int {
      if 0 <= i < NR_INDIRECT then Word(blk, i) else stray
    }

    /** The pointer walk of testfs_read_block. It finds the intended block unless
        an index runs past the indirect block and the word found there is not zero. */
    method LookupBlock(ino: int, l: int) returns (phys: int)
      requires Valid() && ino in inodes && 0 <= l
      requires l < MAX_FILE_BLOCKS || stray == 0
      ensures phys == if OutOfRange(inodes[ino], l) then stray else Resolve(S(), ino, l)
      ensures phys == Resolve(S(), ino, l) <==> stray == 0 || !OutOfRange(inodes[ino], l)
    {
      hide Word, Ptr, Owned, Resolve;
      var n := inodes[ino];
      if l < MAX_FILE_BLOCKS {
        ResolveUnfolds(S(), ino, l);
      } else {
        BeyondTheLimit(S(), ino, l);
      }
      PointersAreBlocks(S(), owner, ino);
      phys := 0;
      if l < NR_DIRECT {
        phys := n.direct[l];
      } else {
        var m := l - NR_DIRECT;
        if m >= NR_INDIRECT && n.dindirect > 0 {
          var i, j := (m - NR_INDIRECT) / NR_INDIRECT, (m - NR_INDIRECT) % NR_INDIRECT;
          phys := Index(disk[n.dindirect], i);
          if phys > 0 {
            phys := Index(disk[phys], j);
          }
        } else if n.indirect > 0 {
          phys := Index(disk[n.indirect], m);
        }
      }
    }

    /** What the device holds; a block that was never written holds zeros. */
    function OnDevice(b: int): Block
      reads this`disk
    {
      if b > 0 && b in disk then disk[b] else ZeroBlock()
    }

    /** testfs_read_block: the logical block, zero for a hole; where the lookup runs past
        the indirect block, whatever block the word found there names. */
    method ReadBlock(ino: int, l: int) returns (phys: int, block: Block)
      requires Valid() && ino in inodes && 0 <= l
      requires l < MAX_FILE_BLOCKS || stray == 0
      ensures OutOfRange(inodes[ino], l) ==> phys == stray && block == OnDevice(stray)
      ensures stray == 0 || !OutOfRange(inodes[ino], l) ==>
                && phys == Resolve(S(), ino, l) && (phys != 0 ==> phys in disk && phys in owner)
                && block == FileBlock(S(), ino, l)
    {
      phys := LookupBlock(ino, l);
      if phys > 0 {
        block := OnDevice(phys);
      } else {
        block := ZeroBlock();
      }
    }
  }
}
