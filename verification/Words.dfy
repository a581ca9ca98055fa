/** Disk blocks and the 32-bit words stored in them (fs/testfs.h, fs/inode.h).
    A block is a run of bytes; an indirect block is the same bytes read as
    little-endian two's-complement words. */
module Words {
  type byte = x: int | 0 <= x < 256

  const BLOCK_SIZE: int := 8192
  const NR_DIRECT: int := 10
  const NR_INDIRECT: int := 2048
  const INT_MAX: int := 0x7fff_ffff

  type Block = b: seq<byte> | |b| == BLOCK_SIZE witness seq(BLOCK_SIZE, _ => 0)

  function Min(a: int, b: int): int { if a <= b then a else b }
  function Max(a: int, b: int): int { if a >= b then a else b }

  predicate IsWord(v: int) {
    -0x8000_0000 <= v < 0x8000_0000
  }

  /** Conversion to a 32-bit int, which wraps around. */
  function Int32(x: int): (v: int)
    ensures IsWord(v) && (IsWord(x) ==> v == x)
  {
    var y := x % 0x1_0000_0000;
    if y < 0x8000_0000 then y else y - 0x1_0000_0000
  }

  function Unsigned(v: int): (u: int)
    requires IsWord(v)
  {
    if v < 0 then v + 0x1_0000_0000 else v
  }

  function ZeroBlock(): (b: Block)
    ensures forall i :: 0 <= i < BLOCK_SIZE ==> b[i] == 0
  {
    seq(BLOCK_SIZE, _ => 0)
  }

  /** `((int *)block)[i]` */
  function Word(b: Block, i: int): (v: int)
    requires 0 <= i < NR_INDIRECT
    ensures IsWord(v)
  {
    var b0: int, b1: int, b2: int, b3: int := b[4 * i], b[4 * i + 1], b[4 * i + 2], b[4 * i + 3];
    var u := b0 + 0x100 * b1 + 0x1_0000 * b2 + 0x100_0000 * b3;
    if u < 0x8000_0000 then u else u - 0x1_0000_0000
  }

  /** `((int *)block)[i] = v` */
  function SetWord(b: Block, i: int, v: int): (b': Block)
    requires 0 <= i < NR_INDIRECT && IsWord(v)
  {
    var u := Unsigned(v);
    b[4 * i := u % 0x100]
     [4 * i + 1 := u / 0x100 % 0x100]
     [4 * i + 2 := u / 0x1_0000 % 0x100]
     [4 * i + 3 := u / 0x100_0000]
  }

  lemma WordOfSetWord(b: Block, i: int, v: int)
    requires 0 <= i < NR_INDIRECT && IsWord(v)
    ensures Word(SetWord(b, i, v), i) == v
    ensures forall j :: 0 <= j < NR_INDIRECT && j != i ==> Word(SetWord(b, i, v), j) == Word(b, j)
  {
    var u := Unsigned(v);
    var h := u / 0x100;
    assert u / 0x1_0000 == h / 0x100;
    assert u / 0x100_0000 == h / 0x1_0000;
  }

  lemma WordOfZero(i: int)
    requires 0 <= i < NR_INDIRECT
    ensures Word(ZeroBlock(), i) == 0
  {
  }

  /** memcpy(block + off, chunk, |chunk|) */
  function Splice(b: Block, off: int, chunk: seq<byte>): (b': Block)
    requires 0 <= off && off + |chunk| <= BLOCK_SIZE
    ensures forall k :: 0 <= k < BLOCK_SIZE ==>
              b'[k] == if off <= k < off + |chunk| then chunk[k - off] else b[k]
  {
    b[..off] + chunk + b[off + |chunk|..]
  }

  /** A 32-bit field of an on-disk structure. */
  function Le32(v: int): (b: seq<byte>)
    requires IsWord(v)
    ensures |b| == 4
  {
    var u := Unsigned(v);
    [u % 0x100, u / 0x100 % 0x100, u / 0x1_0000 % 0x100, u / 0x100_0000]
  }

  function OfLe32(b: seq<byte>): (v: int)
    requires |b| == 4
    ensures IsWord(v)
  {
    var b0: int, b1: int, b2: int, b3: int := b[0], b[1], b[2], b[3];
    var u := b0 + 0x100 * b1 + 0x1_0000 * b2 + 0x100_0000 * b3;
    if u < 0x8000_0000 then u else u - 0x1_0000_0000
  }

  lemma Le32RoundTrip(v: int)
    requires IsWord(v)
    ensures OfLe32(Le32(v)) == v
  {
    var u := Unsigned(v);
    var h := u / 0x100;
    assert u / 0x1_0000 == h / 0x100;
    assert u / 0x100_0000 == h / 0x1_0000;
  }

  // ------------------------------------------------------- what the bytes stand for

  /** The number that bytes stand for, the lowest first. */
  function LittleEndian(b: seq<byte>): int {
    if b == [] then 0 else b[0] + 0x100 * LittleEndian(b[1..])
  }

  lemma FourBytes(b: seq<byte>)
    requires |b| == 4
    ensures var b0: int, b1: int, b2: int, b3: int := b[0], b[1], b[2], b[3];
            LittleEndian(b) == b0 + 0x100 * b1 + 0x1_0000 * b2 + 0x100_0000 * b3
  {
    assert b[1..][1..] == b[2..] && b[2..][1..] == b[3..] && b[3..][1..] == [];
    var b1: int, b2: int, b3: int := b[1], b[2], b[3];
    assert LittleEndian(b[3..]) == b3;
    assert LittleEndian(b[2..]) == b2 + 0x100 * b3;
    assert LittleEndian(b[1..]) == b1 + 0x100 * b2 + 0x1_0000 * b3;
  }

  /** A field of four bytes is the number they stand for, as a signed word. */
  lemma FieldIsLittleEndian(v: int, b: seq<byte>)
    requires IsWord(v) && |b| == 4
    ensures LittleEndian(Le32(v)) == Unsigned(v)
    ensures Unsigned(OfLe32(b)) == LittleEndian(b)
  {
    FourBytes(b);
    FourBytes(Le32(v));
    var u := Unsigned(v);
    var h := u / 0x100;
    assert u / 0x1_0000 == h / 0x100;
    assert u / 0x100_0000 == h / 0x1_0000;
  }

  /** A word of a pointer block is at bytes 4i to 4i + 3, lowest first. */
  lemma WordIsLittleEndian(b: Block, i: int)
    requires 0 <= i < NR_INDIRECT
    ensures Unsigned(Word(b, i)) == LittleEndian(b[4 * i..4 * i + 4])
  {
    FourBytes(b[4 * i..4 * i + 4]);
  }

  /** Storing a word stores those four bytes and no others. */
  lemma SetWordBytes(b: Block, i: int, v: int)
    requires 0 <= i < NR_INDIRECT && IsWord(v)
    ensures LittleEndian(SetWord(b, i, v)[4 * i..4 * i + 4]) == Unsigned(v)
    ensures forall k :: 0 <= k < BLOCK_SIZE && !(4 * i <= k < 4 * i + 4) ==> SetWord(b, i, v)[k] == b[k]
  {
    WordOfSetWord(b, i, v);
    WordIsLittleEndian(SetWord(b, i, v), i);
  }

  /** The conversion drops a multiple of 2^32. */
  lemma Int32Wraps(x: int)
    ensures (x - Int32(x)) % 0x1_0000_0000 == 0 && Int32(INT_MAX + 1) == -INT_MAX - 1
  {
  }
}
