/** Whole runs of the file system: any sequence of writes and removals on any
    number of inodes, compared with ideal sparse files. */
module FileRuns {
  import opened Words
  import opened Store
  import opened Growth
  import opened Ranges
  import opened BlockLayer
  import opened FileWrites
  import opened WritePlan
  import opened Freeing
  import opened FreeTree
  import opened ReadWrite
  import opened Reading

  datatype Op =
    | Write(ino: int, start: int, data: seq<byte>)
    | Remove(ino: int)

  /** What an operation did: bytes stored at a position and the size after it, or all of
      a file removed. */
  datatype Effect =
    | Stored(ino: int, at: int, data: seq<byte>, size: int)
    | Removed(ino: int)

  /** What the source asks of a call: a block number that is not negative, a size that fits
      an int; and lookups that stay inside the indirect block unless a zero follows it. */
  predicate ValidOp(op: Op, inodes: map<int, Inode>, stray: int) {
    && op.ino in inodes
    && (op.Write? ==>
          && 0 <= op.start && 0 <= FirstBlock(op.start) && |op.data| <= INT_MAX
          && Guarded(stray, inodes[op.ino], FirstBlock(op.start), HighBlock(op.start, |op.data|)))
  }

  /** Byte `p` of file `k`: the last value stored there since the file was last removed,
      or zero. */
  function IdealByte(effects: seq<Effect>, k: int, p: int): byte {
    if effects == [] then 0 else
    var last := effects[|effects| - 1];
    match last
    case Stored(ino, at, data, _) =>
      if ino == k && at <= p < at + |data| then data[p - at] else IdealByte(effects[..|effects| - 1], k, p)
    case Removed(ino) =>
      if ino == k then 0 else IdealByte(effects[..|effects| - 1], k, p)
  }

  function IdealSize(effects: seq<Effect>, k: int): int {
    if effects == [] then 0 else
    var last := effects[|effects| - 1];
    if last.ino != k then IdealSize(effects[..|effects| - 1], k)
    else if last.Stored? then last.size else 0
  }

  predicate Touches(e: Effect, k: int, p: int) {
    e.ino == k && (e.Stored? ==> e.at <= p < e.at + |e.data|)
  }

  /** The ideal byte is decided by the last effect that touches it. */
  lemma {:induction false} LastTouchDecides(effects: seq<Effect>, k: int, p: int, i: int)
    requires -1 <= i < |effects|
    requires forall j :: i < j < |effects| ==> !Touches(effects[j], k, p)
    requires i >= 0 ==> Touches(effects[i], k, p)
    ensures IdealByte(effects, k, p) == if i >= 0 && effects[i].Stored? then effects[i].data[p - effects[i].at] else 0
  {
    if effects != [] && i < |effects| - 1 {
      LastTouchDecides(effects[..|effects| - 1], k, p, i);
    }
  }

  ghost predicate Agrees(s: State, effects: seq<Effect>) {
    && (forall k, p :: FileByte(s, k, p) == IdealByte(effects, k, p))
    && (forall k :: k in s.inodes ==> s.inodes[k].size == IdealSize(effects, k))
  }

  // ------------------------------------------------------------------- one operation

  /** What a write does to its file, told by the state before: the bytes it gets to store
      and the size, which grows with the clipped request also where not all of it was stored. */
  function WriteEffect(s: State, op: Op, room: int): Effect
    requires op.Write? && op.ino in s.inodes && 0 <= FirstBlock(op.start) && 0 <= room
  {
    var out, size := OutcomeOf(s, op.ino, op.start, |op.data|, room), s.inodes[op.ino].size;
    Stored(op.ino, Position(op.start), op.data[..Max(0, Min(out.stored, |op.data|))],
           if out.resized then Max(size, op.start + Clipped(op.start, |op.data|)) else size)
  }

  lemma AgreesAfterWrite(s: State, s': State, effects: seq<Effect>, op: Op, r: int, room: int)
    requires Agrees(s, effects) && op.Write? && Performed(s, s', op.ino, op.data, op.start, r, room)
    ensures op.ino in s'.inodes && op.ino in s.inodes
    ensures 0 <= FirstBlock(op.start) && 0 <= room && Agrees(s', effects + [WriteEffect(s, op, room)])
  {
    hide FileByte, OutcomeOf, Filled, TightAll, Owned, NeedRange, Stuck;
    if OutcomeOf(s, op.ino, op.start, |op.data|, room).resized {
      ResizedMeansBytes(s, op.ino, op.start, |op.data|, room);
    }
    var e := WriteEffect(s, op, room);
    assert (effects + [e])[..|effects|] == effects;
  }

  lemma AgreesAfterRemove(s: State, o: map<int, Place>, s': State, effects: seq<Effect>, ino: int)
    requires Agrees(s, effects) && Owned(s, o) && FreedAll(s, o, s', ino)
    ensures Agrees(s', effects + [Removed(ino)])
  {
    FreedAllIsExact(s, o, s', ino);
    hide FileByte, Ptr;
    assert (effects + [Removed(ino)])[..|effects|] == effects;
  }

  lemma BlankAgrees(s: State)
    requires s.disk == map[] && s.used == {} && forall k :: k in s.inodes ==> s.inodes[k] == EmptyInode()
    ensures Agrees(s, []) && WellFormed(s)
  {
    BlankTable(s);
    hide Ptr;
  }

  // ------------------------------------------------------------------ what is intended

  /** Offsets that reach the block layer as they are, and something to write. */
  predicate PlainOp(op: Op) {
    op.Write? ==> 0 <= op.start < BLOCK_SIZE * 0x8000_0000 && op.data != []
  }

  predicate Plain(ops: seq<Op>) {
    forall i :: 0 <= i < |ops| ==> PlainOp(ops[i])
  }

  /** What the operation is for: the bytes below the limit, and the size to match. */
  function Intended(effects: seq<Effect>, op: Op): Effect {
    match op
    case Write(ino, start, data) =>
      var size := IdealSize(effects, ino);
      if start >= MAX_FILE_SIZE || start < 0 then Stored(ino, start, [], size)
      else
        var done := Min(|data|, MAX_FILE_SIZE - start);
        Stored(ino, start, data[..done], Max(size, start + done))
    case Remove(ino) => Removed(ino)
  }

  function IntendedAll(ops: seq<Op>): seq<Effect> {
    if ops == [] then [] else
    var before := IntendedAll(ops[..|ops| - 1]);
    before + [Intended(before, ops[|ops| - 1])]
  }

  lemma OneMore(ops: seq<Op>, op: Op)
    ensures RunBound(ops + [op]) == RunBound(ops) + if op.Write? then WriteBound(|op.data|) else 0
    ensures IntendedAll(ops + [op]) == IntendedAll(ops) + [Intended(IntendedAll(ops), op)]
  {
    assert (ops + [op])[..|ops|] == ops;
  }

  /** The blocks that the operation takes are there. */
  predicate Fits(s: State, op: Op, room: int) {
    op.Write? && 0 <= op.start < MAX_FILE_SIZE ==> op.ino in s.inodes && Demand(s, op.ino, op.start, |op.data|) <= room
  }

  /** A write has the intended effect if and only if its blocks fit; it then does not
      dangle and keeps the file system well formed. */
  lemma WriteAsIntended(s: State, s': State, effects: seq<Effect>, op: Op, r: int, room: int)
    requires Agrees(s, effects) && op.Write? && Performed(s, s', op.ino, op.data, op.start, r, room)
    requires PlainOp(op) && WellFormed(s)
    ensures op.ino in s.inodes && 0 <= FirstBlock(op.start) && 0 <= room && s'.inodes.Keys == s.inodes.Keys
    ensures Fits(s, op, room) <==> WriteEffect(s, op, room) == Intended(effects, op)
    ensures Fits(s, op, room) ==> !Stuck(s, op.ino, op.start, |op.data|, room) && WellFormed(s')
  {
    hide WroteRange, Owned, NeedRange, WellFormed, Filled, TightAll, FileByte;
    PositionIsStart(op.start);
    if op.start < MAX_FILE_SIZE {
      if Fits(s, op, room) {
        WrittenWithSpace(s, s', op.ino, op.data, op.start, r, room);
        WithSpace(s, op.ino, op.start, |op.data|, room);
      } else {
        CutShort(s, op.ino, op.start, |op.data|, room);
        assert |WriteEffect(s, op, room).data| < |Intended(effects, op).data|;
      }
    }
  }

  /** A write whose blocks do not fit stores less than it should. */
  lemma CutShort(s: State, ino: int, start: int, n: int, room: int)
    requires ino in s.inodes && 0 <= start < MAX_FILE_SIZE && 0 < n && 0 <= room && Demand(s, ino, start, n) > room
    ensures 0 <= FirstBlock(start) && OutcomeOf(s, ino, start, n, room).stored < Min(n, MAX_FILE_SIZE - start)
  {
    hide NeedRange, Reached;
    PositionIsStart(start);
    var lo, hi := start / BLOCK_SIZE, HighBlock(start, n);
    assert hi <= MAX_FILE_BLOCKS;
    ReachedAll(s, ino, lo, hi, room);
  }

  // ------------------------------------------------------------------------- runs

  datatype Config = Config(s: State, o: map<int, Place>)

  /** The blocks in use are exactly those reachable from the inodes. */
  ghost predicate Sound(c: Config) {
    Owned(c.s, c.o) && c.s.used <= c.s.disk.Keys
  }

  function Room(s: State, cap: int): int {
    Max(0, cap - |s.used|)
  }

  /** The operation leaves a sound file system: the write does not end in the dangling
      state, the removal finds every block. */
  ghost predicate Harmless(c: Config, op: Op, cap: int) {
    && op.ino in c.s.inodes
    && (op.Write? ==> 0 <= FirstBlock(op.start) && !Stuck(c.s, op.ino, op.start, |op.data|, Room(c.s, cap)))
    && (op.Remove? ==>
          && Complete(c.s, op.ino)
          && (c.s.inodes[op.ino].indirect == 0 || BlocksUpTo(c.s.inodes[op.ino].size) > NR_DIRECT))
  }

  ghost predicate Next(c: Config, c': Config, op: Op, cap: int) {
    && (Harmless(c, op, cap) ==> Sound(c'))
    && (op.Write? ==> exists r :: Performed(c.s, c'.s, op.ino, op.data, op.start, r, Room(c.s, cap)))
    && (op.Remove? && Harmless(c, op, cap) ==> FreedAll(c.s, c.o, c'.s, op.ino))
  }

  /** The source performs steps of this relation. */
  method Do(fs: FileSystem, op: Op)
    requires fs.Valid() && ValidOp(op, fs.inodes, fs.stray)
    modifies fs, fs.blockFreemap.v
    ensures fs.Wired() && Next(Config(old(fs.S()), old(fs.owner)), Config(fs.S(), fs.owner), op, fs.Capacity())
    ensures Harmless(Config(old(fs.S()), old(fs.owner)), op, fs.Capacity()) ==> fs.Valid()
  {
    hide Performed, Stuck, Complete, FreedAll, Owned, BlocksOf, HitBlocks, FileSystem.Wired, FileSystem.Used;
    match op {
      case Write(ino, start, data) =>
        ghost var s0 := fs.S();
        var r := WriteData(fs, ino, data, start);
        assert Performed(s0, fs.S(), ino, data, start, r, Room(s0, fs.Capacity()));
      case Remove(ino) =>
        var ok := FreeBlocks(fs, ino);
    }
  }

  ghost predicate IsRun(cs: seq<Config>, ops: seq<Op>, cap: int) {
    && |cs| == |ops| + 1 && Sound(cs[0])
    && cs[0].s.disk == map[] && cs[0].s.used == {} && (forall k :: k in cs[0].s.inodes ==> cs[0].s.inodes[k] == EmptyInode())
    && (forall i :: 0 <= i < |ops| ==> Next(cs[i], cs[i + 1], ops[i], cap))
  }

  ghost predicate AllHarmless(cs: seq<Config>, ops: seq<Op>, cap: int, n: int)
    requires 0 <= n <= |ops| < |cs|
  {
    forall i :: 0 <= i < n ==> Harmless(cs[i], ops[i], cap)
  }

  ghost function EffectOf(c: Config, op: Op, cap: int): Effect {
    match op
    case Write(ino, start, data) =>
      if ino in c.s.inodes && 0 <= FirstBlock(start) then WriteEffect(c.s, op, Room(c.s, cap)) else Stored(ino, start, [], 0)
    case Remove(ino) => Removed(ino)
  }

  ghost function Effects(cs: seq<Config>, ops: seq<Op>, cap: int, n: int): seq<Effect>
    requires 0 <= n <= |ops| < |cs|
  {
    if n == 0 then [] else Effects(cs, ops, cap, n - 1) + [EffectOf(cs[n - 1], ops[n - 1], cap)]
  }

  lemma StepAgrees(c: Config, c': Config, op: Op, cap: int, effects: seq<Effect>)
    requires Sound(c) && Next(c, c', op, cap) && Harmless(c, op, cap) && Agrees(c.s, effects)
    ensures Sound(c') && Agrees(c'.s, effects + [EffectOf(c, op, cap)])
  {
    hide Performed, Stuck, Complete, FreedAll, Owned, Agrees, OutcomeOf, WriteEffect;
    match op
    case Write(ino, start, data) =>
      var r :| Performed(c.s, c'.s, ino, data, start, r, Room(c.s, cap));
      AgreesAfterWrite(c.s, c'.s, effects, op, r, Room(c.s, cap));
    case Remove(ino) =>
      AgreesAfterRemove(c.s, c.o, c'.s, effects, ino);
  }

  /** Whatever the space: as long as no write ended in the dangling state and no removal
      missed a block, ownership is exact and every byte and size of every file is what
      the effects so far leave. Writes that ran out of space are included. */
  lemma {:induction false} RunsAgree(cs: seq<Config>, ops: seq<Op>, cap: int, n: int)
    requires IsRun(cs, ops, cap) && 0 <= n <= |ops| && AllHarmless(cs, ops, cap, n)
    ensures Sound(cs[n]) && Agrees(cs[n].s, Effects(cs, ops, cap, n))
  {
    hide Next, Harmless, EffectOf, Agrees;
    if n == 0 {
      BlankAgrees(cs[0].s);
    } else {
      RunsAgree(cs, ops, cap, n - 1);
      assert Next(cs[n - 1], cs[n - 1 + 1], ops[n - 1], cap);
      StepAgrees(cs[n - 1], cs[n], ops[n - 1], cap, Effects(cs, ops, cap, n - 1));
    }
  }

  // ------------------------------------------------------------- runs that have space

  /** No write of the first `n` operations runs out of space. */
  ghost predicate AllFit(cs: seq<Config>, ops: seq<Op>, cap: int, n: int)
    requires 0 <= n <= |ops| < |cs|
  {
    forall i :: 0 <= i < n ==> Fits(cs[i].s, ops[i], Room(cs[i].s, cap))
  }

  lemma StepAsIntended(c: Config, c': Config, op: Op, cap: int, effects: seq<Effect>)
    requires Sound(c) && Next(c, c', op, cap) && Agrees(c.s, effects) && WellFormed(c.s)
    requires op.ino in c.s.inodes && PlainOp(op)
    ensures Fits(c.s, op, Room(c.s, cap)) <==> EffectOf(c, op, cap) == Intended(effects, op)
    ensures Fits(c.s, op, Room(c.s, cap)) ==> Harmless(c, op, cap) && WellFormed(c'.s)
    ensures Fits(c.s, op, Room(c.s, cap)) ==> c'.s.inodes.Keys == c.s.inodes.Keys
  {
    hide Performed, Stuck, Complete, FreedAll, Owned, Agrees, OutcomeOf, WellFormed, Demand, WriteEffect;
    match op
    case Write(ino, start, data) =>
      var r :| Performed(c.s, c'.s, ino, data, start, r, Room(c.s, cap));
      WriteAsIntended(c.s, c'.s, effects, op, r, Room(c.s, cap));
    case Remove(ino) =>
      WellFormedAt(c.s, ino);
      BoundedIsComplete(c.s, ino);
      FreedAllKeepsShape(c.s, c.o, c'.s, ino);
      FewerUsed(c.s, c.o, c'.s, ino);
  }

  lemma WellFormedAt(s: State, ino: int)
    requires WellFormed(s) && ino in s.inodes
    ensures Tight(s, ino) && Bounded(s, ino) && 0 <= s.inodes[ino].size <= MAX_FILE_SIZE
  {
  }

  lemma FewerUsed(s: State, o: map<int, Place>, s': State, ino: int)
    requires FreedAll(s, o, s', ino)
    ensures |s'.used| <= |s.used| && s'.inodes.Keys == s.inodes.Keys
  {
    SubsetSize(s'.used, s.used);
  }

  /** A run of non-empty writes and of removals has its intended effects throughout if and
      only if no write runs out of space. It then never breaks: every byte is the last one
      written there or zero, and the file system stays well formed. */
  lemma {:induction false} RunsWithSpace(cs: seq<Config>, ops: seq<Op>, cap: int, n: int)
    requires IsRun(cs, ops, cap) && 0 <= n <= |ops| && Plain(ops)
    requires forall i :: 0 <= i < |ops| ==> ops[i].ino in cs[0].s.inodes
    ensures AllFit(cs, ops, cap, n) <==> Effects(cs, ops, cap, n) == IntendedAll(ops[..n])
    ensures AllFit(cs, ops, cap, n) ==>
              && AllHarmless(cs, ops, cap, n) && Sound(cs[n]) && Agrees(cs[n].s, IntendedAll(ops[..n]))
              && WellFormed(cs[n].s) && cs[n].s.inodes.Keys == cs[0].s.inodes.Keys
  {
    hide Next, Harmless, EffectOf, Agrees, WellFormed, Sound, Fits;
    if n == 0 {
      SoundStart(cs, ops, cap);
    } else {
      RunsWithSpace(cs, ops, cap, n - 1);
      assert ops[..n] == ops[..n - 1] + [ops[n - 1]];
      OneMore(ops[..n - 1], ops[n - 1]);
      var before := Effects(cs, ops, cap, n - 1);
      SameSteps(before, EffectOf(cs[n - 1], ops[n - 1], cap), IntendedAll(ops[..n - 1]), Intended(IntendedAll(ops[..n - 1]), ops[n - 1]));
      if AllFit(cs, ops, cap, n - 1) {
        assert Next(cs[n - 1], cs[n - 1 + 1], ops[n - 1], cap);
        StepAsIntended(cs[n - 1], cs[n], ops[n - 1], cap, before);
        if Fits(cs[n - 1].s, ops[n - 1], Room(cs[n - 1].s, cap)) {
          StepAgrees(cs[n - 1], cs[n], ops[n - 1], cap, before);
        }
      }
    }
  }

  lemma SameSteps<T>(a: seq<T>, x: T, b: seq<T>, y: T)
    ensures a + [x] == b + [y] <==> a == b && x == y
  {
    if a + [x] == b + [y] {
      assert (a + [x])[..|a|] == a && (b + [y])[..|b|] == b;
      assert (a + [x])[|a|] == x && (b + [y])[|b|] == y;
    }
  }

  lemma SoundStart(cs: seq<Config>, ops: seq<Op>, cap: int)
    requires IsRun(cs, ops, cap)
    ensures WellFormed(cs[0].s) && Sound(cs[0]) && Agrees(cs[0].s, [])
  {
    BlankAgrees(cs[0].s);
  }

  // --------------------------------------------------- a bound that is known beforehand

  /** More blocks than a write of `n` bytes can take. */
  function WriteBound(n: int): int {
    3 * (n / BLOCK_SIZE + 2)
  }

  function RunBound(ops: seq<Op>): int {
    if ops == [] then 0 else
    var op := ops[|ops| - 1];
    RunBound(ops[..|ops| - 1]) + if op.Write? then WriteBound(|op.data|) else 0
  }

  lemma DemandIsBounded(s: State, ino: int, start: int, n: int)
    requires ino in s.inodes && 0 <= start < MAX_FILE_SIZE && 0 <= n
    ensures Demand(s, ino, start, n) <= WriteBound(n)
  {
    PositionIsStart(start);
  }

  lemma {:induction false} BoundGrows(ops: seq<Op>, n: nat)
    requires n <= |ops|
    ensures RunBound(ops[..n]) <= RunBound(ops)
  {
    if n < |ops| {
      assert ops[..|ops| - 1][..n] == ops[..n];
      BoundGrows(ops[..|ops| - 1], n);
    } else {
      assert ops[..n] == ops;
    }
  }

  lemma TakesItsDemand(s: State, s': State, ino: int, buf: seq<byte>, start: int, r: int, room: int)
    requires Performed(s, s', ino, buf, start, r, room)
    requires 0 <= start < BLOCK_SIZE * 0x8000_0000 && (start < MAX_FILE_SIZE ==> Demand(s, ino, start, |buf|) <= room)
    ensures |s'.used| <= |s.used| + WriteBound(|buf|)
  {
    hide NeedRange, WroteRange, Filled, TightAll, Reached;
    PositionIsStart(start);
    if start < MAX_FILE_SIZE {
      DemandIsBounded(s, ino, start, |buf|);
      var lo, hi := start / BLOCK_SIZE, HighBlock(start, |buf|);
      assert hi <= MAX_FILE_BLOCKS;
      ReachedAll(s, ino, lo, hi, room);
    }
  }

  lemma StepIsBounded(c: Config, c': Config, op: Op, cap: int, used: int)
    requires Next(c, c', op, cap) && op.ino in c.s.inodes && PlainOp(op) && |c.s.used| <= used
    requires op.Write? ==> used + WriteBound(|op.data|) <= cap
    requires op.Remove? ==> Harmless(c, op, cap)
    ensures Fits(c.s, op, Room(c.s, cap))
    ensures |c'.s.used| <= used + if op.Write? then WriteBound(|op.data|) else 0
  {
    hide Performed, Harmless, FreedAll, Demand;
    match op
    case Write(ino, start, data) =>
      var r :| Performed(c.s, c'.s, ino, data, start, r, Room(c.s, cap));
      if start < MAX_FILE_SIZE {
        DemandIsBounded(c.s, ino, start, |data|);
      }
      TakesItsDemand(c.s, c'.s, ino, data, start, r, Room(c.s, cap));
    case Remove(ino) =>
      FewerUsed(c.s, c.o, c'.s, ino);
  }

  /** A run whose bound is within the capacity does not run out of space. */
  lemma {:induction false} BoundedRunsFit(cs: seq<Config>, ops: seq<Op>, cap: int, n: int)
    requires IsRun(cs, ops, cap) && 0 <= n <= |ops| && Plain(ops) && RunBound(ops) <= cap
    requires forall i :: 0 <= i < |ops| ==> ops[i].ino in cs[0].s.inodes
    ensures AllFit(cs, ops, cap, n) && |cs[n].s.used| <= RunBound(ops[..n])
  {
    hide Next, Harmless, Agrees, WellFormed, Sound, Fits;
    if n > 0 {
      BoundedRunsFit(cs, ops, cap, n - 1);
      RunsWithSpace(cs, ops, cap, n - 1);
      assert ops[..n] == ops[..n - 1] + [ops[n - 1]];
      OneMore(ops[..n - 1], ops[n - 1]);
      BoundGrows(ops, n);
      assert Next(cs[n - 1], cs[n - 1 + 1], ops[n - 1], cap);
      RemovalIsHarmless(cs[n - 1], ops[n - 1], cap);
      StepIsBounded(cs[n - 1], cs[n], ops[n - 1], cap, RunBound(ops[..n - 1]));
    }
  }

  lemma RemovalIsHarmless(c: Config, op: Op, cap: int)
    requires WellFormed(c.s) && op.ino in c.s.inodes
    ensures op.Remove? ==> Harmless(c, op, cap)
  {
    hide WellFormed, Complete;
    WellFormedAt(c.s, op.ino);
    if op.Remove? {
      BoundedIsComplete(c.s, op.ino);
    }
  }

  /** Reading back: the buffer receives the ideal bytes of the file, all of them unless the
      read spans blocks and stops on a block boundary. */
  method ReadBack(fs: FileSystem, ghost effects: seq<Effect>, ino: int, buf: array<byte>, start: int, want: int)
    returns (r: int)
    requires fs.Valid() && ino in fs.inodes && Agrees(fs.S(), effects)
    requires 0 <= want <= buf.Length && want <= INT_MAX && 0 <= start <= IdealSize(effects, ino) && start + want <= MAX_FILE_SIZE
    requires Readable(fs.stray, fs.inodes[ino], start / BLOCK_SIZE,
                      Max(start / BLOCK_SIZE + 1, EndBlock(start, Min(want, IdealSize(effects, ino) - start))))
    requires buf as object != fs.blockFreemap.v
    modifies buf
    ensures r == Min(want, IdealSize(effects, ino) - start)
    ensures forall k :: 0 <= k < Copied(start, r) ==> buf[k] == IdealByte(effects, ino, start + k)
    ensures !SkipsLast(start, r) ==> forall k :: 0 <= k < r ==> buf[k] == IdealByte(effects, ino, start + k)
  {
    hide FileByte, Owned, IdealByte, IdealSize;
    PositionIsStart(start);
    r := ReadData(fs, ino, buf, start, want);
  }
}
