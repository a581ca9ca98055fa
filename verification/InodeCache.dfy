/** In-memory inodes and their slots on disk (fs/inode.c). An inode in memory is
    reference counted and written back only when it is dirty. */
module InodeCache {
  import opened Words

  const DINODE_SIZE: int := 64
  const INODES_PER_BLOCK: int := 128
  const NR_INODE_BLOCKS: int := 128
  const NR_INODES: int := 16384
  const HASH_SIZE: int := 256

  type Dinode = d: seq<byte> | |d| == DINODE_SIZE witness seq(DINODE_SIZE, _ => 0)

  function ZeroDinode(): (d: Dinode)
    ensures forall i :: 0 <= i < DINODE_SIZE ==> d[i] == 0
  {
    seq(DINODE_SIZE, _ => 0)
  }

  // --------------------------------------------------------------- slots on disk

  predicate IsInode(nr: int) {
    0 <= nr < NR_INODES
  }

  function BlockNr(nr: int): (b: int)
    requires IsInode(nr)
    ensures 0 <= b < NR_INODE_BLOCKS
  {
    nr / INODES_PER_BLOCK
  }

  function BlockOffset(nr: int): (off: int)
    requires IsInode(nr)
    ensures 0 <= off && off + DINODE_SIZE <= BLOCK_SIZE
  {
    nr % INODES_PER_BLOCK * DINODE_SIZE
  }

  type InodeBlocks = b: seq<Block> | |b| == NR_INODE_BLOCKS witness ZeroBlocks()

  function ZeroBlocks(): (b: seq<Block>)
    ensures |b| == NR_INODE_BLOCKS && forall i :: 0 <= i < |b| ==> b[i] == ZeroBlock()
  {
    seq<Block>(NR_INODE_BLOCKS, _ => ZeroBlock())
  }

  function Slot(blocks: InodeBlocks, nr: int): Dinode
    requires IsInode(nr)
  {
    blocks[BlockNr(nr)][BlockOffset(nr)..BlockOffset(nr) + DINODE_SIZE]
  }

  function SetSlot(blocks: InodeBlocks, nr: int, d: Dinode): InodeBlocks
    requires IsInode(nr)
  {
    blocks[BlockNr(nr) := Splice(blocks[BlockNr(nr)], BlockOffset(nr), d)]
  }

  /** Slots do not overlap: writing one back leaves every other as it was. */
  lemma SetSlotIsFramed(blocks: InodeBlocks, nr: int, d: Dinode, m: int)
    requires IsInode(nr) && IsInode(m)
    ensures Slot(SetSlot(blocks, nr, d), m) == if m == nr then d else Slot(blocks, m)
  {
    hide Splice;
    if BlockNr(m) == BlockNr(nr) {
      var b := blocks[BlockNr(nr)];
      var b' := Splice(b, BlockOffset(nr), d);
      assert m != nr ==> BlockOffset(m) + DINODE_SIZE <= BlockOffset(nr) || BlockOffset(nr) + DINODE_SIZE <= BlockOffset(m);
      assert forall k :: 0 <= k < DINODE_SIZE ==>
          b'[BlockOffset(m) + k] == if m == nr then d[k] else b[BlockOffset(m) + k];
    }
  }

  // ------------------------------------------------------------- inodes in memory

  datatype Cached = Cached(din: Dinode, dirty: bool, count: int)

  /** `used` is the inode freemap; `held` counts the references handed out and not yet
      given back, which the program does not record. */
  datatype Inodes = Inodes(blocks: InodeBlocks, mem: map<int, Cached>, used: set<int>, held: multiset<int>)

  datatype Action =
    | Get(nr: int)
    | Sync(nr: int)
    | Put(nr: int)
    | Modify(nr: int, din: Dinode)   // a holder changes fields and sets the dirty flag
    | Create(nr: int, kind: int)     // `nr` is what the freemap gave
    | Remove(nr: int)

  function GetInode(s: Inodes, nr: int): Inodes
    requires IsInode(nr)
  {
    if nr in s.mem then s.(mem := s.mem[nr := s.mem[nr].(count := s.mem[nr].count + 1)])
    else s.(mem := s.mem[nr := Cached(Slot(s.blocks, nr), false, 1)])
  }

  function SyncInode(s: Inodes, nr: int): Inodes
    requires IsInode(nr) && nr in s.mem
  {
    if !s.mem[nr].dirty then s
    else s.(blocks := SetSlot(s.blocks, nr, s.mem[nr].din), mem := s.mem[nr := s.mem[nr].(dirty := false)])
  }

  function PutInode(s: Inodes, nr: int): Inodes
    requires nr in s.mem
  {
    if s.mem[nr].count - 1 == 0 then s.(mem := s.mem - {nr})
    else s.(mem := s.mem[nr := s.mem[nr].(count := s.mem[nr].count - 1)])
  }

  function Changed(s: Inodes, nr: int, din: Dinode): Inodes
    requires nr in s.mem
  {
    s.(mem := s.mem[nr := s.mem[nr].(din := din, dirty := true)])
  }

  function WithType(din: Dinode, kind: int): Dinode
    requires IsWord(kind)
  {
    Le32(kind) + din[4..]
  }

  predicate Enabled(s: Inodes, a: Action) {
    IsInode(a.nr) &&
    match a
    case Get(nr) => true
    case Sync(nr) => nr in s.held
    case Put(nr) => nr in s.held && nr in s.mem && !s.mem[nr].dirty
    case Modify(nr, _) => nr in s.held && nr in s.used
    case Create(nr, kind) => nr !in s.used && IsWord(kind)
    case Remove(nr) => nr in s.held && nr in s.used
  }

  // ---------------------------------------------------------------- the invariant

  /** A clean inode in memory is what its slot holds; the reference count is the
      number of references out; free slots are zero. */
  ghost predicate Coherent(s: Inodes) {
    && (forall nr :: nr in s.mem <==> nr in s.held)
    && (forall nr :: nr in s.mem ==> IsInode(nr) && s.mem[nr].count == s.held[nr])
    && (forall nr :: nr in s.mem && !s.mem[nr].dirty ==> s.mem[nr].din == Slot(s.blocks, nr))
    && (forall nr :: IsInode(nr) && nr !in s.used ==> Slot(s.blocks, nr) == ZeroDinode())
    && (forall nr :: nr in s.mem && nr !in s.used ==> !s.mem[nr].dirty)
  }

  function Step(s: Inodes, a: Action): Inodes
    requires Coherent(s) && Enabled(s, a)
  {
    match a
    case Get(nr) => GetInode(s, nr).(held := s.held + multiset{nr})
    case Sync(nr) => SyncInode(s, nr)
    case Put(nr) => PutInode(s, nr).(held := s.held - multiset{nr})
    case Modify(nr, din) => Changed(s, nr, din)
    case Create(nr, kind) =>
      var got := GetInode(s, nr);
      Changed(got, nr, WithType(got.mem[nr].din, kind)).(used := s.used + {nr}, held := s.held + multiset{nr})
    case Remove(nr) =>
      var synced := SyncInode(Changed(s, nr, ZeroDinode()), nr);
      PutInode(synced, nr).(used := s.used - {nr}, held := s.held - multiset{nr})
  }

  /** Only slot `nr` differs. */
  ghost predicate OthersKept(s: Inodes, s': Inodes, nr: int) {
    && (forall m :: IsInode(m) && m != nr ==> Slot(s'.blocks, m) == Slot(s.blocks, m))
    && (forall m :: m != nr ==> (m in s'.mem <==> m in s.mem))
    && (forall m :: m != nr && m in s.mem ==> s'.mem[m] == s.mem[m])
    && (forall m :: m != nr ==> (m in s'.used <==> m in s.used) && s'.held[m] == s.held[m])
  }

  lemma SyncFramed(s: Inodes, nr: int)
    requires IsInode(nr) && nr in s.mem
    ensures OthersKept(s, SyncInode(s, nr), nr) && nr in SyncInode(s, nr).mem
  {
    hide Slot, SetSlot;
    forall m | IsInode(m) && m != nr ensures Slot(SetSlot(s.blocks, nr, s.mem[nr].din), m) == Slot(s.blocks, m) {
      SetSlotIsFramed(s.blocks, nr, s.mem[nr].din, m);
    }
  }

  lemma HeldIsCached(s: Inodes, nr: int)
    requires Coherent(s) && nr in s.held
    ensures nr in s.mem
  {
  }

  lemma GetFramed(s: Inodes, nr: int, used: set<int>)
    requires IsInode(nr) && (used == s.used || used == s.used + {nr})
    ensures OthersKept(s, GetInode(s, nr).(used := used, held := s.held + multiset{nr}), nr) && nr in GetInode(s, nr).mem
  {
    hide Slot;
  }

  lemma PutFramed(s: Inodes, nr: int, used: set<int>)
    requires nr in s.mem && (used == s.used || used == s.used - {nr})
    ensures OthersKept(s, PutInode(s, nr).(used := used, held := s.held - multiset{nr}), nr)
  {
    hide Slot;
  }

  lemma ChangedFramed(s: Inodes, nr: int, din: Dinode)
    requires nr in s.mem
    ensures OthersKept(s, Changed(s, nr, din), nr)
  {
    hide Slot;
  }

  lemma KeptTwice(s: Inodes, s1: Inodes, s2: Inodes, nr: int)
    requires OthersKept(s, s1, nr) && OthersKept(s1, s2, nr)
    ensures OthersKept(s, s2, nr)
  {
    hide Slot;
  }

  lemma CreateFramed(s: Inodes, nr: int, kind: int)
    requires Coherent(s) && Enabled(s, Create(nr, kind))
    ensures OthersKept(s, Step(s, Create(nr, kind)), nr)
  {
    hide Coherent, OthersKept, GetInode, WithType;
    GetFramed(s, nr, s.used + {nr});
    var got := GetInode(s, nr).(used := s.used + {nr}, held := s.held + multiset{nr});
    var din := WithType(got.mem[nr].din, kind);
    ChangedFramed(got, nr, din);
    KeptTwice(s, got, Changed(got, nr, din), nr);
  }

  lemma RemoveFramed(s: Inodes, nr: int)
    requires Coherent(s) && Enabled(s, Remove(nr))
    ensures OthersKept(s, Step(s, Remove(nr)), nr)
  {
    hide Coherent, OthersKept, SyncInode, PutInode;
    HeldIsCached(s, nr);
    var changed := Changed(s, nr, ZeroDinode());
    var synced := SyncInode(changed, nr);
    ChangedFramed(s, nr, ZeroDinode());
    SyncFramed(changed, nr);
    PutFramed(synced, nr, synced.used - {nr});
    KeptTwice(s, changed, synced, nr);
    SyncKeepsCounts(changed, nr);
    KeptTwice(s, synced, Step(s, Remove(nr)), nr);
  }

  lemma SyncKeepsCounts(s: Inodes, nr: int)
    requires IsInode(nr) && nr in s.mem
    ensures SyncInode(s, nr).used == s.used && SyncInode(s, nr).held == s.held
  {
  }

  /** No step touches the memory, slot or count of another inode. */
  lemma StepIsFramed(s: Inodes, a: Action)
    requires Coherent(s) && Enabled(s, a)
    ensures OthersKept(s, Step(s, a), a.nr)
  {
    hide Coherent, OthersKept, SyncInode, WithType;
    match a
    case Get(nr) => GetFramed(s, nr, s.used);
    case Sync(nr) => HeldIsCached(s, nr); SyncFramed(s, nr);
    case Put(nr) => PutFramed(s, nr, s.used);
    case Modify(nr, din) => HeldIsCached(s, nr); ChangedFramed(s, nr, din);
    case Create(nr, kind) => CreateFramed(s, nr, kind);
    case Remove(nr) => RemoveFramed(s, nr);
  }

  ghost predicate CoherentAt(s: Inodes, nr: int) {
    && (nr in s.mem <==> nr in s.held)
    && (nr in s.mem ==> IsInode(nr) && s.mem[nr].count == s.held[nr])
    && (nr in s.mem && !s.mem[nr].dirty ==> s.mem[nr].din == Slot(s.blocks, nr))
    && (IsInode(nr) && nr !in s.used ==> Slot(s.blocks, nr) == ZeroDinode())
    && (nr in s.mem && nr !in s.used ==> !s.mem[nr].dirty)
  }

  lemma StepKeepsOne(s: Inodes, a: Action)
    requires Coherent(s) && Enabled(s, a)
    ensures CoherentAt(Step(s, a), a.nr)
  {
    hide Slot, SetSlot, ZeroDinode, WithType;
    forall d ensures Slot(SetSlot(s.blocks, a.nr, d), a.nr) == d {
      SetSlotIsFramed(s.blocks, a.nr, d, a.nr);
    }
  }

  lemma StepKeepsCoherent(s: Inodes, a: Action)
    requires Coherent(s) && Enabled(s, a)
    ensures Coherent(Step(s, a))
  {
    hide Slot, SetSlot, ZeroDinode, WithType, Step;
    StepIsFramed(s, a);
    StepKeepsOne(s, a);
    var s' := Step(s, a);
    forall nr ensures CoherentAt(s', nr) {
      assert CoherentAt(s, nr);
    }
  }

  /** The contents of an inode for the program: those in memory if it is there. */
  function Contents(s: Inodes, nr: int): Dinode
    requires IsInode(nr)
  {
    if nr in s.mem then s.mem[nr].din else Slot(s.blocks, nr)
  }

  /** Reference counts and write-back do not show: getting, syncing and putting change no
      contents, the others change those of one inode to what they say, and the free map
      follows creation and removal. */
  lemma CacheIsTransparent(s: Inodes, a: Action, m: int)
    requires Coherent(s) && Enabled(s, a) && IsInode(m)
    ensures IsInode(a.nr) && Coherent(Step(s, a))
    ensures Contents(Step(s, a), m) ==
            if m != a.nr then Contents(s, m)
            else match a
              case Modify(_, din) => din
              case Create(_, kind) => WithType(ZeroDinode(), kind)
              case Remove(_) => ZeroDinode()
              case _ => Contents(s, m)
    ensures Step(s, a).used == if a.Create? then s.used + {a.nr} else if a.Remove? then s.used - {a.nr} else s.used
    ensures Step(s, a).held ==
            if a.Get? || a.Create? then s.held + multiset{a.nr}
            else if a.Put? || a.Remove? then s.held - multiset{a.nr} else s.held
  {
    hide Slot, SetSlot, ZeroDinode, WithType;
    StepKeepsCoherent(s, a);
    StepIsFramed(s, a);
    forall d ensures Slot(SetSlot(s.blocks, a.nr, d), a.nr) == d {
      SetSlotIsFramed(s.blocks, a.nr, d, a.nr);
    }
  }

  /** The disk changes in two places only: a sync writes what is in memory, a removal zeros. */
  lemma DiskFollows(s: Inodes, a: Action, m: int)
    requires Coherent(s) && Enabled(s, a) && IsInode(m)
    ensures Slot(Step(s, a).blocks, m) ==
            if m == a.nr && a.Sync? then Contents(s, m)
            else if m == a.nr && a.Remove? then ZeroDinode() else Slot(s.blocks, m)
  {
    hide Slot, SetSlot, ZeroDinode, WithType;
    StepIsFramed(s, a);
    forall d ensures Slot(SetSlot(s.blocks, a.nr, d), a.nr) == d {
      SetSlotIsFramed(s.blocks, a.nr, d, a.nr);
    }
  }

  /** A new inode is all zero apart from its type. */
  lemma CreatedIsZero(s: Inodes, nr: int, kind: int)
    requires Coherent(s) && Enabled(s, Create(nr, kind))
    ensures var s' := Step(s, Create(nr, kind));
            nr in s'.mem && s'.mem[nr].din == WithType(ZeroDinode(), kind)
            && OfLe32(s'.mem[nr].din[..4]) == kind && forall k :: 4 <= k < DINODE_SIZE ==> s'.mem[nr].din[k] == 0
  {
    hide Slot, ZeroDinode, Le32, OfLe32;
    Le32RoundTrip(kind);
    assert WithType(ZeroDinode(), kind)[..4] == Le32(kind);
  }

  // ------------------------------------------------------------------ whole runs

  /** mktestfs: zero inode blocks, nothing in use. */
  function Start(): Inodes {
    Inodes(ZeroBlocks(), map[], {}, multiset{})
  }

  lemma StartIsCoherent()
    ensures Coherent(Start())
  {
    forall nr | IsInode(nr) ensures Slot(Start().blocks, nr) == ZeroDinode() {
    }
  }

  ghost function After(s: Inodes, actions: seq<Action>): Inodes
    requires Coherent(s)
    decreases |actions|
  {
    if actions == [] then s
    else if Enabled(s, actions[0]) then StepKeepsCoherent(s, actions[0]); After(Step(s, actions[0]), actions[1..])
    else After(s, actions[1..])
  }

  lemma {:induction false} AfterKeepsCoherent(s: Inodes, actions: seq<Action>)
    requires Coherent(s)
    ensures Coherent(After(s, actions))
    decreases |actions|
  {
    hide Coherent, Step, Enabled;
    if actions != [] {
      if Enabled(s, actions[0]) {
        StepKeepsCoherent(s, actions[0]);
        AfterKeepsCoherent(Step(s, actions[0]), actions[1..]);
      } else {
        AfterKeepsCoherent(s, actions[1..]);
      }
    }
  }

  /** When every reference has been given back no inode is left in memory, as the
      assertion of inode_hash_destroy demands. */
  lemma NothingLeaks(actions: seq<Action>)
    ensures Coherent(Start())
    ensures var s := After(Start(), actions); s.held == multiset{} ==> s.mem == map[]
  {
    hide After, Slot;
    StartIsCoherent();
    AfterKeepsCoherent(Start(), actions);
    var s := After(Start(), actions);
    if s.held == multiset{} {
      assert forall nr :: nr !in s.mem;
    }
  }

  ghost predicate Saved(s: Inodes, nr: int, din: Dinode) {
    IsInode(nr) && Slot(s.blocks, nr) == din && (nr in s.mem ==> s.mem[nr].din == din && !s.mem[nr].dirty)
  }

  predicate Leaves(a: Action, nr: int) {
    a.nr != nr || a.Get? || a.Sync? || a.Put?
  }

  lemma StepKeepsSaved(s: Inodes, a: Action, nr: int, din: Dinode)
    requires Coherent(s) && Enabled(s, a) && Saved(s, nr, din) && Leaves(a, nr)
    ensures Saved(Step(s, a), nr, din)
  {
    hide Slot, SetSlot, ZeroDinode, WithType;
    if a.nr != nr {
      hide Step, Coherent, Enabled;
      StepIsFramed(s, a);
    }
  }

  lemma SyncSaves(s: Inodes, nr: int)
    requires Coherent(s) && Enabled(s, Sync(nr))
    ensures nr in s.mem && Saved(Step(s, Sync(nr)), nr, s.mem[nr].din)
  {
    hide Slot, SetSlot;
    SetSlotIsFramed(s.blocks, nr, s.mem[nr].din, nr);
  }

  lemma {:induction false} SavedSurvives(s: Inodes, actions: seq<Action>, nr: int, din: Dinode)
    requires Coherent(s) && Saved(s, nr, din)
    requires forall a :: a in actions ==> Leaves(a, nr)
    ensures Saved(After(s, actions), nr, din) && Coherent(After(s, actions))
    decreases |actions|
  {
    hide Slot, SetSlot;
    if actions != [] {
      assert actions[0] in actions && forall a :: a in actions[1..] ==> a in actions;
      hide Step, Coherent, Enabled, Saved;
      if Enabled(s, actions[0]) {
        StepKeepsCoherent(s, actions[0]);
        StepKeepsSaved(s, actions[0], nr, din);
        SavedSurvives(Step(s, actions[0]), actions[1..], nr, din);
      } else {
        SavedSurvives(s, actions[1..], nr, din);
      }
    }
  }

  /** Sync, then any run that does not change this inode, its own last put included, then
      get: the same contents. */
  lemma SyncedSurvives(s: Inodes, nr: int, actions: seq<Action>)
    requires Coherent(s) && Enabled(s, Sync(nr)) && forall a :: a in actions ==> Leaves(a, nr)
    ensures nr in s.mem && Coherent(Step(s, Sync(nr))) && Coherent(After(Step(s, Sync(nr)), actions))
    ensures Step(After(Step(s, Sync(nr)), actions), Get(nr)).mem[nr].din == s.mem[nr].din
  {
    hide Slot, SetSlot, After, Coherent;
    SyncSaves(s, nr);
    StepKeepsCoherent(s, Sync(nr));
    SavedSurvives(Step(s, Sync(nr)), actions, nr, s.mem[nr].din);
  }

  lemma {:induction false} AfterMore(s: Inodes, actions: seq<Action>, a: Action)
    requires Coherent(s)
    ensures Coherent(After(s, actions))
    ensures After(s, actions + [a]) == if Enabled(After(s, actions), a) then Step(After(s, actions), a) else After(s, actions)
    decreases |actions|
  {
    hide Coherent, Step, Enabled;
    AfterKeepsCoherent(s, actions);
    var more := actions + [a];
    if actions == [] {
      assert more == [a] && more[1..] == [];
      if Enabled(s, a) {
        StepKeepsCoherent(s, a);
      }
    } else {
      assert more[0] == actions[0] && more[1..] == actions[1..] + [a];
      if Enabled(s, actions[0]) {
        StepKeepsCoherent(s, actions[0]);
        AfterMore(Step(s, actions[0]), actions[1..], a);
      } else {
        AfterMore(s, actions[1..], a);
      }
    }
  }
}
