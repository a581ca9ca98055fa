/** Locks and condition variables (threads/thread.c), judged against what the
    threads themselves know: which locks they took and not yet gave back, and who
    called cv_wait and has not been signalled since. */
module SchedulerLocks {
  import opened Sequences
  import opened Scheduler
  import opened SchedulerOrder

  datatype History = History(held: map<int, set<int>>, waiting: map<int, seq<int>>)

  function HeldBy(h: History, t: int): set<int> {
    if t in h.held then h.held[t] else {}
  }

  function WaitingOn(h: History, c: int): seq<int> {
    if c in h.waiting then h.waiting[c] else []
  }

  function SetHeld(h: History, t: int, ls: set<int>): (h': History)
    ensures forall u :: HeldBy(h', u) == if u == t then ls else HeldBy(h, u)
    ensures forall d :: WaitingOn(h', d) == WaitingOn(h, d)
  {
    h.(held := h.held[t := ls])
  }

  function SetWaiting(h: History, c: int, ts: seq<int>): (h': History)
    ensures forall d :: WaitingOn(h', d) == if d == c then ts else WaitingOn(h, d)
    ensures forall u :: HeldBy(h', u) == HeldBy(h, u)
  {
    h.(waiting := h.waiting[c := ts])
  }

  function DropFirst(ts: seq<int>): seq<int> { if ts == [] then [] else ts[1..] }
  function DropLast(ts: seq<int>): seq<int> { if ts == [] then [] else ts[..|ts| - 1] }

  function TrackAcquire(h: History, s: Sched, l: int): History
    requires l in s.locks
  {
    if s.locks[l].available then SetHeld(h, s.current, HeldBy(h, s.current) + {l}) else h
  }

  /** What the history records of a step, without looking at the queues. */
  function Track(h: History, s: Sched, a: Action): History
    requires Enabled(s, a)
  {
    var t := s.current;
    match a
    case Acquire(l) => TrackAcquire(h, s, l)
    case Release(l) => SetHeld(h, t, HeldBy(h, t) - {l})
    case CvWait(c, l) => SetWaiting(SetHeld(h, t, HeldBy(h, t) - {l}), c, WaitingOn(h, c) + [t])
    case Signal(c, l) =>
      if s.locks[l].acquiredId == t then SetWaiting(h, c, DropFirst(WaitingOn(h, c))) else h
    case Broadcast(c, l) =>
      if s.locks[l].acquiredId == t then SetWaiting(h, c, []) else h
    case Exit => if Step(s, a).current != t then SetHeld(h, t, {}) else h
    case Continue =>
      (match PcOf(s, t)
       case Acquiring(l) => TrackAcquire(h, s, l)
       case CvReleased(c, l) =>
         // the sleep failed: cv_wait goes straight on to re-acquire the lock
         if s.locks[l].acquiredId != t || s.ready == [] then SetWaiting(h, c, DropLast(WaitingOn(h, c))) else h
       case Idle => h)
    case _ => h
  }

  /** Only a thread that holds a lock releases it or waits on a condition with it. */
  predicate Disciplined(h: History, s: Sched, a: Action) {
    match a
    case Release(l) => l in HeldBy(h, s.current)
    case CvWait(_, l) => l in HeldBy(h, s.current)
    case _ => true
  }

  ghost predicate HoldersKnown(s: Sched, h: History) {
    forall t, l :: l in HeldBy(h, t) ==> l in s.locks && !s.locks[l].available && s.locks[l].acquiredId == t
  }

  ghost predicate FreeLocksUnwanted(s: Sched) {
    forall l :: QueueOf(s, LockQueue(l)) != [] ==> l in s.locks && !s.locks[l].available
  }

  /** The waiters on a condition variable are its queue, plus the running thread if
      it is between the release and the sleep of cv_wait. */
  ghost predicate WaitersQueued(s: Sched, h: History) {
    forall c ::
      if PcOf(s, s.current).CvReleased? && PcOf(s, s.current).c == c
      then WaitingOn(h, c) == QueueOf(s, CvQueue(c)) + [s.current]
      else WaitingOn(h, c) == QueueOf(s, CvQueue(c))
  }

  ghost predicate PcsMakeSense(s: Sched) {
    && (forall t :: t in s.pcs && s.pcs[t].CvReleased? ==> t == s.current)
    && (forall t :: t in s.pcs && s.pcs[t] != Idle ==> s.pcs[t].l in s.locks)
  }

  ghost predicate Safe(s: Sched, h: History) {
    HoldersKnown(s, h) && FreeLocksUnwanted(s) && WaitersQueued(s, h) && PcsMakeSense(s)
  }

  // ------------------------------------------------------------- the basic moves

  /** Sleeping on a queue that is neither a lock's nor a condition variable's. */
  lemma PlainSleepSafe(s: Sched, h: History, q: Queue)
    requires Partition(s) && Safe(s, h) && PcOf(s, s.current) == Idle && (q.User? || q.Joiners?)
    ensures Safe(SleepOn(s, q), h)
  {
    SleepFacts(s, q);
    hide Partition, SleepOn;
  }

  lemma SleepFacts(s: Sched, q: Queue)
    requires Partition(s)
    ensures var s' := SleepOn(s, q);
            && s'.locks == s.locks && s'.pcs == s.pcs
            && (forall r :: r != q ==> QueueOf(s', r) == QueueOf(s, r))
            && (s.ready == [] ==> s' == s)
            && (s.ready != [] ==> QueueOf(s', q) == QueueOf(s, q) + [s.current] && s'.current == s.ready[0]
                                  && s'.current != s.current)
  {
  }

  lemma WakeFacts(s: Sched, q: Queue)
    ensures var s' := WakeOne(s, q);
            && s'.locks == s.locks && s'.pcs == s.pcs && s'.current == s.current
            && (forall r :: r != q ==> QueueOf(s', r) == QueueOf(s, r))
            && QueueOf(s', q) == DropFirst(QueueOf(s, q))
  {
  }

  lemma ReleaseFacts(s: Sched, l: int)
    requires l in s.locks
    ensures var s' := ReleaseStep(s, l);
            && s'.current == s.current && s'.pcs == s.pcs
            && s'.locks == s.locks[l := s.locks[l].(available := true)]
            && (forall r :: r != LockQueue(l) ==> QueueOf(s', r) == QueueOf(s, r))
            && (!s.locks[l].available ==> QueueOf(s', LockQueue(l)) == [])
            && (s.locks[l].available ==> s' == s)
  {
    hide WakeAll;
    if !s.locks[l].available {
      WakeAllIsFifo(s.(locks := s.locks[l := s.locks[l].(available := true)]), LockQueue(l));
    } else {
      assert s.locks == s.locks[l := s.locks[l].(available := true)];
    }
  }

  lemma TakeSafe(s: Sched, h: History, l: int)
    requires Safe(s, h) && l in s.locks && s.locks[l].available && !PcOf(s, s.current).CvReleased?
    ensures Safe(AcquireStep(s, l), TrackAcquire(h, s, l))
  {
    hide SleepOn, HeldBy, WaitingOn, SetHeld;
    var s', h' := AcquireStep(s, l), TrackAcquire(h, s, l);
    assert FreeLocksUnwanted(s') && PcsMakeSense(s');
    assert WaitersQueued(s', h');
  }

  lemma BlockSafe(s: Sched, h: History, l: int)
    requires Partition(s) && Safe(s, h) && l in s.locks && !s.locks[l].available && !PcOf(s, s.current).CvReleased?
    ensures Safe(SleepOn(Become(s, Acquiring(l)), LockQueue(l)), h)
  {
    PartitionIgnoresPcs(s, Become(s, Acquiring(l)));
    SleepFacts(Become(s, Acquiring(l)), LockQueue(l));
    hide Partition, SleepOn, HeldBy, WaitingOn;
    var s' := SleepOn(Become(s, Acquiring(l)), LockQueue(l));
    assert HoldersKnown(s', h) && FreeLocksUnwanted(s');
    assert PcsMakeSense(s');
  }

  lemma AcquireSafe(s: Sched, h: History, l: int)
    requires Partition(s) && Safe(s, h) && l in s.locks && !PcOf(s, s.current).CvReleased?
    ensures Safe(AcquireStep(s, l), TrackAcquire(h, s, l))
  {
    hide Safe, Partition, SleepOn;
    if s.locks[l].available {
      TakeSafe(s, h, l);
    } else {
      BlockSafe(s, h, l);
    }
  }

  lemma ReleaseSafe(s: Sched, h: History, l: int, t: int)
    requires Safe(s, h) && l in s.locks && t == s.current && l in HeldBy(h, t) && PcOf(s, t) == Idle
    ensures Safe(ReleaseStep(s, l), SetHeld(h, t, HeldBy(h, t) - {l}))
  {
    hide ReleaseStep, HeldBy, WaitingOn, SetHeld;
    ReleaseFacts(s, l);
  }

  lemma EnterCvSafe(s: Sched, h: History, c: int, l: int)
    requires Safe(s, h) && PcOf(s, s.current) == Idle && l in s.locks
    ensures Safe(Become(s, CvReleased(c, l)), SetWaiting(h, c, WaitingOn(h, c) + [s.current]))
  {
    hide HeldBy, WaitingOn, SetWaiting;
  }

  lemma CvWaitSafe(s: Sched, h: History, c: int, l: int)
    requires Safe(s, h) && Enabled(s, CvWait(c, l)) && Disciplined(h, s, CvWait(c, l))
    ensures Safe(Step(s, CvWait(c, l)), Track(h, s, CvWait(c, l)))
  {
    hide ReleaseStep, Safe, SetHeld, WaitingOn;
    ReleaseFacts(s, l);
    ReleaseSafe(s, h, l, s.current);
    EnterCvSafe(ReleaseStep(s, l), SetHeld(h, s.current, HeldBy(h, s.current) - {l}), c, l);
  }

  lemma CvSleeps(s: Sched, h: History, c: int, l: int)
    requires Partition(s) && Safe(s, h) && PcOf(s, s.current) == CvReleased(c, l) && s.ready != []
    ensures Safe(SleepOn(Become(s, Acquiring(l)), CvQueue(c)), h)
  {
    PartitionIgnoresPcs(s, Become(s, Acquiring(l)));
    SleepFacts(Become(s, Acquiring(l)), CvQueue(c));
    hide Partition, SleepOn, HeldBy, WaitingOn;
    var s' := SleepOn(Become(s, Acquiring(l)), CvQueue(c));
    assert HoldersKnown(s', h) && FreeLocksUnwanted(s');
    assert PcsMakeSense(s');
  }

  lemma CvDoesNotSleep(s: Sched, h: History, c: int, l: int)
    requires Safe(s, h) && PcOf(s, s.current) == CvReleased(c, l)
    ensures Safe(Become(s, Acquiring(l)), SetWaiting(h, c, DropLast(WaitingOn(h, c))))
  {
    hide HeldBy, WaitingOn, SetWaiting, QueueOf;
    var q := QueueOf(s, CvQueue(c));
    assert WaitingOn(h, c) == q + [s.current];
    assert DropLast(q + [s.current]) == q;
    var s', h' := Become(s, Acquiring(l)), SetWaiting(h, c, q);
    QueuesIgnorePcs(s, Acquiring(l));
    assert HoldersKnown(s', h') && FreeLocksUnwanted(s') && PcsMakeSense(s');
    forall d ensures WaitingOn(h', d) == QueueOf(s', CvQueue(d)) {
    }
  }

  lemma QueuesIgnorePcs(s: Sched, pc: Pc)
    ensures forall q :: QueueOf(Become(s, pc), q) == QueueOf(s, q)
  {
  }

  lemma CvSleepSafe(s: Sched, h: History)
    requires Partition(s) && Safe(s, h) && PcOf(s, s.current).CvReleased? && Enabled(s, Continue)
    ensures Safe(Step(s, Continue), Track(h, s, Continue))
  {
    hide Partition, SleepOn, Safe;
    var pc := PcOf(s, s.current);
    if s.locks[pc.l].acquiredId != s.current || s.ready == [] {
      CvDoesNotSleep(s, h, pc.c, pc.l);
      NoSleep(Become(s, Acquiring(pc.l)), CvQueue(pc.c));
    } else {
      CvSleeps(s, h, pc.c, pc.l);
    }
  }

  lemma NoSleep(s: Sched, q: Queue)
    ensures s.ready == [] ==> SleepOn(s, q) == s
  {
  }

  lemma JoinersWokenSafe(s: Sched, h: History, t: int)
    requires Safe(s, h)
    ensures Safe(WakeAll(s, Joiners(t)), h)
  {
    hide WakeAll, HeldBy, WaitingOn;
    WakeAllIsFifo(s, Joiners(t));
  }

  lemma LeaveSafe(s: Sched, h: History, t: int)
    requires Safe(s, h) && t == s.current && PcOf(s, t) == Idle && s.ready != [] && s.ready[0] != t
    ensures Safe(Dispatch(s.(threads := s.threads[t := Thread(false, Exited)])), SetHeld(h, t, {}))
  {
    hide HeldBy, WaitingOn, SetHeld;
  }

  lemma ExitSafe(s: Sched, h: History)
    requires Partition(s) && Safe(s, h) && PcOf(s, s.current) == Idle
    ensures Safe(ExitStep(s), Track(h, s, Exit))
  {
    hide WakeAll, HeldBy, WaitingOn, SetHeld, Safe;
    JoinersWokenSafe(s, h, s.current);
    WakeAllIsFifo(s, Joiners(s.current));
    WakeAllKeeps(s, Joiners(s.current));
    var w := WakeAll(s, Joiners(s.current));
    assert w.ready != [] ==> w.ready[0] != s.current;
    hide Partition;
    if w.ready != [] {
      LeaveSafe(w, h, s.current);
    }
  }

  lemma SignalSafe(s: Sched, h: History, c: int)
    requires Safe(s, h) && PcOf(s, s.current) == Idle
    ensures Safe(WakeOne(s, CvQueue(c)), SetWaiting(h, c, DropFirst(WaitingOn(h, c))))
  {
    hide WakeOne, HeldBy, WaitingOn, SetWaiting;
    WakeFacts(s, CvQueue(c));
    assert WaitingOn(h, c) == QueueOf(s, CvQueue(c));
    NotifiedSafe(s, h, WakeOne(s, CvQueue(c)), c);
  }

  lemma BroadcastSafe(s: Sched, h: History, c: int)
    requires Safe(s, h) && PcOf(s, s.current) == Idle
    ensures Safe(WakeAll(s, CvQueue(c)), SetWaiting(h, c, []))
  {
    hide WakeAll, HeldBy, WaitingOn, SetWaiting, Safe;
    WakeAllIsFifo(s, CvQueue(c));
    NotifiedSafe(s, h, WakeAll(s, CvQueue(c)), c);
  }

  /** The waiters of one condition variable changed, and the record of them with it. */
  lemma NotifiedSafe(s: Sched, h: History, s': Sched, c: int)
    requires Safe(s, h) && PcOf(s, s.current) == Idle
    requires s'.locks == s.locks && s'.pcs == s.pcs && s'.current == s.current
    requires forall r :: r != CvQueue(c) ==> QueueOf(s', r) == QueueOf(s, r)
    ensures Safe(s', SetWaiting(h, c, QueueOf(s', CvQueue(c))))
  {
    hide HeldBy, WaitingOn, SetWaiting, QueueOf;
  }

  lemma UserWakeSafe(s: Sched, h: History, q: int)
    requires Safe(s, h)
    ensures Safe(WakeOne(s, User(q)), h)
  {
    hide WakeOne, HeldBy, WaitingOn;
    WakeFacts(s, User(q));
  }

  lemma UserWakeAllSafe(s: Sched, h: History, q: int)
    requires Safe(s, h)
    ensures Safe(WakeAll(s, User(q)), h)
  {
    hide WakeAll, HeldBy, WaitingOn;
    WakeAllIsFifo(s, User(q));
  }

  lemma YieldSafe(s: Sched, h: History, want: int)
    requires Partition(s) && Safe(s, h) && PcOf(s, s.current) == Idle
    ensures Safe(YieldStep(s, want), h)
  {
    hide Partition, Without;
  }

  lemma CreateSafe(s: Sched, h: History)
    requires Partition(s) && Safe(s, h)
    ensures Safe(CreateStep(s), h)
  {
    hide FreeId;
    FreeIdIsFree(s, 1);
    assert Exists(s, s.current);
    hide Partition;
  }

  /** Every step by disciplined threads keeps the locks and condition variables safe. */
  lemma StepSafe(s: Sched, h: History, a: Action)
    requires Partition(s) && Safe(s, h) && Enabled(s, a) && Disciplined(h, s, a)
    ensures Safe(Step(s, a), Track(h, s, a))
  {
    hide Partition, Safe, SleepOn, WakeAll, WakeOne, CreateStep, YieldStep, ExitStep, AcquireStep, ReleaseStep, TrackAcquire;
    match a
    case Create => CreateSafe(s, h);
    case Yield(want) => YieldSafe(s, h, want);
    case Exit => ExitSafe(s, h);
    case Sleep(q) => PlainSleepSafe(s, h, User(q));
    case Wakeup(q, all) => UserWakeSafe(s, h, q); UserWakeAllSafe(s, h, q);
    case Wait(tid) => PlainSleepSafe(s, h, Joiners(tid));
    case NewLock(l) => NewLockSafe(s, h, l);
    case Acquire(l) => AcquireSafe(s, h, l);
    case Release(l) => ReleaseSafe(s, h, l, s.current);
    case CvWait(c, l) => CvWaitSafe(s, h, c, l);
    case Signal(c, l) => SignalSafe(s, h, c);
    case Broadcast(c, l) => BroadcastSafe(s, h, c);
    case Continue =>
      match PcOf(s, s.current) {
        case Acquiring(l) => AcquireSafe(s, h, l);
        case CvReleased(c, l) => CvSleepSafe(s, h);
        case Idle =>
      }
  }

  lemma NewLockSafe(s: Sched, h: History, l: int)
    requires Safe(s, h) && l !in s.locks
    ensures Safe(s.(locks := s.locks[l := Lock(true, -1)]), h)
  {
  }

  /** lock_release does not check who holds the lock. The record of holders stays
      right exactly when no other thread holds the lock that is released. */
  lemma UncheckedRelease(s: Sched, h: History, l: int)
    requires Safe(s, h) && Enabled(s, Release(l))
    ensures HoldersKnown(Step(s, Release(l)), Track(h, s, Release(l)))
            <==> forall t :: t != s.current ==> l !in HeldBy(h, t)
  {
    hide ReleaseStep, HeldBy, WaitingOn, SetHeld;
    ReleaseFacts(s, l);
    var s', h' := Step(s, Release(l)), Track(h, s, Release(l));
    if t :| t != s.current && l in HeldBy(h, t) {
      assert l in HeldBy(h', t) && s'.locks[l].available;
    } else {
      assert HoldersKnown(s', h');
    }
  }

  // ------------------------------------------------------------------ whole runs

  ghost function HistoryAt(states: seq<Sched>, actions: seq<Action>, n: nat): History
    requires IsRun(states, actions) && n <= |actions|
  {
    if n == 0 then History(map[], map[]) else Track(HistoryAt(states, actions, n - 1), states[n - 1], actions[n - 1])
  }

  ghost predicate DisciplinedRun(states: seq<Sched>, actions: seq<Action>) {
    && IsRun(states, actions) && states[0] == Init
    && (forall i :: 0 <= i < |actions| ==> Disciplined(HistoryAt(states, actions, i), states[i], actions[i]))
  }

  lemma {:induction false} RunsAreSafe(states: seq<Sched>, actions: seq<Action>, n: nat)
    requires DisciplinedRun(states, actions) && n <= |actions|
    ensures Safe(states[n], HistoryAt(states, actions, n))
  {
    hide Partition, Step, Track, Enabled, Disciplined;
    if n > 0 {
      RunsAreSafe(states, actions, n - 1);
      RunsArePartitioned(states, actions, n - 1);
      assert states[n - 1 + 1] == Step(states[n - 1], actions[n - 1]);
      hide Safe;
      StepSafe(states[n - 1], HistoryAt(states, actions, n - 1), actions[n - 1]);
    }
  }

  /** Mutual exclusion in every reachable state: two threads never hold the same lock,
      the holder is the one the lock names, and a free lock has no one waiting. */
  lemma MutualExclusion(states: seq<Sched>, actions: seq<Action>, n: nat, l: int, t: int, u: int)
    requires DisciplinedRun(states, actions) && n <= |actions|
    ensures var h := HistoryAt(states, actions, n);
            && (l in HeldBy(h, t) && l in HeldBy(h, u) ==> t == u)
            && (l in HeldBy(h, t) ==> l in states[n].locks && states[n].locks[l] == Lock(false, t))
            && (l in states[n].locks && states[n].locks[l].available ==> QueueOf(states[n], LockQueue(l)) == [])
  {
    hide HistoryAt, Safe, Partition, HeldBy;
    RunsAreSafe(states, actions, n);
    OneHolder(states[n], HistoryAt(states, actions, n), l, t, u);
  }

  lemma OneHolder(s: Sched, h: History, l: int, t: int, u: int)
    requires Safe(s, h)
    ensures l in HeldBy(h, t) && l in HeldBy(h, u) ==> t == u
    ensures l in HeldBy(h, t) ==> l in s.locks && s.locks[l] == Lock(false, t)
    ensures l in s.locks && s.locks[l].available ==> QueueOf(s, LockQueue(l)) == []
  {
    hide HeldBy;
  }

  /** No lost wake-up: when the holder signals, the thread that has waited longest on
      the condition variable is put on the ready list; a broadcast puts all of them
      there, in the order of their calls to cv_wait. */
  lemma SignalsReachWaiters(states: seq<Sched>, actions: seq<Action>, n: nat, c: int, l: int)
    requires DisciplinedRun(states, actions) && n < |actions| && l in states[n].locks
    requires actions[n] == Signal(c, l) || actions[n] == Broadcast(c, l)
    requires l in HeldBy(HistoryAt(states, actions, n), states[n].current)
    ensures var w := WaitingOn(HistoryAt(states, actions, n), c);
            && (actions[n].Broadcast? ==> states[n + 1].ready == states[n].ready + w)
            && (actions[n].Signal? && w != [] ==> states[n + 1].ready == states[n].ready + [w[0]])
  {
    RunsAreSafe(states, actions, n);
    assert Enabled(states[n], actions[n]) && states[n + 1] == Step(states[n], actions[n]);
    hide WakeAll;
    WakeAllIsFifo(states[n], CvQueue(c));
  }

  /** A run from thread_init in which the main thread releases a lock that another thread
      holds, and takes it: two threads hold one lock. */
  lemma StolenLock() returns (states: seq<Sched>, actions: seq<Action>)
    ensures IsRun(states, actions) && states[0] == Init
    ensures var h := HistoryAt(states, actions, |actions|); 7 in HeldBy(h, 0) && 7 in HeldBy(h, 1)
  {
    hide Step, Enabled, HistoryAt;
    actions := [NewLock(7), Create, Yield(1), Acquire(7), Yield(0), Release(7), Acquire(7)];
    var s1, s2, s3 := TwoThreads();
    var s4, s5 := OtherTakes(s3);
    var s6, s7 := MainSteals(s5);
    states := [Init, s1, s2, s3, s4, s5, s6, s7];
    TrackedSteps(states, actions);
  }

  lemma TwoThreads() returns (s1: Sched, s2: Sched, s3: Sched)
    ensures Enabled(Init, NewLock(7)) && s1 == Step(Init, NewLock(7))
    ensures Enabled(s1, Create) && s2 == Step(s1, Create)
    ensures Enabled(s2, Yield(1)) && s3 == Step(s2, Yield(1))
    ensures s3.current == 1 && s3.ready == [0] && s3.locks == map[7 := Lock(true, -1)] && s3.queues == map[]
    ensures PcOf(s3, 0) == PcOf(s3, 1) == Idle
  {
    s1 := Step(Init, NewLock(7));
    assert FreeId(s1, 1) == 1;
    s2 := Step(s1, Create);
    assert s2.ready == [1] && s2.current == 0;
    s3 := Step(s2, Yield(1));
  }

  lemma OtherTakes(s3: Sched) returns (s4: Sched, s5: Sched)
    requires s3.current == 1 && s3.ready == [0] && s3.locks == map[7 := Lock(true, -1)] && s3.queues == map[]
    requires PcOf(s3, 0) == PcOf(s3, 1) == Idle
    ensures Enabled(s3, Acquire(7)) && s4 == Step(s3, Acquire(7))
    ensures Enabled(s4, Yield(0)) && s5 == Step(s4, Yield(0))
    ensures s5.current == 0 && s5.ready == [1] && s5.locks == map[7 := Lock(false, 1)] && s5.queues == map[]
    ensures PcOf(s5, 0) == Idle
  {
    s4 := Step(s3, Acquire(7));
    s5 := Step(s4, Yield(0));
    assert Without([0, 1], 0) == [1];
  }

  lemma MainSteals(s5: Sched) returns (s6: Sched, s7: Sched)
    requires s5.current == 0 && s5.ready == [1] && s5.locks == map[7 := Lock(false, 1)] && s5.queues == map[]
    requires PcOf(s5, 0) == Idle
    ensures Enabled(s5, Release(7)) && s6 == Step(s5, Release(7))
    ensures Enabled(s6, Acquire(7)) && s7 == Step(s6, Acquire(7))
    ensures s6.current == 0 && 7 in s6.locks && s6.locks[7].available
  {
    s6 := Step(s5, Release(7));
    s7 := Step(s6, Acquire(7));
  }

  lemma TrackedSteps(states: seq<Sched>, actions: seq<Action>)
    requires IsRun(states, actions)
    requires actions == [NewLock(7), Create, Yield(1), Acquire(7), Yield(0), Release(7), Acquire(7)]
    requires states[3].current == 1 && states[5].current == 0 && states[6].current == 0
    requires 7 in states[3].locks && states[3].locks[7].available && 7 in states[6].locks && states[6].locks[7].available
    ensures var h := HistoryAt(states, actions, 7); 7 in HeldBy(h, 0) && 7 in HeldBy(h, 1)
  {
    assert Enabled(states[3], actions[3]) && Enabled(states[5], actions[5]) && Enabled(states[6], actions[6]);
    assert HistoryAt(states, actions, 4) == Track(HistoryAt(states, actions, 3), states[3], Acquire(7));
    assert 7 in HeldBy(HistoryAt(states, actions, 4), 1);
    assert HistoryAt(states, actions, 5) == Track(HistoryAt(states, actions, 4), states[4], Yield(0));
    assert HistoryAt(states, actions, 6) == Track(HistoryAt(states, actions, 5), states[5], Release(7));
    assert 7 in HeldBy(HistoryAt(states, actions, 6), 1);
    assert HistoryAt(states, actions, 7) == Track(HistoryAt(states, actions, 6), states[6], Acquire(7));
  }
}
