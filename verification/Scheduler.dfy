/** The user-level thread scheduler (threads/thread.c) as a step relation: what
    runs between disabling interrupts and the next context switch is one step. */
module Scheduler {
  import opened Sequences

  const MAX_THREADS: int := 1024
  const THREAD_ANY: int := -1
  const THREAD_SELF: int := -2

  datatype Status = Ready | Running | Exited | Suspended

  datatype Thread = Thread(exist: bool, status: Status)

  /** A wait queue belongs to a thread (its joiners), a lock, a condition variable or the user. */
  datatype Queue = Joiners(tid: int) | LockQueue(l: int) | CvQueue(c: int) | User(q: int)

  datatype Lock = Lock(available: bool, acquiredId: int)

  /** What a thread does when it runs next: user code, the loop of lock_acquire, or
      the part of cv_wait after the lock was released. */
  datatype Pc = Idle | Acquiring(l: int) | CvReleased(c: int, l: int)

  datatype Sched = Sched(
    threads: map<int, Thread>,
    ready: seq<int>,
    queues: map<Queue, seq<int>>,
    current: int,
    locks: map<int, Lock>,
    pcs: map<int, Pc>)

  datatype Action =
    | Create
    | Yield(want: int)
    | Exit
    | Sleep(q: int)
    | Wakeup(q: int, all: bool)
    | Wait(tid: int)
    | NewLock(l: int)
    | Acquire(l: int)
    | Release(l: int)
    | CvWait(c: int, l: int)
    | Signal(c: int, l: int)
    | Broadcast(c: int, l: int)
    | Continue

  // ------------------------------------------------------------------ queries

  function QueueOf(s: Sched, q: Queue): seq<int> {
    if q in s.queues then s.queues[q] else []
  }

  predicate Exists(s: Sched, t: int) {
    t in s.threads && s.threads[t].exist
  }

  function PcOf(s: Sched, t: int): Pc {
    if t in s.pcs then s.pcs[t] else Idle
  }

  // ---------------------------------------------------------- building blocks

  /** pushbackRL of an existing thread */
  function MakeReady(s: Sched, t: int): Sched {
    s.(ready := s.ready + [t], threads := s.threads[t := Thread(true, Ready)])
  }

  /** Run the thread at the head of the ready list. */
  function Dispatch(s: Sched): Sched
    requires s.ready != []
  {
    var t := s.ready[0];
    s.(ready := s.ready[1..], current := t, threads := s.threads[t := Thread(true, Running)])
  }

  /** Move the first sleeper of a queue to the end of the ready list. */
  function WakeOne(s: Sched, q: Queue): Sched {
    if QueueOf(s, q) == [] then s
    else MakeReady(s.(queues := s.queues[q := QueueOf(s, q)[1..]]), QueueOf(s, q)[0])
  }

  function WakeAll(s: Sched, q: Queue): Sched
    decreases |QueueOf(s, q)|
  {
    if QueueOf(s, q) == [] then s else WakeAll(WakeOne(s, q), q)
  }

  /** thread_sleep: park the running thread and dispatch; without another thread it fails. */
  function SleepOn(s: Sched, q: Queue): Sched {
    if s.ready == [] then s
    else
      var parked := s.(queues := s.queues[q := QueueOf(s, q) + [s.current]],
                       threads := s.threads[s.current := Thread(true, Suspended)]);
      Dispatch(parked)
  }

  function Become(s: Sched, pc: Pc): Sched {
    s.(pcs := s.pcs[s.current := pc])
  }

  // -------------------------------------------------------------------- steps

  /** The smallest free identifier from `id` on, or MAX_THREADS. */
  function FreeId(s: Sched, id: int): int
    requires id <= MAX_THREADS
    decreases MAX_THREADS - id
  {
    if id == MAX_THREADS || !Exists(s, id) then id else FreeId(s, id + 1)
  }

  function CreateStep(s: Sched): Sched {
    var id := FreeId(s, 1);
    if id == MAX_THREADS then s
    else MakeReady(s.(pcs := s.pcs[id := Idle]), id)
  }

  function YieldTarget(s: Sched, want: int): int {
    if want == THREAD_ANY then (if s.ready == [] then -1 else s.ready[0])
    else if want == THREAD_SELF || want == s.current then s.current
    else if want in s.ready then want else -1
  }

  function YieldStep(s: Sched, want: int): Sched {
    var t := YieldTarget(s, want);
    if t == -1 then s
    else
      var queued := MakeReady(s, s.current);
      queued.(ready := Without(queued.ready, t), current := t, threads := queued.threads[t := Thread(true, Running)])
  }

  function ExitStep(s: Sched): Sched {
    var woken := WakeAll(s, Joiners(s.current));
    if woken.ready == [] then woken
    else Dispatch(woken.(threads := woken.threads[s.current := Thread(false, Exited)]))
  }

  function AcquireStep(s: Sched, l: int): Sched
    requires l in s.locks
  {
    if s.locks[l].available
    then Become(s.(locks := s.locks[l := Lock(false, s.current)]), Idle)
    else SleepOn(Become(s, Acquiring(l)), LockQueue(l))
  }

  function ReleaseStep(s: Sched, l: int): Sched
    requires l in s.locks
  {
    if s.locks[l].available then s
    else WakeAll(s.(locks := s.locks[l := s.locks[l].(available := true)]), LockQueue(l))
  }

  predicate Enabled(s: Sched, a: Action) {
    match a
    case Continue => PcOf(s, s.current) != Idle && PcOf(s, s.current).l in s.locks
    case Acquire(l) => PcOf(s, s.current) == Idle && l in s.locks
    case Release(l) => PcOf(s, s.current) == Idle && l in s.locks
    case CvWait(_, l) => PcOf(s, s.current) == Idle && l in s.locks
    case Signal(_, l) => PcOf(s, s.current) == Idle && l in s.locks
    case Broadcast(_, l) => PcOf(s, s.current) == Idle && l in s.locks
    case NewLock(l) => PcOf(s, s.current) == Idle && l !in s.locks
    case _ => PcOf(s, s.current) == Idle
  }

  function Step(s: Sched, a: Action): Sched
    requires Enabled(s, a)
  {
    match a
    case Create => CreateStep(s)
    case Yield(want) => YieldStep(s, want)
    case Exit => ExitStep(s)
    case Sleep(q) => SleepOn(s, User(q))
    case Wakeup(q, all) => if all then WakeAll(s, User(q)) else WakeOne(s, User(q))
    case Wait(tid) => if tid == s.current || !Exists(s, tid) then s else SleepOn(s, Joiners(tid))
    case NewLock(l) => s.(locks := s.locks[l := Lock(true, -1)])
    case Acquire(l) => AcquireStep(s, l)
    case Release(l) => ReleaseStep(s, l)
    case CvWait(c, l) => Become(ReleaseStep(s, l), CvReleased(c, l))
    case Signal(c, l) => if s.locks[l].acquiredId == s.current then WakeOne(s, CvQueue(c)) else s
    case Broadcast(c, l) => if s.locks[l].acquiredId == s.current then WakeAll(s, CvQueue(c)) else s
    case Continue =>
      match PcOf(s, s.current)
      case Acquiring(l) => AcquireStep(s, l)
      case CvReleased(c, l) =>
        var waiting := Become(s, Acquiring(l));
        if s.locks[l].acquiredId == s.current then SleepOn(waiting, CvQueue(c)) else waiting
      case Idle => s
  }

  // -------------------------------------------------------- partition of threads

  /** Each existing thread is running, in the ready list, or in one wait queue:
      exactly one of them, once, with the status to match. */
  ghost predicate Partition(s: Sched) {
    && NoDup(s.ready) && s.current !in s.ready
    && (forall q :: q in s.queues ==> NoDup(s.queues[q]))
    && (forall q, t :: q in s.queues && t in s.queues[q] ==> t != s.current && t !in s.ready)
    && (forall q, r, t :: q in s.queues && r in s.queues && t in s.queues[q] && t in s.queues[r] ==> q == r)
    && Exists(s, s.current) && s.threads[s.current].status == Running
    && (forall t :: t in s.ready ==> Exists(s, t) && s.threads[t].status == Ready)
    && (forall q, t :: q in s.queues && t in s.queues[q] ==> Exists(s, t) && s.threads[t].status == Suspended)
    && (forall t :: Exists(s, t) ==> 0 <= t < MAX_THREADS && Located(s, t))
  }

  ghost predicate Located(s: Sched, t: int) {
    t == s.current || t in s.ready || exists q :: q in s.queues && t in s.queues[q]
  }

  // ---------------------------------------------- every step keeps the partition

  lemma WakeOneKeeps(s: Sched, q: Queue)
    requires Partition(s)
    ensures Partition(WakeOne(s, q)) && WakeOne(s, q).current == s.current
  {
    hide NoDup;
    var ts := QueueOf(s, q);
    if ts != [] {
      var s' := WakeOne(s, q);
      NoDupTail(ts);
      NoDupAppend(s.ready, ts[0]);
      forall t | Exists(s', t) ensures 0 <= t < MAX_THREADS && Located(s', t) {
        assert Exists(s, t) && Located(s, t);
        if t != s.current && t !in s.ready && t != ts[0] {
          var r :| r in s.queues && t in s.queues[r];
          assert r in s'.queues && t in s'.queues[r];
        }
      }
    }
  }

  lemma {:induction false} WakeAllKeeps(s: Sched, q: Queue)
    requires Partition(s)
    ensures Partition(WakeAll(s, q)) && WakeAll(s, q).current == s.current
    decreases |QueueOf(s, q)|
  {
    hide Partition;
    if QueueOf(s, q) != [] {
      WakeOneKeeps(s, q);
      WakeAllKeeps(WakeOne(s, q), q);
    }
  }

  lemma SleepLocates(s: Sched, q: Queue, t: int)
    requires Partition(s) && s.ready != [] && Exists(SleepOn(s, q), t)
    ensures 0 <= t < MAX_THREADS && Located(SleepOn(s, q), t)
  {
    hide NoDup;
    var s' := SleepOn(s, q);
    assert Exists(s, t) && Located(s, t);
    if t == s.current {
      assert t in s'.queues[q];
    } else if t !in s.ready {
      var r :| r in s.queues && t in s.queues[r];
      assert r in s'.queues && t in s'.queues[r];
    }
  }

  lemma SleepKeeps(s: Sched, q: Queue)
    requires Partition(s)
    ensures Partition(SleepOn(s, q))
  {
    hide NoDup, Located;
    if s.ready != [] {
      var s' := SleepOn(s, q);
      NoDupTail(s.ready);
      EmptyNoDup<int>();
      NoDupAppend(QueueOf(s, q), s.current);
      forall t | Exists(s', t) ensures 0 <= t < MAX_THREADS && Located(s', t) {
        SleepLocates(s, q, t);
      }
    }
  }

  lemma {:induction false} FreeIdIsFree(s: Sched, id: int)
    requires 1 <= id <= MAX_THREADS
    ensures id <= FreeId(s, id) <= MAX_THREADS
    ensures FreeId(s, id) < MAX_THREADS ==> !Exists(s, FreeId(s, id))
    ensures forall k :: id <= k < FreeId(s, id) ==> Exists(s, k)
    decreases MAX_THREADS - id
  {
    if id != MAX_THREADS && Exists(s, id) {
      FreeIdIsFree(s, id + 1);
    }
  }

  /** A new thread gets the smallest identifier above 0 that is not in use; there is
      none exactly when all are in use. */
  lemma CreateKeeps(s: Sched)
    requires Partition(s)
    ensures Partition(CreateStep(s))
    ensures FreeId(s, 1) == MAX_THREADS <==> forall k :: 1 <= k < 1024 ==> Exists(s, k)
  {
    hide NoDup, FreeId;
    FreeIdIsFree(s, 1);
    var id := FreeId(s, 1);
    if id < MAX_THREADS {
      var s' := CreateStep(s);
      NoDupAppend(s.ready, id);
      forall t | Exists(s', t) ensures 0 <= t < MAX_THREADS && Located(s', t) {
        if t != id {
          assert Exists(s, t) && Located(s, t);
          if t != s.current && t !in s.ready {
            var r :| r in s.queues && t in s.queues[r];
            assert r in s'.queues && t in s'.queues[r];
          }
        }
      }
    }
  }

  /** When there is no memory for a stack, thread_create returns with the thread
      marked as existing but in no queue, which the partition does not survive. */
  lemma CreateWithoutMemory(s: Sched)
    requires Partition(s) && FreeId(s, 1) < MAX_THREADS
    ensures !Partition(s.(threads := s.threads[FreeId(s, 1) := Thread(true, Ready)]))
  {
    FreeIdIsFree(s, 1);
    var id := FreeId(s, 1);
    var s' := s.(threads := s.threads[id := Thread(true, Ready)]);
    if Located(s', id) {
      assert Located(s, id);
    }
    assert Exists(s', id);
  }

  lemma YieldKeeps(s: Sched, want: int)
    requires Partition(s)
    ensures Partition(YieldStep(s, want))
  {
    hide NoDup, Without;
    var t := YieldTarget(s, want);
    if t != -1 {
      var s' := YieldStep(s, want);
      NoDupAppend(s.ready, s.current);
      WithoutMembers(s.ready + [s.current], t);
      forall x | Exists(s', x) ensures 0 <= x < MAX_THREADS && Located(s', x) {
        assert Exists(s, x) && Located(s, x);
        if x != s.current && x !in s.ready {
          var r :| r in s.queues && x in s.queues[r];
          assert r in s'.queues && x in s'.queues[r];
        }
      }
    }
  }

  lemma ExitKeeps(s: Sched)
    requires Partition(s)
    ensures Partition(ExitStep(s))
  {
    hide NoDup, WakeAll;
    WakeAllKeeps(s, Joiners(s.current));
    var w := WakeAll(s, Joiners(s.current));
    if w.ready != [] {
      var s' := ExitStep(s);
      NoDupTail(w.ready);
      forall x | Exists(s', x) ensures 0 <= x < MAX_THREADS && Located(s', x) {
        assert Exists(w, x) && Located(w, x);
        if x !in w.ready {
          var r :| r in w.queues && x in w.queues[r];
          assert r in s'.queues && x in s'.queues[r];
        }
      }
    }
  }

  /** Partition does not look at locks or program counters. */
  lemma PartitionIgnoresPcs(s: Sched, s': Sched)
    requires Partition(s) && s'.threads == s.threads && s'.ready == s.ready && s'.queues == s.queues && s'.current == s.current
    ensures Partition(s')
  {
    hide NoDup;
    assert forall t :: Exists(s', t) <==> Exists(s, t);
    assert forall t :: Located(s', t) <==> Located(s, t);
  }

  lemma ReleaseKeeps(s: Sched, l: int)
    requires Partition(s) && l in s.locks
    ensures Partition(ReleaseStep(s, l)) && ReleaseStep(s, l).current == s.current
  {
    hide Partition, WakeAll;
    if !s.locks[l].available {
      var s1 := s.(locks := s.locks[l := s.locks[l].(available := true)]);
      PartitionIgnoresPcs(s, s1);
      WakeAllKeeps(s1, LockQueue(l));
    }
  }

  lemma AcquireKeeps(s: Sched, l: int)
    requires Partition(s) && l in s.locks
    ensures Partition(AcquireStep(s, l))
  {
    hide Partition, SleepOn;
    PartitionIgnoresPcs(s, Become(s, Acquiring(l)));
    SleepKeeps(Become(s, Acquiring(l)), LockQueue(l));
    if s.locks[l].available {
      PartitionIgnoresPcs(s, AcquireStep(s, l));
    }
  }

  /** Every step, by whichever thread, keeps the partition. */
  lemma StepKeepsPartition(s: Sched, a: Action)
    requires Partition(s) && Enabled(s, a)
    ensures Partition(Step(s, a))
  {
    hide Partition, SleepOn, WakeAll, WakeOne, CreateStep, YieldStep, ExitStep, AcquireStep, ReleaseStep;
    match a
    case Create => CreateKeeps(s);
    case Yield(want) => YieldKeeps(s, want);
    case Exit => ExitKeeps(s);
    case Sleep(q) => SleepKeeps(s, User(q));
    case Wakeup(q, all) => WakeAllKeeps(s, User(q)); WakeOneKeeps(s, User(q));
    case Wait(tid) => SleepKeeps(s, Joiners(tid));
    case NewLock(l) => PartitionIgnoresPcs(s, Step(s, a));
    case Acquire(l) => AcquireKeeps(s, l);
    case Release(l) => ReleaseKeeps(s, l);
    case CvWait(c, l) =>
      ReleaseKeeps(s, l);
      PartitionIgnoresPcs(ReleaseStep(s, l), Step(s, a));
    case Signal(c, l) => WakeOneKeeps(s, CvQueue(c));
    case Broadcast(c, l) => WakeAllKeeps(s, CvQueue(c));
    case Continue =>
      match PcOf(s, s.current) {
        case Acquiring(l) => AcquireKeeps(s, l);
        case CvReleased(c, l) =>
          PartitionIgnoresPcs(s, Become(s, Acquiring(l)));
          SleepKeeps(Become(s, Acquiring(l)), CvQueue(c));
        case Idle =>
      }
  }

  // ------------------------------------------------------------------ whole runs

  /** thread_init: thread 0 is running and nothing else exists. */
  const Init: Sched := Sched(map[0 := Thread(true, Running)], [], map[], 0, map[], map[])

  ghost predicate IsRun(states: seq<Sched>, actions: seq<Action>) {
    && |states| == |actions| + 1
    && (forall i :: 0 <= i < |actions| ==> Enabled(states[i], actions[i]) && states[i + 1] == Step(states[i], actions[i]))
  }

  lemma InitIsPartition()
    ensures Partition(Init)
  {
    forall t | Exists(Init, t) ensures Located(Init, t) {
    }
  }

  /** In every state of every run from thread_init each existing thread is in exactly one place. */
  lemma {:induction false} RunsArePartitioned(states: seq<Sched>, actions: seq<Action>, i: int)
    requires IsRun(states, actions) && states[0] == Init && 0 <= i < |states|
    ensures Partition(states[i])
  {
    hide Partition, Step, Enabled;
    if i == 0 {
      InitIsPartition();
    } else {
      RunsArePartitioned(states, actions, i - 1);
      assert states[i - 1 + 1] == Step(states[i - 1], actions[i - 1]);
      StepKeepsPartition(states[i - 1], actions[i - 1]);
    }
  }

  /** The state after the actions; one that is not enabled does not happen. */
  function After(s: Sched, actions: seq<Action>): Sched
    decreases |actions|
  {
    if actions == [] then s
    else After(if Enabled(s, actions[0]) then Step(s, actions[0]) else s, actions[1..])
  }

  lemma {:induction false} AfterMore(s: Sched, actions: seq<Action>, a: Action)
    ensures After(s, actions + [a]) ==
            var s' := After(s, actions); if Enabled(s', a) then Step(s', a) else s'
    decreases |actions|
  {
    hide Enabled, Step;
    if actions == [] {
      assert [a][1..] == [];
    } else {
      assert (actions + [a])[1..] == actions[1..] + [a];
      AfterMore(if Enabled(s, actions[0]) then Step(s, actions[0]) else s, actions[1..], a);
    }
  }

  /** The end of a run is where its actions lead. */
  lemma {:induction false} RunEnds(states: seq<Sched>, actions: seq<Action>, n: nat)
    requires IsRun(states, actions) && n <= |actions|
    ensures states[n] == After(states[0], actions[..n])
  {
    hide Step, Enabled;
    if n > 0 {
      RunEnds(states, actions, n - 1);
      assert actions[..n] == actions[..n - 1] + [actions[n - 1]];
      AfterMore(states[0], actions[..n - 1], actions[n - 1]);
      assert states[n - 1 + 1] == Step(states[n - 1], actions[n - 1]);
    }
  }
}
