/** Who waits for what in the scheduler (threads/thread.c): a thread that went to sleep in
    a call is made ready by the matching call, in order, and by no other. */
module SchedulerWaits {
  import opened Sequences
  import opened Scheduler
  import opened SchedulerOrder
  import opened SchedulerLocks

  // ---------------------------------------------------------------- single steps

  /** The running thread goes to sleep on `q`: there is another thread to run, and it
      waits for a thread that exists, an event, a lock that is taken, or a signal. */
  predicate Sleeps(s: Sched, a: Action, q: Queue)
    requires Enabled(s, a)
  {
    s.ready != [] &&
    match a
    case Wait(tid) => tid != s.current && Exists(s, tid) && q == Joiners(tid)
    case Sleep(e) => q == User(e)
    case Acquire(l) => !s.locks[l].available && q == LockQueue(l)
    case Continue =>
      (match PcOf(s, s.current)
       case Acquiring(l) => !s.locks[l].available && q == LockQueue(l)
       case CvReleased(c, l) => s.locks[l].acquiredId == s.current && q == CvQueue(c)
       case Idle => false)
    case _ => false
  }

  /** The running thread wakes those who sleep on `q`. */
  predicate Wakes(s: Sched, a: Action, q: Queue)
    requires Enabled(s, a)
  {
    match a
    case Exit => q == Joiners(s.current)
    case Wakeup(e, _) => q == User(e)
    case Release(l) => !s.locks[l].available && q == LockQueue(l)
    case CvWait(_, l) => !s.locks[l].available && q == LockQueue(l)
    case Signal(c, l) => s.locks[l].acquiredId == s.current && q == CvQueue(c)
    case Broadcast(c, l) => s.locks[l].acquiredId == s.current && q == CvQueue(c)
    case _ => false
  }

  predicate OnlyOne(a: Action) {
    a.Signal? || (a.Wakeup? && !a.all)
  }

  /** How many of a queue are woken. */
  function Awakened(s: Sched, a: Action, q: Queue): nat
    requires Enabled(s, a)
  {
    if !Wakes(s, a, q) || QueueOf(s, q) == [] then 0 else if OnlyOne(a) then 1 else |QueueOf(s, q)|
  }

  /** What a step does to a queue: some leave at the front, and the caller may join at
      the end. */
  lemma StepOnQueue(s: Sched, a: Action, q: Queue)
    requires Partition(s) && Enabled(s, a)
    ensures QueueOf(Step(s, a), q) == QueueOf(s, q)[Awakened(s, a, q)..] + (if Sleeps(s, a, q) then [s.current] else [])
  {
    hide Partition, WakeAll, WakeOne, SleepOn, CreateStep, YieldStep, ExitStep, AcquireStep, ReleaseStep;
    match a
    case Create => CreateOnQueue(s, q);
    case Yield(want) => YieldOnQueue(s, want, q);
    case Exit => ExitOnQueue(s, q);
    case Sleep(e) => SleepFacts(s, User(e));
    case Wakeup(e, all) =>
      WakeAllIsFifo(s, User(e));
      WakeFacts(s, User(e));
    case Wait(tid) => SleepFacts(s, Joiners(tid));
    case NewLock(l) =>
    case Acquire(l) => AcquireOnQueue(s, l, q);
    case Release(l) => ReleaseFacts(s, l);
    case CvWait(c, l) =>
      ReleaseFacts(s, l);
      QueuesIgnorePcs(ReleaseStep(s, l), CvReleased(c, l));
    case Signal(c, l) => WakeFacts(s, CvQueue(c));
    case Broadcast(c, l) => WakeAllIsFifo(s, CvQueue(c));
    case Continue => ContinueOnQueue(s, q);
  }

  lemma ContinueOnQueue(s: Sched, q: Queue)
    requires Partition(s) && Enabled(s, Continue)
    ensures QueueOf(Step(s, Continue), q) == QueueOf(s, q) + (if Sleeps(s, Continue, q) then [s.current] else [])
  {
    hide Partition, SleepOn, AcquireStep;
    match PcOf(s, s.current) {
      case Acquiring(l) => AcquireOnQueue(s, l, q);
      case CvReleased(c, l) =>
        PartitionIgnoresPcs(s, Become(s, Acquiring(l)));
        QueuesIgnorePcs(s, Acquiring(l));
        SleepFacts(Become(s, Acquiring(l)), CvQueue(c));
      case Idle =>
    }
  }

  lemma YieldOnQueue(s: Sched, want: int, q: Queue)
    ensures QueueOf(YieldStep(s, want), q) == QueueOf(s, q)
  {
    hide Without;
  }

  lemma ExitOnQueue(s: Sched, q: Queue)
    ensures QueueOf(ExitStep(s), q) == if q == Joiners(s.current) then [] else QueueOf(s, q)
  {
    hide WakeAll;
    WakeAllIsFifo(s, Joiners(s.current));
  }

  lemma YieldToNamed(s: Sched, i: nat)
    requires Partition(s) && i < |s.ready|
    ensures Line(YieldStep(s, s.ready[i])) == [s.ready[i]] + s.ready[..i] + s.ready[i + 1..] + [s.current]
  {
    hide NoDup, Without;
    var t := s.ready[i];
    assert t in s.ready && t != s.current && Exists(s, t) && t >= 0;
    var more := s.ready + [s.current];
    NoDupAppend(s.ready, s.current);
    hide Partition;
    WithoutAt(more, i);
    assert more[..i] == s.ready[..i] && more[i + 1..] == s.ready[i + 1..] + [s.current];
  }

  lemma YieldToAny(s: Sched)
    requires Partition(s)
    ensures Line(YieldStep(s, THREAD_ANY)) == s.ready + [s.current]
  {
    if s.ready == [] {
      hide Partition;
    } else {
      YieldToNamed(s, 0);
      assert s.ready[0] in s.ready && Exists(s, s.ready[0]);
      hide Partition;
      assert s.ready[..0] == [] && s.ready == [s.ready[0]] + s.ready[1..];
    }
  }

  lemma YieldToNobodyElse(s: Sched, want: int)
    requires Partition(s) && want != THREAD_ANY && want !in s.ready
    ensures Line(YieldStep(s, want)) == Line(s)
  {
    hide NoDup, Without;
    WithoutLast(s.ready, s.current);
  }

  lemma CreateOnQueue(s: Sched, q: Queue)
    ensures QueueOf(CreateStep(s), q) == QueueOf(s, q)
  {
    hide FreeId;
  }

  lemma AcquireOnQueue(s: Sched, l: int, q: Queue)
    requires Partition(s) && l in s.locks
    ensures var sleeps := s.ready != [] && !s.locks[l].available && q == LockQueue(l);
            QueueOf(AcquireStep(s, l), q) == QueueOf(s, q) + (if sleeps then [s.current] else [])
  {
    hide Partition, SleepOn;
    PartitionIgnoresPcs(s, Become(s, Acquiring(l)));
    SleepFacts(Become(s, Acquiring(l)), LockQueue(l));
  }

  /** Those who are woken join the end of the ready list in their order; after an exit
      the head of that list runs. */
  lemma StepReadies(s: Sched, a: Action, q: Queue)
    requires Partition(s) && Enabled(s, a) && Wakes(s, a, q)
    ensures var s', ready := Step(s, a), s.ready + QueueOf(s, q)[..Awakened(s, a, q)];
            if a == Exit && ready != []
            then [s'.current] + s'.ready == ready && !Exists(s', s.current)
            else s'.ready == ready && s'.current == s.current
  {
    hide WakeAll;
    match a
    case Exit =>
      WakeAllIsFifo(s, Joiners(s.current));
      WakeAllKeeps(s, Joiners(s.current));
    case Wakeup(e, all) => WakeAllIsFifo(s, User(e));
    case Release(l) => ReleaseReadies(s, l);
    case CvWait(c, l) => ReleaseReadies(s, l);
    case Signal(c, l) =>
    case Broadcast(c, l) => WakeAllIsFifo(s, CvQueue(c));
  }

  lemma ReleaseReadies(s: Sched, l: int)
    requires l in s.locks && !s.locks[l].available
    ensures ReleaseStep(s, l).ready == s.ready + QueueOf(s, LockQueue(l)) && ReleaseStep(s, l).current == s.current
  {
    hide WakeAll;
    WakeAllIsFifo(s.(locks := s.locks[l := s.locks[l].(available := true)]), LockQueue(l));
  }

  /** A thread that goes to sleep hands over to the first that is ready. One that yields
      goes to the end, and a thread it names comes to the front; the others keep their order. */
  lemma StepOnLine(s: Sched, a: Action)
    requires Partition(s) && Enabled(s, a)
    ensures (exists q :: Sleeps(s, a, q)) ==> Line(Step(s, a)) == s.ready
    ensures a == Yield(THREAD_ANY) ==> Line(Step(s, a)) == s.ready + [s.current]
    ensures forall i :: 0 <= i < |s.ready| && a == Yield(s.ready[i]) ==>
                          Line(Step(s, a)) == [s.ready[i]] + s.ready[..i] + s.ready[i + 1..] + [s.current]
    ensures a.Yield? && a.want != THREAD_ANY && a.want !in s.ready ==> Line(Step(s, a)) == Line(s)
  {
    hide WakeAll, WakeOne, CreateStep, ExitStep, ReleaseStep, YieldStep, Partition;
    if a.Yield? {
      YieldToAny(s);
      forall i: nat | i < |s.ready| ensures Line(YieldStep(s, s.ready[i])) == [s.ready[i]] + s.ready[..i] + s.ready[i + 1..] + [s.current] {
        YieldToNamed(s, i);
      }
      if a.want != THREAD_ANY && a.want !in s.ready {
        YieldToNobodyElse(s, a.want);
      }
    }
  }

  /** The running thread and after it those that are ready, in the order they will run. */
  function Line(s: Sched): seq<int> {
    [s.current] + s.ready
  }

  // ------------------------------------------------------------------ whole runs

  ghost predicate StartedRun(states: seq<Sched>, actions: seq<Action>) {
    IsRun(states, actions) && states[0] == Init
  }

  /** Who sleeps on `q` stays where he is until a wake-up of `q`; others line up behind. */
  lemma {:induction false} QueueGrows(states: seq<Sched>, actions: seq<Action>, i: nat, j: nat, q: Queue)
    requires StartedRun(states, actions) && i <= j <= |actions|
    requires forall k :: i <= k < j ==> !Wakes(states[k], actions[k], q)
    ensures QueueOf(states[i], q) <= QueueOf(states[j], q)
  {
    hide Partition, Step, Enabled, QueueOf, Wakes, Sleeps;
    if i < j {
      QueueGrows(states, actions, i, j - 1, q);
      RunsArePartitioned(states, actions, j - 1);
      assert Enabled(states[j - 1], actions[j - 1]) && states[j - 1 + 1] == Step(states[j - 1], actions[j - 1]);
      StepOnQueue(states[j - 1], actions[j - 1], q);
      assert !Wakes(states[j - 1], actions[j - 1], q);
    }
  }

  /** A thread that went to sleep on `q` in step `i` does not run before a wake-up of `q`. */
  lemma SleeperStays(states: seq<Sched>, actions: seq<Action>, i: nat, j: nat, q: Queue)
    requires StartedRun(states, actions) && i < j <= |actions|
    requires Enabled(states[i], actions[i]) && Sleeps(states[i], actions[i], q)
    requires forall k :: i < k < j ==> !Wakes(states[k], actions[k], q)
    ensures var t := states[i].current;
            && t in QueueOf(states[j], q) && t != states[j].current && t !in states[j].ready
            && Exists(states[j], t) && states[j].threads[t].status == Suspended
  {
    hide Step, Enabled, Wakes, Sleeps;
    RunsArePartitioned(states, actions, i);
    StepOnQueue(states[i], actions[i], q);
    assert states[i + 1] == Step(states[i], actions[i]);
    QueueGrows(states, actions, i + 1, j, q);
    var before := QueueOf(states[i + 1], q);
    assert before[|before| - 1] == states[i].current;
    assert QueueOf(states[j], q)[|before| - 1] == states[i].current;
    RunsArePartitioned(states, actions, j);
    assert q in states[j].queues;
  }

  ghost predicate Asleep(s: Sched, t: int) {
    t != s.current && t !in s.ready && Exists(s, t) && s.threads[t].status == Suspended
  }

  /** thread_wait: a caller that went to sleep sleeps until thread `tid` exits, whoever
      else exits, and is then ready. It does not sleep for itself, for a thread that does
      not exist, or when nobody else can run. */
  lemma WaitLastsUntilExit(states: seq<Sched>, actions: seq<Action>, i: nat, j: nat, tid: int)
    requires StartedRun(states, actions) && i < j <= |actions| && actions[i] == Wait(tid)
    requires forall k :: i < k < j ==> !(actions[k] == Exit && states[k].current == tid)
    ensures var t := states[i].current;
            if t != tid && Exists(states[i], tid) && states[i].ready != []
            then
              && Asleep(states[j], t)
              && (j < |actions| && actions[j] == Exit && states[j].current == tid ==> t in Line(states[j + 1]))
            else states[i + 1] == states[i]
  {
    hide Partition, QueueOf, WakeAll, ExitStep;
    var t := states[i].current;
    var q := Joiners(tid);
    assert Enabled(states[i], actions[i]) && states[i + 1] == Step(states[i], actions[i]);
    if Sleeps(states[i], actions[i], q) {
      forall k | i < k < j ensures !Wakes(states[k], actions[k], q) {
        assert Enabled(states[k], actions[k]);
      }
      SleeperStays(states, actions, i, j, q);
      if j < |actions| && actions[j] == Exit && states[j].current == tid {
        WokenInOrder(states, actions, j, q);
      }
    }
  }

  /** thread_sleep on a queue of the user: until a thread_wakeup of that queue, and one of
      all makes the sleeper ready. */
  lemma SleepLastsUntilWakeup(states: seq<Sched>, actions: seq<Action>, i: nat, j: nat, e: int)
    requires StartedRun(states, actions) && i < j <= |actions| && actions[i] == Sleep(e)
    requires forall k :: i < k < j ==> !(actions[k].Wakeup? && actions[k].q == e)
    ensures var t := states[i].current;
            if states[i].ready != []
            then
              && Asleep(states[j], t)
              && (j < |actions| && actions[j] == Wakeup(e, true) ==> t in Line(states[j + 1]))
            else states[i + 1] == states[i]
  {
    hide Partition, QueueOf, WakeAll, WakeOne;
    var q := User(e);
    assert Enabled(states[i], actions[i]) && states[i + 1] == Step(states[i], actions[i]);
    if Sleeps(states[i], actions[i], q) {
      forall k | i < k < j ensures !Wakes(states[k], actions[k], q) {
        assert Enabled(states[k], actions[k]);
      }
      SleeperStays(states, actions, i, j, q);
      if j < |actions| && actions[j] == Wakeup(e, true) {
        WokenInOrder(states, actions, j, q);
      }
    }
  }

  /** lock_acquire of a lock that is taken: the caller sleeps until the lock is released,
      by lock_release or in cv_wait, and is then ready to try again. */
  lemma AcquireLastsUntilRelease(states: seq<Sched>, actions: seq<Action>, i: nat, j: nat, l: int)
    requires StartedRun(states, actions) && i < j <= |actions|
    requires actions[i] == Acquire(l) && l in states[i].locks && !states[i].locks[l].available && states[i].ready != []
    requires forall k :: i < k < j ==> !(actions[k] == Release(l) || (actions[k].CvWait? && actions[k].l == l))
    ensures var t := states[i].current;
            && Asleep(states[j], t) && PcOf(states[i + 1], t) == Acquiring(l)
            && (j < |actions| && actions[j] == Release(l) && l in states[j].locks && !states[j].locks[l].available ==>
                  t in Line(states[j + 1]))
  {
    hide Partition, QueueOf, WakeAll;
    var q := LockQueue(l);
    assert Enabled(states[i], actions[i]) && states[i + 1] == Step(states[i], actions[i]);
    forall k | i < k < j ensures !Wakes(states[k], actions[k], q) {
      assert Enabled(states[k], actions[k]);
    }
    SleeperStays(states, actions, i, j, q);
    if j < |actions| && actions[j] == Release(l) && l in states[j].locks && !states[j].locks[l].available {
      WokenInOrder(states, actions, j, q);
    }
  }

  /** cv_wait by the thread that the lock names, when somebody can run after the release:
      it sleeps until a signal or a broadcast on this condition variable, and a broadcast
      by the thread that its lock names makes it ready. */
  lemma CvWaitLastsUntilSignal(states: seq<Sched>, actions: seq<Action>, i: nat, j: nat, c: int, l: int)
    requires StartedRun(states, actions) && i + 1 < j <= |actions|
    requires actions[i] == CvWait(c, l) && l in states[i].locks && states[i].locks[l].acquiredId == states[i].current
    requires states[i + 1].ready != []
    requires forall k :: i + 1 < k < j ==> !((actions[k].Signal? || actions[k].Broadcast?) && actions[k].c == c)
    ensures var t := states[i].current;
            var notified := j < |actions| && actions[j].Broadcast? && actions[j].c == c && actions[j].l in states[j].locks
                            && states[j].locks[actions[j].l].acquiredId == states[j].current;
            && states[i + 1].current == t && actions[i + 1] == Continue && Asleep(states[j], t)
            && (notified ==> t in Line(states[j + 1]))
  {
    hide Partition, QueueOf, WakeAll, SleepOn, ReleaseStep, AcquireStep;
    var q := CvQueue(c);
    assert Enabled(states[i], actions[i]) && states[i + 1] == Step(states[i], actions[i]);
    assert Enabled(states[i + 1], actions[i + 1]);
    ReleaseFacts(states[i], l);
    forall k | i + 1 < k < j ensures !Wakes(states[k], actions[k], q) {
      assert Enabled(states[k], actions[k]);
    }
    hide Step;
    SleeperStays(states, actions, i + 1, j, q);
    if j < |actions| && actions[j].Broadcast? && actions[j].c == c && actions[j].l in states[j].locks
       && states[j].locks[actions[j].l].acquiredId == states[j].current {
      assert Enabled(states[j], actions[j]);
      WokenInOrder(states, actions, j, q);
    }
  }

  // ---------------------------------------------------------- the order of wake-ups

  /** Who sleeps on `q` after `n` steps, recorded from the calls alone. */
  ghost function Waiters(states: seq<Sched>, actions: seq<Action>, n: nat, q: Queue): seq<int>
    requires IsRun(states, actions) && n <= |actions|
  {
    if n == 0 then []
    else
      var w, s, a := Waiters(states, actions, n - 1, q), states[n - 1], actions[n - 1];
      assert Enabled(s, a);
      if Sleeps(s, a, q) then w + [s.current]
      else if !Wakes(s, a, q) then w
      else if OnlyOne(a) then DropFirst(w) else []
  }

  lemma {:induction false} WaitersAreQueued(states: seq<Sched>, actions: seq<Action>, n: nat, q: Queue)
    requires StartedRun(states, actions) && n <= |actions|
    ensures Waiters(states, actions, n, q) == QueueOf(states[n], q)
  {
    hide Partition, Step, Enabled;
    if n > 0 {
      var s, a := states[n - 1], actions[n - 1];
      WaitersAreQueued(states, actions, n - 1, q);
      RunsArePartitioned(states, actions, n - 1);
      assert Enabled(s, a) && states[n - 1 + 1] == Step(s, a);
      StepOnQueue(s, a, q);
      assert !(Sleeps(s, a, q) && Wakes(s, a, q));
    }
  }

  /** A wake-up makes ready exactly those who wait, all of them or the first, in the
      order of their calls and behind those who were ready; after an exit the first of
      all these runs. */
  lemma WokenInOrder(states: seq<Sched>, actions: seq<Action>, j: nat, q: Queue)
    requires StartedRun(states, actions) && j < |actions|
    requires Enabled(states[j], actions[j]) && Wakes(states[j], actions[j], q)
    ensures var w := Waiters(states, actions, j, q);
            var woken := if OnlyOne(actions[j]) && w != [] then [w[0]] else w;
            && w == QueueOf(states[j], q)
            && (if actions[j] == Exit && states[j].ready + w != []
                then Line(states[j + 1]) == states[j].ready + w
                else Line(states[j + 1]) == Line(states[j]) + woken)
  {
    hide Partition, Step, Enabled, Wakes, Waiters, QueueOf;
    RunsArePartitioned(states, actions, j);
    WaitersAreQueued(states, actions, j, q);
    assert states[j + 1] == Step(states[j], actions[j]);
    StepReadies(states[j], actions[j], q);
  }

  /** Of two threads that went to sleep waiting for the same thread, the one that called
      first is ahead after the exit. */
  lemma JoinersInOrder(states: seq<Sched>, actions: seq<Action>, i: nat, k: nat, j: nat, tid: int) returns (m: nat, n: nat)
    requires StartedRun(states, actions) && i < k < j < |actions| && actions[i] == actions[k] == Wait(tid)
    requires states[i + 1].current != states[i].current && states[k + 1].current != states[k].current
    requires actions[j] == Exit && states[j].current == tid
    requires forall x :: i < x < j ==> !(actions[x] == Exit && states[x].current == tid)
    ensures var line := Line(states[j + 1]);
            m < n < |line| && line[m] == states[i].current && line[n] == states[k].current
  {
    hide Partition, QueueOf, Step, Enabled, Sleeps, Wakes;
    var q := Joiners(tid);
    assert Enabled(states[i], actions[i]) && states[i + 1] == Step(states[i], actions[i]);
    assert Enabled(states[k], actions[k]) && states[k + 1] == Step(states[k], actions[k]);
    assert Enabled(states[j], actions[j]);
    WaitKeeps(states[i], tid);
    WaitKeeps(states[k], tid);
    OnlyExitsWake(states, actions, i, j, tid);
    ExitWakes(states[j]);
    m, n := SleepersLineUp(states, actions, i, k, j, q);
    WokenInOrder(states, actions, j, q);
    m, n := |states[j].ready| + m, |states[j].ready| + n;
  }

  lemma SleepersLineUp(states: seq<Sched>, actions: seq<Action>, i: nat, k: nat, j: nat, q: Queue) returns (m: nat, n: nat)
    requires StartedRun(states, actions) && i < k < j <= |actions|
    requires Enabled(states[i], actions[i]) && Sleeps(states[i], actions[i], q)
    requires Enabled(states[k], actions[k]) && Sleeps(states[k], actions[k], q)
    requires forall x :: i < x < j ==> !Wakes(states[x], actions[x], q)
    ensures var ts := QueueOf(states[j], q);
            m < n < |ts| && ts[m] == states[i].current && ts[n] == states[k].current
  {
    hide Partition, QueueOf, Step, Enabled, Sleeps, Wakes;
    SleeperStays(states, actions, i, k, q);
    RunsArePartitioned(states, actions, k);
    StepOnQueue(states[k], actions[k], q);
    assert states[k + 1] == Step(states[k], actions[k]);
    assert !Wakes(states[k], actions[k], q);
    var before := QueueOf(states[k], q);
    m :| 0 <= m < |before| && before[m] == states[i].current;
    n := |before|;
    QueueGrows(states, actions, k + 1, j, q);
    var now, after := QueueOf(states[k + 1], q), QueueOf(states[j], q);
    assert now == before + [states[k].current];
    assert after[m] == now[m] && after[n] == now[n];
  }

  lemma ExitWakes(s: Sched)
    requires Enabled(s, Exit)
    ensures Wakes(s, Exit, Joiners(s.current)) && !OnlyOne(Exit)
  {
  }

  lemma OnlyExitsWake(states: seq<Sched>, actions: seq<Action>, i: nat, j: nat, tid: int)
    requires IsRun(states, actions) && i < j <= |actions|
    requires forall x :: i < x < j ==> !(actions[x] == Exit && states[x].current == tid)
    ensures forall x :: i < x < j ==> Enabled(states[x], actions[x]) && !Wakes(states[x], actions[x], Joiners(tid))
  {
    hide Step, Enabled;
  }

  lemma WaitKeeps(s: Sched, tid: int)
    requires Enabled(s, Wait(tid)) && Step(s, Wait(tid)).current != s.current
    ensures Sleeps(s, Wait(tid), Joiners(tid)) && !Wakes(s, Wait(tid), Joiners(tid))
  {
  }
}
