/** Order in the scheduler: wake-ups are first come first served, and nobody
    overtakes a thread in the ready list (threads/thread.c). */
module SchedulerOrder {
  import opened Sequences
  import opened Scheduler

  /** Waking all sleepers appends them to the ready list in the order they went to
      sleep; the number woken is the length of the queue. */
  lemma {:induction false} WakeAllIsFifo(s: Sched, q: Queue)
    ensures var s' := WakeAll(s, q);
            && s'.ready == s.ready + QueueOf(s, q)
            && QueueOf(s', q) == [] && |s'.ready| - |s.ready| == |QueueOf(s, q)|
            && (forall r :: r != q ==> QueueOf(s', r) == QueueOf(s, r))
            && s'.locks == s.locks && s'.pcs == s.pcs && s'.current == s.current
    decreases |QueueOf(s, q)|
  {
    var ts := QueueOf(s, q);
    if ts != [] {
      var s1 := WakeOne(s, q);
      assert QueueOf(s1, q) == ts[1..];
      WakeAllIsFifo(s1, q);
      assert s1.ready + ts[1..] == s.ready + ts;
    }
  }

  function IndexOf(ts: seq<int>, t: int): (i: nat)
    requires t in ts
    ensures i < |ts| && ts[i] == t && t !in ts[..i]
  {
    if ts[0] == t then 0 else 1 + IndexOf(ts[1..], t)
  }

  lemma {:induction false} IndexAppend(ts: seq<int>, more: seq<int>, t: int)
    requires t in ts
    ensures t in ts + more && IndexOf(ts + more, t) == IndexOf(ts, t)
  {
    if ts[0] != t {
      assert (ts + more)[1..] == ts[1..] + more;
      IndexAppend(ts[1..], more, t);
    }
  }

  lemma {:induction false} IndexWithout(ts: seq<int>, x: int, t: int)
    requires t in ts && t != x
    ensures t in Without(ts, x) && IndexOf(Without(ts, x), t) <= IndexOf(ts, t)
    ensures ts[0] == x ==> IndexOf(Without(ts, x), t) == IndexOf(ts, t) - 1
  {
    if ts[0] != x && ts[0] != t {
      IndexWithout(ts[1..], x, t);
      assert ([ts[0]] + Without(ts[1..], x))[1..] == Without(ts[1..], x);
    }
  }

  /** The step runs the thread at the head of the ready list: a successful yield to
      any thread, a sleep of any kind, or an exit. */
  predicate HeadSwitch(s: Sched, a: Action)
    requires Enabled(s, a)
  {
    s.ready != [] &&
    match a
    case Yield(want) => want == THREAD_ANY
    case Exit => true
    case Sleep(_) => true
    case Wait(tid) => tid != s.current && Exists(s, tid)
    case Acquire(l) => !s.locks[l].available
    case Continue =>
      (match PcOf(s, s.current)
       case Acquiring(l) => !s.locks[l].available
       case CvReleased(_, l) => s.locks[l].acquiredId == s.current
       case Idle => false)
    case _ => false
  }

  /** From `s` to `s'` the ready thread `t` was run, or moved up by at least `k` places. */
  ghost predicate MovesUp(s: Sched, s': Sched, t: int, k: int)
    requires t in s.ready
  {
    s'.current == t || (t in s'.ready && IndexOf(s'.ready, t) <= IndexOf(s.ready, t) - k)
  }

  lemma SleepMovesUp(s: Sched, q: Queue, t: int)
    requires t in s.ready
    ensures MovesUp(s, SleepOn(s, q), t, 1)
  {
  }

  lemma WakeMovesNobody(s: Sched, q: Queue, t: int)
    requires t in s.ready
    ensures MovesUp(s, WakeOne(s, q), t, 0) && MovesUp(s, WakeAll(s, q), t, 0)
  {
    WakeAllIsFifo(s, q);
    hide WakeAll;
    IndexAppend(s.ready, QueueOf(s, q), t);
    if QueueOf(s, q) != [] {
      IndexAppend(s.ready, [QueueOf(s, q)[0]], t);
    }
  }

  lemma CreateMovesNobody(s: Sched, t: int)
    requires t in s.ready
    ensures MovesUp(s, CreateStep(s), t, 0)
  {
    hide FreeId;
    IndexAppend(s.ready, [FreeId(s, 1)], t);
  }

  lemma ExitMovesUp(s: Sched, t: int)
    requires t in s.ready
    ensures MovesUp(s, ExitStep(s), t, 1)
  {
    hide WakeAll;
    WakeAllIsFifo(s, Joiners(s.current));
    IndexAppend(s.ready, QueueOf(s, Joiners(s.current)), t);
  }

  lemma YieldMovesUp(s: Sched, want: int, t: int)
    requires Partition(s) && t in s.ready
    ensures MovesUp(s, YieldStep(s, want), t, if want == THREAD_ANY then 1 else 0)
  {
    var x := YieldTarget(s, want);
    assert Exists(s, s.ready[0]) && s.ready[0] >= 0;
    hide Partition;
    if x != -1 && x != t {
      IndexAppend(s.ready, [s.current], t);
      IndexWithout(s.ready + [s.current], x, t);
    }
  }

  lemma ReleaseMovesNobody(s: Sched, l: int, t: int)
    requires l in s.locks && t in s.ready
    ensures MovesUp(s, ReleaseStep(s, l), t, 0) && MovesUp(s, Become(ReleaseStep(s, l), Idle), t, 0)
  {
    hide WakeAll, IndexOf;
    if !s.locks[l].available {
      WakeMovesNobody(s.(locks := s.locks[l := s.locks[l].(available := true)]), LockQueue(l), t);
    }
  }

  lemma AcquireMovesUp(s: Sched, l: int, t: int)
    requires l in s.locks && t in s.ready
    ensures MovesUp(s, AcquireStep(s, l), t, if s.locks[l].available then 0 else 1)
  {
    hide SleepOn, IndexOf;
    SleepMovesUp(Become(s, Acquiring(l)), LockQueue(l), t);
  }

  /** A ready thread keeps or improves its place at every step, and gains a place at
      every step that runs the head of the list. */
  lemma NobodyOvertakes(s: Sched, a: Action, t: int)
    requires Partition(s) && Enabled(s, a) && t in s.ready
    ensures MovesUp(s, Step(s, a), t, if HeadSwitch(s, a) then 1 else 0)
  {
    hide Partition, WakeAll, WakeOne, SleepOn, IndexOf;
    hide CreateStep, YieldStep, ExitStep, ReleaseStep, AcquireStep;
    match a
    case Create => CreateMovesNobody(s, t);
    case Yield(want) => YieldMovesUp(s, want, t);
    case Exit => ExitMovesUp(s, t);
    case Sleep(q) => SleepMovesUp(s, User(q), t);
    case Wakeup(q, all) => WakeMovesNobody(s, User(q), t);
    case Wait(tid) => SleepMovesUp(s, Joiners(tid), t);
    case NewLock(l) =>
    case Acquire(l) => AcquireMovesUp(s, l, t);
    case Release(l) => ReleaseMovesNobody(s, l, t);
    case CvWait(c, l) => ReleaseMovesNobody(s, l, t);
    case Signal(c, l) => WakeMovesNobody(s, CvQueue(c), t);
    case Broadcast(c, l) => WakeMovesNobody(s, CvQueue(c), t);
    case Continue =>
      match PcOf(s, s.current) {
        case Acquiring(l) => AcquireMovesUp(s, l, t);
        case CvReleased(c, l) => SleepMovesUp(Become(s, Acquiring(l)), CvQueue(c), t);
        case Idle =>
      }
  }

  /** How many of the first `n` steps of a run ran the head of the ready list. */
  ghost function Switches(states: seq<Sched>, actions: seq<Action>, n: nat): nat
    requires IsRun(states, actions) && n <= |actions|
  {
    if n == 0 then 0
    else Switches(states, actions, n - 1) + if HeadSwitch(states[n - 1], actions[n - 1]) then 1 else 0
  }

  lemma {:induction false} WaitingOrRan(states: seq<Sched>, actions: seq<Action>, n: nat, t: int)
    requires IsRun(states, actions) && n <= |actions| && Partition(states[0]) && t in states[0].ready
    ensures Partition(states[n])
    ensures || (exists k :: 0 < k <= n && states[k].current == t)
            || (t in states[n].ready
                && IndexOf(states[n].ready, t) + Switches(states, actions, n) <= IndexOf(states[0].ready, t))
  {
    hide Partition, Step, HeadSwitch, IndexOf;
    if n > 0 {
      WaitingOrRan(states, actions, n - 1, t);
      StepKeepsPartition(states[n - 1], actions[n - 1]);
      assert states[n - 1 + 1] == Step(states[n - 1], actions[n - 1]);
      if t in states[n - 1].ready {
        NobodyOvertakes(states[n - 1], actions[n - 1], t);
      }
    }
  }

  /** Bounded waiting: a thread at position `p` of the ready list has run by the time
      the head of the list has been run `p + 1` times. */
  lemma BoundedWaiting(states: seq<Sched>, actions: seq<Action>, n: nat, t: int)
    requires IsRun(states, actions) && n <= |actions| && Partition(states[0]) && t in states[0].ready
    requires Switches(states, actions, n) >= IndexOf(states[0].ready, t) + 1
    ensures exists k :: 0 < k <= n && states[k].current == t
  {
    WaitingOrRan(states, actions, n, t);
  }
}
