/** The functions of threads/thread.c on the globals they change: the thread table, the
    linked ready list and the linked wait queues. The links spell out a state of the step
    relation, each function makes its step, and so do whole runs. */
module ThreadLibrary {
  import opened Sequences
  import opened Scheduler
  import opened SchedulerOrder
  import opened ThreadLists
  import opened ThreadQueues

  const THREAD_INVALID: int := -3
  const THREAD_NONE: int := -4
  const THREAD_NOMORE: int := -5

  /** The thread that was running is the last of queue `q`, and the first that was ready
      runs; if there was none, nobody sleeps. */
  ghost predicate Parked(s: Sched, s': Sched, q: Queue) {
    if s.ready == []
    then s'.current == s.current && s'.ready == [] && forall r :: QueueOf(s', r) == QueueOf(s, r)
    else
      && [s'.current] + s'.ready == s.ready
      && forall r :: QueueOf(s', r) == QueueOf(s, r) + if r == q then [s.current] else []
  }

  class Library {
    var threads: map<int, Thread>
    const lists: Queues
    var current: int
    var locks: map<int, Lock>
    var pcs: map<int, Pc>

    /** The scheduler state, with the queues read off the links. */
    ghost function S(): Sched
      reads this, lists, lists.ready, lists.waits.Values
    {
      Sched(threads, lists.Ready(), lists.Waiting(), current, locks, pcs)
    }

    /** The links are sound, and each thread is in exactly one place. */
    ghost predicate Valid()
      reads this, lists, lists.repr, lists.ready, lists.waits.Values
    {
      lists.Linked() && this !in lists.repr && Partition(S())
    }

    /** thread_init */
    constructor ()
      ensures Valid() && S() == Init && fresh(lists.repr)
    {
      threads := map[0 := Thread(true, Running)];
      current, locks, pcs := 0, map[], map[];
      lists := new Queues();
      new;
      InitIsPartition();
    }

    /** One turn of thread_wakeup: the first sleeper goes to the end of the ready list. */
    method WakeFirst(q: Queue)
      requires Valid() && QueueOf(S(), q) != []
      modifies this`threads, lists.repr
      ensures Valid() && S() == WakeOne(old(S()), q) && fresh(lists.repr - old(lists.repr))
    {
      hide Partition, Queues.Linked, Queues.Ready, Queues.Waiting;
      ghost var s := S();
      WakeOneKeeps(s, q);
      SleeperIsNotReady(s, q);
      var t := lists.PopWaiting(q);
      var n := lists.PushReady(t);
      label Done:
      threads := threads[t := Thread(true, Ready)];
      lists.Kept@Done();
    }

    /** thread_wakeup: the count is exact and sleepers are readied in sleep order. */
    method Wakeup(q: Queue, all: bool) returns (counter: int)
      requires Valid()
      modifies this`threads, lists.repr
      ensures Valid() && fresh(lists.repr - old(lists.repr))
      ensures S() == if all then WakeAll(old(S()), q) else WakeOne(old(S()), q)
      ensures counter == if all then |QueueOf(old(S()), q)| else if QueueOf(old(S()), q) == [] then 0 else 1
      ensures all ==> lists.Ready() == old(lists.Ready()) + QueueOf(old(S()), q)
    {
      hide Partition, Queues.Linked, Queues.Ready, Queues.Waiting, WakeAll, Valid;
      ghost var s := S();
      WakeAllIsFifo(s, q);
      counter := 0;
      WakeAllStep(s, q);
      var more := Sleeping(q);
      if more && !all {
        WakeFirst(q);
        return 1;
      }
      while more
        invariant Valid() && fresh(lists.repr - old(lists.repr))
        invariant more <==> QueueOf(S(), q) != []
        invariant !all ==> !more && S() == s
        invariant all ==> WakeAll(S(), q) == WakeAll(s, q) && counter + |QueueOf(S(), q)| == |QueueOf(s, q)|
        invariant !all ==> counter == 0
        decreases |QueueOf(S(), q)|
      {
        WakeAllStep(S(), q);
        WakeFirst(q);
        counter := counter + 1;
        more := Sleeping(q);
      }
      WakeAllStep(S(), q);
    }

    method Sleeping(q: Queue) returns (b: bool)
      requires Valid()
      ensures b <==> QueueOf(S(), q) != []
    {
      b := lists.HasSleeper(q);
    }

    /** The search for an unused identifier. */
    method FindUnused() returns (id: int)
      ensures id == FreeId(S(), 1)
    {
      hide FreeId;
      ghost var s := S();
      id := 1;
      while id in threads && threads[id].exist
        invariant 1 <= id < MAX_THREADS && FreeId(s, id) == FreeId(s, 1) && S().threads == s.threads
        decreases MAX_THREADS - id
      {
        FreeIdStep(s, id);
        if id == MAX_THREADS - 1 {
          FreeIdEnd(s);
          return MAX_THREADS;
        }
        id := id + 1;
      }
      FreeIdStep(s, id);
    }

    /** thread_create, when there is memory for a stack: the first unused identifier. */
    method Create() returns (r: int)
      requires Valid()
      modifies this, lists.repr
      ensures Valid() && fresh(lists.repr - old(lists.repr)) && S() == CreateStep(old(S()))
      ensures r == THREAD_NOMORE <==> forall k :: 1 <= k < MAX_THREADS ==> Exists(old(S()), k)
      ensures r != THREAD_NOMORE ==>
                && 1 <= r < MAX_THREADS && !Exists(old(S()), r) && lists.Ready() == old(lists.Ready()) + [r]
                && forall k :: 1 <= k < r ==> Exists(old(S()), k)
    {
      hide Partition, FreeId, Queues.Linked, Queues.Ready, Queues.Waiting;
      ghost var s := S();
      CreateKeeps(s);
      FreeIdIsFree(s, 1);
      UnusedIsNotReady(s);
      var id := FindUnused();
      if id == MAX_THREADS {
        return THREAD_NOMORE;
      }
      var n := lists.PushReady(id);
      label Done:
      pcs := pcs[id := Idle];
      threads := threads[id := Thread(true, Ready)];
      lists.Kept@Done();
      r := id;
    }

    /** thread_yield: append the caller, then take out the node of the chosen thread. */
    method Yield(want: int) returns (r: int)
      requires Valid()
      modifies this, lists.repr
      ensures Valid() && fresh(lists.repr - old(lists.repr)) && S() == YieldStep(old(S()), want)
      ensures r == THREAD_NONE <==> want == THREAD_ANY && old(lists.Ready()) == []
      ensures r == THREAD_INVALID <==>
                want != THREAD_ANY && want != THREAD_SELF && want != old(current) && want !in old(lists.Ready())
      ensures r >= 0 ==> current == r && (want == THREAD_ANY ==> r == old(lists.Ready())[0]) && (want >= 0 ==> r == want)
      ensures r >= 0 && want == THREAD_SELF ==> r == old(current)
    {
      hide Partition, Queues.Linked, Queues.Ready, Queues.Waiting, Without;
      ReadyIsNatural(S());
      YieldKeeps(S(), want);
      var next: Node? := null;
      if want == THREAD_ANY {
        next := lists.HeadReady();
        if next == null {
          return THREAD_NONE;
        }
      } else if want != THREAD_SELF && want != current {
        next := lists.FindReady(want);
        if next == null {
          return THREAD_INVALID;
        }
      }
      var own := lists.PushReady(current);
      var node: Node := if next == null then own else next;
      lists.RemoveReady(node);
      label Done:
      threads := threads[current := Thread(true, Ready)];
      current := node.tid;
      threads := threads[current := Thread(true, Running)];
      lists.Kept@Done();
      r := current;
    }

    /** thread_sleep on an existing queue */
    method Sleep(q: Queue) returns (r: int)
      requires Valid()
      modifies this`threads, this`current, lists.repr
      ensures Valid() && fresh(lists.repr - old(lists.repr)) && S() == SleepOn(old(S()), q)
      ensures r == if old(lists.Ready()) == [] then THREAD_NONE else old(lists.Ready())[0]
      ensures Parked(old(S()), S(), q)
    {
      hide Partition, Queues.Linked, Queues.Ready, Queues.Waiting;
      SleepKeeps(S(), q);
      SleepParks(S(), q);
      RunningIsNotWaiting(S(), q);
      var head := lists.HeadReady();
      if head == null {
        return THREAD_NONE;
      }
      lists.PushWaiting(q, current);
      r := lists.PopReady();
      label Done:
      threads := threads[current := Thread(true, Suspended)];
      threads := threads[r := Thread(true, Running)];
      current := r;
      lists.Kept@Done();
    }

    /** thread_exit: it returns only when there is no one else to run. */
    method Exit() returns (r: int)
      requires Valid()
      modifies this`threads, this`current, lists.repr
      ensures Valid() && fresh(lists.repr - old(lists.repr)) && S() == ExitStep(old(S())) && r == THREAD_NONE
      ensures var line := old(lists.Ready()) + QueueOf(old(S()), Joiners(old(current)));
              if line == [] then S() == old(S())
              else [current] + lists.Ready() == line && !Exists(S(), old(current)) && QueueOf(S(), Joiners(old(current))) == []
    {
      hide Partition, WakeAll, Queues.Linked, Queues.Ready, Queues.Waiting;
      ghost var s := S();
      ExitKeeps(s);
      ExitFacts(s);
      var n := Wakeup(Joiners(current), true);
      var head := lists.HeadReady();
      if head != null {
        var next := lists.PopReady();
        label Done:
        threads := threads[current := Thread(false, Exited)];
        current := next;
        threads := threads[current := Thread(true, Running)];
        lists.Kept@Done();
      }
      r := THREAD_NONE;
    }

    /** thread_wait */
    method Wait(tid: int) returns (r: int)
      requires Valid() && PcOf(S(), current) == Idle
      modifies this`threads, this`current, lists.repr
      ensures Valid() && fresh(lists.repr - old(lists.repr)) && S() == Step(old(S()), Action.Wait(tid))
      ensures r == if tid == old(current) || !Exists(old(S()), tid) then THREAD_INVALID else tid
      ensures if tid == old(current) || !Exists(old(S()), tid) then S() == old(S()) else Parked(old(S()), S(), Joiners(tid))
    {
      hide Partition, SleepOn, Queues.Linked, Queues.Ready, Queues.Waiting;
      if tid == current || tid !in threads || !threads[tid].exist {
        return THREAD_INVALID;
      }
      var n := Sleep(Joiners(tid));
      r := tid;
    }

    /** One turn of lock_acquire: take a free lock, or sleep and try again later. */
    method Acquire(l: int) returns (taken: bool)
      requires Valid() && l in locks
      modifies this, lists.repr
      ensures Valid() && fresh(lists.repr - old(lists.repr)) && S() == AcquireStep(old(S()), l)
      ensures taken <==> old(locks[l].available)
      ensures taken ==> l in locks && locks[l] == Lock(false, current) && current == old(current)
      ensures !taken ==> Parked(old(S()), S(), LockQueue(l))
    {
      hide Partition, SleepOn, Queues.Linked, Queues.Ready, Queues.Waiting;
      AcquireKeeps(S(), l);
      PartitionIgnoresPcs(S(), Become(S(), Acquiring(l)));
      label Start:
      taken := locks[l].available;
      if !taken {
        pcs := pcs[current := Acquiring(l)];
        lists.Kept@Start();
        var n := Sleep(LockQueue(l));
      } else {
        locks := locks[l := Lock(false, current)];
        pcs := pcs[current := Idle];
        lists.Kept@Start();
      }
    }

    /** lock_release, whoever calls: the lock is free and everyone who slept on it is
        ready, in sleep order. */
    method Release(l: int)
      requires Valid() && l in locks
      modifies this`threads, this`locks, lists.repr
      ensures Valid() && fresh(lists.repr - old(lists.repr)) && S() == ReleaseStep(old(S()), l)
      ensures l in locks && locks[l].available
      ensures !old(locks[l].available) ==>
                QueueOf(S(), LockQueue(l)) == [] && lists.Ready() == old(lists.Ready()) + QueueOf(old(S()), LockQueue(l))
    {
      hide Partition, WakeAll, Queues.Linked, Queues.Ready, Queues.Waiting;
      ghost var s := S();
      ReleaseKeeps(s, l);
      if !locks[l].available {
        ghost var s1 := s.(locks := s.locks[l := s.locks[l].(available := true)]);
        PartitionIgnoresPcs(s, s1);
        WakeAllIsFifo(s1, LockQueue(l));
        label Start:
        locks := locks[l := locks[l].(available := true)];
        lists.Kept@Start();
        var n := Wakeup(LockQueue(l), true);
      }
    }

    /** cv_wait up to its sleep: the lock is released and the thread goes on to sleep. */
    method CvRelease(c: int, l: int)
      requires Valid() && PcOf(S(), current) == Idle && l in locks
      modifies this, lists.repr
      ensures Valid() && fresh(lists.repr - old(lists.repr)) && S() == Step(old(S()), CvWait(c, l))
      ensures current == old(current) && Enabled(S(), Continue)
    {
      hide Partition, ReleaseStep, Queues.Linked, Queues.Ready, Queues.Waiting;
      ghost var s := S();
      ReleaseKeeps(s, l);
      PartitionIgnoresPcs(ReleaseStep(s, l), Step(s, CvWait(c, l)));
      Release(l);
      label Done:
      pcs := pcs[current := CvReleased(c, l)];
      lists.Kept@Done();
    }

    /** What a thread inside lock_acquire or cv_wait does next. */
    method Resume()
      requires Valid() && Enabled(S(), Continue)
      modifies this, lists.repr
      ensures Valid() && fresh(lists.repr - old(lists.repr)) && S() == Step(old(S()), Continue)
    {
      hide Partition, SleepOn, AcquireStep, Queues.Linked, Queues.Ready, Queues.Waiting;
      var pc := pcs[current];
      if pc.Acquiring? {
        var taken := Acquire(pc.l);
      } else {
        var l := pc.l;
        PartitionIgnoresPcs(S(), Become(S(), Acquiring(l)));
        label Start:
        pcs := pcs[current := Acquiring(l)];
        lists.Kept@Start();
        if locks[l].acquiredId == current {
          var n := Sleep(CvQueue(pc.c));
        }
      }
    }

    /** cv_signal and cv_broadcast: for the thread the lock names, the longest waiter or
        all of them become ready in the order of their waits; for others nothing. */
    method Notify(c: int, l: int, all: bool)
      requires Valid() && l in locks
      modifies this`threads, lists.repr
      ensures Valid() && fresh(lists.repr - old(lists.repr))
      ensures old(locks[l].acquiredId) != old(current) ==> S() == old(S())
      ensures old(locks[l].acquiredId) == old(current) ==>
                && S() == (if all then WakeAll(old(S()), CvQueue(c)) else WakeOne(old(S()), CvQueue(c)))
                && var w := QueueOf(old(S()), CvQueue(c));
                   lists.Ready() == old(lists.Ready()) + if all || w == [] then w else [w[0]]
    {
      hide Partition, Queues.Linked, Queues.Ready, Queues.Waiting, WakeAll;
      if locks[l].acquiredId == current {
        var n := Wakeup(CvQueue(c), all);
      }
    }

    /** lock_create */
    method NewLock(l: int)
      requires Valid() && PcOf(S(), current) == Idle && l !in locks
      modifies this`locks
      ensures Valid() && S() == Step(old(S()), Action.NewLock(l))
    {
      hide Partition, Queues.Linked, Queues.Ready, Queues.Waiting;
      PartitionIgnoresPcs(S(), Step(S(), Action.NewLock(l)));
      label Start:
      locks := locks[l := Lock(true, -1)];
      lists.Kept@Start();
    }

    /** Any call by the running thread. */
    method Do(a: Action)
      requires Valid() && Enabled(S(), a)
      modifies this, lists.repr
      ensures Valid() && fresh(lists.repr - old(lists.repr)) && S() == Step(old(S()), a)
    {
      hide Valid, Partition, SleepOn, WakeOne, CreateStep, YieldStep, ExitStep, AcquireStep, ReleaseStep;
      hide Queues.Linked, Queues.Ready, Queues.Waiting;
      match a {
        case Create => var r := Create();
        case Yield(want) => var r := Yield(want);
        case Exit => var r := Exit();
        case Sleep(q) => var r := Sleep(User(q));
        case Wakeup(q, all) => var n := Wakeup(User(q), all);
        case Wait(tid) => var r := Wait(tid);
        case NewLock(l) => NewLock(l);
        case Acquire(l) => var taken := Acquire(l);
        case Release(l) => Release(l);
        case CvWait(c, l) => CvRelease(c, l);
        case Signal(c, l) => Notify(c, l, false);
        case Broadcast(c, l) => Notify(c, l, true);
        case Continue => Resume();
      }
    }
  }

  /** Every run from thread_init: the links stay sound, each thread is in one list, and
      what the links spell out is the state that the step relation reaches. */
  method Run(actions: seq<Action>) returns (lib: Library)
    ensures lib.Valid() && lib.S() == After(Init, actions)
  {
    hide Library.Valid, Enabled, Step;
    lib := new Library();
    var n := 0;
    while n < |actions|
      invariant 0 <= n <= |actions| && lib.Valid() && lib.S() == After(Init, actions[..n])
      invariant fresh(lib) && fresh(lib.lists.repr)
    {
      AfterMore(Init, actions[..n], actions[n]);
      assert actions[..n + 1] == actions[..n] + [actions[n]];
      var enabled := CanDo(lib, actions[n]);
      if enabled {
        lib.Do(actions[n]);
      }
      n := n + 1;
    }
    assert actions[..n] == actions;
  }

  method CanDo(lib: Library, a: Action) returns (b: bool)
    ensures b == Enabled(lib.S(), a)
  {
    b := Enabled(Sched(lib.threads, [], map[], lib.current, lib.locks, lib.pcs), a);
  }

  lemma SleeperIsNotReady(s: Sched, q: Queue)
    requires Partition(s) && QueueOf(s, q) != []
    ensures QueueOf(s, q)[0] !in s.ready
  {
    var t := QueueOf(s, q)[0];
    assert q in s.queues && t in s.queues[q];
  }

  lemma WakeAllStep(s: Sched, q: Queue)
    ensures WakeAll(s, q) == if QueueOf(s, q) == [] then s else WakeAll(WakeOne(s, q), q)
  {
  }

  lemma FreeIdStep(s: Sched, id: int)
    requires id < MAX_THREADS
    ensures FreeId(s, id) == if Exists(s, id) then FreeId(s, id + 1) else id
  {
  }

  lemma FreeIdEnd(s: Sched)
    ensures FreeId(s, MAX_THREADS) == MAX_THREADS
  {
  }

  lemma UnusedIsNotReady(s: Sched)
    requires Partition(s)
    ensures forall t :: !Exists(s, t) ==> t !in s.ready
  {
  }

  lemma ReadyIsNatural(s: Sched)
    requires Partition(s)
    ensures s.current >= 0 && s.current !in s.ready && forall i :: 0 <= i < |s.ready| ==> s.ready[i] >= 0
  {
    assert Exists(s, s.current);
    forall i | 0 <= i < |s.ready| ensures s.ready[i] >= 0 {
      assert s.ready[i] in s.ready;
    }
  }

  lemma RunningIsNotWaiting(s: Sched, q: Queue)
    requires Partition(s)
    ensures q in s.queues ==> s.current !in s.queues[q]
  {
  }

  lemma ExitFacts(s: Sched)
    requires Partition(s)
    ensures var line, s' := s.ready + QueueOf(s, Joiners(s.current)), ExitStep(s);
            if line == [] then s' == s
            else [s'.current] + s'.ready == line && !Exists(s', s.current) && QueueOf(s', Joiners(s.current)) == []
  {
    WakeAllIsFifo(s, Joiners(s.current));
    WakeAllKeeps(s, Joiners(s.current));
  }

  lemma SleepParks(s: Sched, q: Queue)
    ensures Parked(s, SleepOn(s, q), q)
  {
  }
}
