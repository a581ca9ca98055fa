/** Interrupts and the steps of Scheduler (threads/thread.c, threads/interrupt.c). The
    functions of the library save the interrupt flag, switch it off, call one another, switch
    threads, and restore it; the timer strikes only while the flag is on. Hence what is one
    step in Scheduler is not interrupted, and preemption is a yield that Scheduler allows. */
module Interrupts {
  import opened Scheduler

  /** What a thread has still to restore: the flag saved by interrupts_set in a function it
      is in, or the mask of the code that the timer interrupted. */
  datatype Frame = Call(flag: bool) | Handler

  /** `on`: interrupts are enabled. The frames of a thread lie on its stack. */
  datatype Machine = Machine(s: Sched, on: bool, frames: map<int, seq<Frame>>)

  datatype Event =
    | Enter          // interrupts_set(0) where a function begins
    | Leave          // interrupts_set(enabled) where it ends, or the return of the handler
    | Timer          // the signal, which is blocked in its own handler
    | Work(a: Action)

  function FramesOf(m: Machine, t: int): seq<Frame> {
    if t in m.frames then m.frames[t] else []
  }

  /** A thread works inside library functions, on what its own code comes to next, or, in the
      handler, on the yield that the handler asks for. It does not leave lock_acquire and
      cv_wait before they are done. */
  predicate Possible(m: Machine, e: Event) {
    var f := FramesOf(m, m.s.current);
    match e
    case Enter => true
    case Leave => f != [] && (|f| == 1 ==> PcOf(m.s, m.s.current) == Idle)
    case Timer => m.on
    case Work(a) => f != [] && if Handler in f then a == Yield(THREAD_ANY) else Enabled(m.s, a)
  }

  function Push(m: Machine, frame: Frame): Machine {
    m.(on := false, frames := m.frames[m.s.current := FramesOf(m, m.s.current) + [frame]])
  }

  function Pop(m: Machine): Machine
    requires FramesOf(m, m.s.current) != []
  {
    var f := FramesOf(m, m.s.current);
    var last := f[|f| - 1];
    m.(on := last.Handler? || last.flag, frames := m.frames[m.s.current := f[..|f| - 1]])
  }

  /** A context was saved with interrupts off, so a switch leaves them off; a new thread
      begins in thread_stub, which switches them on. */
  ghost predicate Next(m: Machine, m': Machine, e: Event)
    requires Possible(m, e)
  {
    match e
    case Enter => m' == Push(m, Call(m.on))
    case Leave => m' == Pop(m)
    case Timer => m' == Push(m, Handler)
    case Work(a) =>
      && (Enabled(m.s, a) ==> m'.s == Step(m.s, a))
      && m'.on == (m.on && m'.s.current == m.s.current)
      && m'.frames == if a.Create? && FreeId(m.s, 1) < MAX_THREADS then m.frames[FreeId(m.s, 1) := [Call(true)]] else m.frames
  }

  // ---------------------------------------------------------------- the invariant

  /** Only the outermost frame restores interrupts. */
  predicate Nested(f: seq<Frame>) {
    forall i :: 0 <= i < |f| ==> if i == 0 then f[0] == Handler || f[0] == Call(true) else f[i] == Call(false)
  }

  ghost predicate Stacked(m: Machine, t: int) {
    && Nested(FramesOf(m, t))
    && (t != m.s.current ==> FramesOf(m, t) != [])
    && (PcOf(m.s, t) != Idle ==> FramesOf(m, t) != [] && Handler !in FramesOf(m, t))
  }

  /** Interrupts are on exactly if the running thread is in no function of the library;
      threads that do not run, and those in lock_acquire or cv_wait, are in one. */
  ghost predicate Inv(m: Machine) {
    && Partition(m.s)
    && (m.on <==> FramesOf(m, m.s.current) == [])
    && (forall t :: Exists(m.s, t) ==> Stacked(m, t))
  }

  lemma RunningExists(s: Sched)
    requires Partition(s)
    ensures Exists(s, s.current)
  {
  }

  /** What the handler asks for is what Scheduler allows. */
  lemma WorkIsEnabled(m: Machine, e: Event)
    requires Inv(m) && Possible(m, e)
    ensures e.Work? ==> Enabled(m.s, e.a)
    ensures e.Timer? ==> FramesOf(m, m.s.current) == [] && PcOf(m.s, m.s.current) == Idle && Enabled(m.s, Yield(THREAD_ANY))
  {
    hide Partition;
    RunningExists(m.s);
    assert Stacked(m, m.s.current);
  }

  lemma {:induction false} WakeAllFrame(s: Sched, q: Queue)
    requires Partition(s)
    ensures WakeAll(s, q).pcs == s.pcs && WakeAll(s, q).locks == s.locks
    ensures forall t :: Exists(WakeAll(s, q), t) <==> Exists(s, t)
    decreases |QueueOf(s, q)|
  {
    if QueueOf(s, q) != [] {
      assert q in s.queues && QueueOf(s, q)[0] in s.queues[q];
      WakeOneKeeps(s, q);
      hide Partition;
      WakeAllFrame(WakeOne(s, q), q);
    }
  }

  lemma SleepFrame(s: Sched, q: Queue)
    requires Partition(s)
    ensures SleepOn(s, q).pcs == s.pcs && forall t :: Exists(SleepOn(s, q), t) <==> Exists(s, t)
  {
    if s.ready != [] {
      assert s.ready[0] in s.ready;
    }
  }

  /** Existence and program counters change only for the running thread and a new one. */
  ghost predicate Framed(s: Sched, s': Sched, a: Action) {
    var made := a.Create? && FreeId(s, 1) < MAX_THREADS;
    && (forall t :: Exists(s', t) ==> Exists(s, t) || (made && t == FreeId(s, 1)))
    && (forall t :: t != s.current && !(made && t == FreeId(s, 1)) ==> PcOf(s', t) == PcOf(s, t))
    && (made ==> PcOf(s', FreeId(s, 1)) == Idle && FreeId(s, 1) != s.current)
    && (a.Yield? ==> s'.pcs == s.pcs)
  }

  lemma ReleaseFrame(s: Sched, l: int)
    requires Partition(s) && l in s.locks
    ensures ReleaseStep(s, l).pcs == s.pcs && ReleaseStep(s, l).current == s.current
    ensures forall t :: Exists(ReleaseStep(s, l), t) <==> Exists(s, t)
  {
    hide WakeAll, Partition;
    var freed := s.(locks := s.locks[l := s.locks[l].(available := true)]);
    PartitionIgnoresPcs(s, freed);
    WakeAllFrame(freed, LockQueue(l));
    WakeAllKeeps(freed, LockQueue(l));
  }

  lemma AcquireFrame(s: Sched, l: int)
    requires Partition(s) && l in s.locks
    ensures forall t :: Exists(AcquireStep(s, l), t) <==> Exists(s, t)
    ensures forall t :: t != s.current ==> PcOf(AcquireStep(s, l), t) == PcOf(s, t)
  {
    hide Partition, SleepOn;
    PartitionIgnoresPcs(s, Become(s, Acquiring(l)));
    SleepFrame(Become(s, Acquiring(l)), LockQueue(l));
  }

  lemma CreateFrame(s: Sched)
    requires Partition(s)
    ensures Framed(s, CreateStep(s), Create)
  {
    hide Partition;
    RunningExists(s);
    FreeIdIsFree(s, 1);
  }

  lemma YieldFrame(s: Sched, want: int)
    requires Partition(s)
    ensures Framed(s, YieldStep(s, want), Yield(want))
  {
    RunningExists(s);
    var t := YieldTarget(s, want);
    if t != -1 && t != s.current {
      assert t in s.ready;
    }
  }

  lemma ExitFrame(s: Sched)
    requires Partition(s)
    ensures Framed(s, ExitStep(s), Exit)
  {
    var woken := WakeAll(s, Joiners(s.current));
    WakeAllFrame(s, Joiners(s.current));
    WakeAllKeeps(s, Joiners(s.current));
    if woken.ready != [] {
      assert woken.ready[0] in woken.ready;
    }
    hide WakeAll;
  }

  lemma StepFrame(s: Sched, a: Action)
    requires Partition(s) && Enabled(s, a)
    ensures Framed(s, Step(s, a), a)
  {
    hide Partition, SleepOn, WakeAll, WakeOne, CreateStep, YieldStep, ExitStep, AcquireStep, ReleaseStep;
    match a
    case Create => CreateFrame(s);
    case Yield(want) => YieldFrame(s, want);
    case Exit => ExitFrame(s);
    case Sleep(q) => SleepFrame(s, User(q));
    case Wakeup(q, all) => WakeAllFrame(s, User(q)); WakeOneFrame(s, User(q));
    case Wait(tid) => SleepFrame(s, Joiners(tid));
    case NewLock(l) =>
    case Acquire(l) => AcquireFrame(s, l);
    case Release(l) => ReleaseFrame(s, l);
    case CvWait(c, l) => ReleaseFrame(s, l);
    case Signal(c, l) => WakeOneFrame(s, CvQueue(c));
    case Broadcast(c, l) => WakeAllFrame(s, CvQueue(c));
    case Continue =>
      match PcOf(s, s.current) {
        case Acquiring(l) => AcquireFrame(s, l);
        case CvReleased(c, l) =>
          PartitionIgnoresPcs(s, Become(s, Acquiring(l)));
          SleepFrame(Become(s, Acquiring(l)), CvQueue(c));
        case Idle =>
      }
  }

  lemma WakeOneFrame(s: Sched, q: Queue)
    requires Partition(s)
    ensures WakeOne(s, q).pcs == s.pcs && forall t :: Exists(WakeOne(s, q), t) <==> Exists(s, t)
  {
    if QueueOf(s, q) != [] {
      assert q in s.queues && QueueOf(s, q)[0] in s.queues[q];
    }
  }

  lemma WorkKeeps(m: Machine, m': Machine, a: Action)
    requires Inv(m) && Possible(m, Work(a)) && Next(m, m', Work(a)) && Enabled(m.s, a)
    ensures Inv(m')
  {
    hide Partition, Step, Enabled;
    StepKeepsPartition(m.s, a);
    StepFrame(m.s, a);
    RunningExists(m.s);
    RunningExists(m'.s);
    assert Stacked(m, m.s.current);
    forall t | Exists(m'.s, t) ensures Stacked(m', t) {
      if Exists(m.s, t) {
        assert Stacked(m, t);
      }
    }
  }

  /** Every event keeps the invariant: the timer can strike after it if and only if the
      running thread is then in no function of the library. */
  lemma EventKeeps(m: Machine, m': Machine, e: Event)
    requires Inv(m) && Possible(m, e) && Next(m, m', e)
    ensures Inv(m') && (Possible(m', Timer) <==> FramesOf(m', m'.s.current) == [])
  {
    hide Partition, Step;
    WorkIsEnabled(m, e);
    if e.Work? {
      WorkKeeps(m, m', e.a);
    } else {
      RunningExists(m.s);
      assert Stacked(m, m.s.current);
      forall t | Exists(m'.s, t) ensures Stacked(m', t) {
        assert Stacked(m, t);
      }
    }
  }

  // ------------------------------------------------------------------ whole runs

  /** thread_init: one thread, in no function of the library. */
  const Boot: Machine := Machine(Init, true, map[])

  ghost predicate IsRun(ms: seq<Machine>, es: seq<Event>) {
    && |ms| == |es| + 1 && ms[0] == Boot
    && (forall i :: 0 <= i < |es| ==> Possible(ms[i], es[i]) && Next(ms[i], ms[i + 1], es[i]))
  }

  /** The work done by the first `n` events. */
  function Worked(es: seq<Event>, n: nat): seq<Action>
    requires n <= |es|
  {
    if n == 0 then [] else if es[n - 1].Work? then Worked(es, n - 1) + [es[n - 1].a] else Worked(es, n - 1)
  }

  lemma {:induction false} RunKeeps(ms: seq<Machine>, es: seq<Event>, n: nat)
    requires IsRun(ms, es) && n <= |es|
    ensures Inv(ms[n])
  {
    hide Partition, Next, Possible;
    if n == 0 {
      InitIsPartition();
      assert forall t :: Exists(Init, t) ==> t == 0;
    } else {
      hide Inv;
      RunKeeps(ms, es, n - 1);
      assert Next(ms[n - 1], ms[n - 1 + 1], es[n - 1]);
      EventKeeps(ms[n - 1], ms[n], es[n - 1]);
    }
  }

  /** Whatever the timer does: the library works by the steps of Scheduler, one after the
      other, and every preemption is a yield that is enabled there. */
  lemma {:induction false} RunsAreScheduled(ms: seq<Machine>, es: seq<Event>, n: nat)
    requires IsRun(ms, es) && n <= |es|
    ensures ms[n].s == After(Init, Worked(es, n))
    ensures forall i :: 0 <= i < n && es[i].Work? ==> Enabled(ms[i].s, es[i].a)
    ensures forall i :: 0 <= i < n && es[i].Timer? ==> PcOf(ms[i].s, ms[i].s.current) == Idle && FramesOf(ms[i], ms[i].s.current) == []
  {
    hide Partition, Step, Enabled, Inv;
    if n > 0 {
      RunsAreScheduled(ms, es, n - 1);
      RunKeeps(ms, es, n - 1);
      WorkIsEnabled(ms[n - 1], es[n - 1]);
      assert Next(ms[n - 1], ms[n - 1 + 1], es[n - 1]);
      if es[n - 1].Work? {
        AfterMore(Init, Worked(es, n - 1), es[n - 1].a);
      }
    }
  }

  /** From the release in cv_wait to its sleep nothing comes in between: until the thread
      works again there is no timer and no other thread, and its work is the sleep. */
  lemma {:induction false} CvWaitIsUninterrupted(ms: seq<Machine>, es: seq<Event>, i: nat, j: nat)
    requires IsRun(ms, es) && i <= j <= |es| && PcOf(ms[i].s, ms[i].s.current).CvReleased?
    requires forall k :: i <= k < j ==> !es[k].Work?
    ensures ms[j].s == ms[i].s && (forall k :: i <= k < j ==> !es[k].Timer?)
    ensures j < |es| ==> !es[j].Timer? && (es[j].Work? ==> es[j].a == Continue)
    decreases j - i
  {
    hide Partition, Step, Inv;
    if i < j {
      CvWaitIsUninterrupted(ms, es, i, j - 1);
      assert Next(ms[j - 1], ms[j - 1 + 1], es[j - 1]);
    }
    if j < |es| {
      RunKeeps(ms, es, j);
      WorkIsEnabled(ms[j], es[j]);
      assert Possible(ms[j], es[j]);
    }
  }
}
