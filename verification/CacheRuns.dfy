/** Any number of workers sharing the file cache (do_server_request in
    webserver/server_thread.c). What a worker does while it holds the mutex is one
    step; between steps the other workers do as they like. */
module CacheRuns {
  import opened Words
  import opened Sequences
  import opened FileCache

  /** Where a worker stands: after a miss it reads the file without the mutex, and it
      sends either a pinned element or, if the cache refused it, its own copy. */
  datatype Worker<Id> =
    | Idle
    | Missed(name: string)
    | Loaded(file: File)
    | Sending(name: string, id: Id)
    | SendingOwn(file: File)

  /** `lastUse`, `clock` and `readings` record what happened; the server has no such variables. */
  datatype Site<Id> = Site(
    cache: Cache<Id>,
    workers: map<int, Worker<Id>>,
    clock: nat,
    lastUse: map<Id, nat>,
    readings: set<File>)

  datatype Action<Id> =
    | Request(w: int, name: string)
    | Read(w: int, contents: seq<byte>)
    | ReadFails(w: int)
    | Enter(w: int, address: Id)
    | Finish(w: int)

  ghost function WorkerOf<Id>(s: Site<Id>, w: int): Worker<Id> {
    if w in s.workers then s.workers[w] else Idle
  }

  ghost function Pinners<Id>(workers: map<int, Worker<Id>>, id: Id): set<int> {
    set w | w in workers && workers[w].Sending? && workers[w].id == id
  }

  // ---------------------------------------------------------------- the invariant

  /** What is being sent is in the cache, under the requested name. */
  ghost predicate Pinned<Id>(s: Site<Id>) {
    forall w :: w in s.workers && s.workers[w].Sending? ==>
      s.workers[w].id in s.cache.elems && s.cache.elems[s.workers[w].id].file.name == s.workers[w].name
  }

  /** refCount is the number of workers sending the element. */
  ghost predicate Counted<Id>(s: Site<Id>) {
    forall id :: id in s.cache.elems ==> s.cache.elems[id].refCount == |Pinners(s.workers, id)|
  }

  /** The list is strictly ordered by last use. */
  ghost predicate Ordered<Id>(s: Site<Id>) {
    && Increasing(s.cache.lru, s.lastUse)
    && (forall id :: id in s.cache.lru ==> s.lastUse[id] < s.clock)
  }

  ghost predicate Increasing<Id>(ids: seq<Id>, lastUse: map<Id, nat>) {
    && (forall id :: id in ids ==> id in lastUse)
    && (forall i, j :: 0 <= i < j < |ids| ==> lastUse[ids[i]] < lastUse[ids[j]])
  }

  /** Everything cached or about to be was read from a file of that name. */
  ghost predicate Sourced<Id>(s: Site<Id>) {
    && (forall id :: id in s.cache.elems ==> s.cache.elems[id].file in s.readings)
    && (forall w :: w in s.workers && (s.workers[w].Loaded? || s.workers[w].SendingOwn?) ==> s.workers[w].file in s.readings)
  }

  ghost predicate Inv<Id>(s: Site<Id>) {
    Coherent(s.cache) && Budgeted(s.cache) && Pinned(s) && Counted(s) && Ordered(s) && Sourced(s)
  }

  // --------------------------------------------------------------------- the steps

  ghost predicate Enabled<Id>(s: Site<Id>, a: Action<Id>) {
    match a
    case Request(w, _) => WorkerOf(s, w).Idle?
    case Read(w, _) => WorkerOf(s, w).Missed?
    case ReadFails(w) => WorkerOf(s, w).Missed?
    case Enter(w, address) => WorkerOf(s, w).Loaded? && address !in s.cache.elems
    case Finish(w) => WorkerOf(s, w).Sending? || WorkerOf(s, w).SendingOwn?
  }

  ghost function Become<Id>(s: Site<Id>, w: int, worker: Worker<Id>): Site<Id> {
    s.(workers := s.workers[w := worker])
  }

  /** Pin an element and send it. */
  ghost function Use<Id>(s: Site<Id>, w: int, name: string, id: Id): Site<Id>
    requires id in s.cache.elems
  {
    s.(cache := Pin(s.cache, id), workers := s.workers[w := Sending(name, id)],
       clock := s.clock + 1, lastUse := s.lastUse[id := s.clock])
  }

  ghost function Inserted<Id>(s: Site<Id>, c: Cache<Id>, id: Id, file: File): Site<Id>
    requires Shaped(c)
  {
    s.(cache := Insert(c, id, file), clock := s.clock + 1, lastUse := s.lastUse[id := s.clock])
  }

  ghost function EnterStep<Id>(s: Site<Id>, w: int, address: Id, file: File): Site<Id>
    requires Coherent(s.cache)
  {
    match Lookup(s.cache, file.name)
    case Some(id) => Use(s, w, file.name, id)
    case None =>
      match Admit(s.cache, address, file)
      case None => Become(s, w, SendingOwn(file))
      case Some(c) =>
        Use(s.(cache := c, clock := s.clock + 1, lastUse := s.lastUse[address := s.clock]), w, file.name, address)
  }

  ghost function Step<Id>(s: Site<Id>, a: Action<Id>): Site<Id>
    requires Inv(s) && Enabled(s, a)
  {
    match a
    case Request(w, name) =>
      (match Lookup(s.cache, name)
       case Some(id) => Use(s, w, name, id)
       case None => Become(s, w, Missed(name)))
    case Read(w, contents) =>
      var file := File(WorkerOf(s, w).name, contents);
      Become(s, w, Loaded(file)).(readings := s.readings + {file})
    case ReadFails(w) => Become(s, w, Idle)
    case Enter(w, address) => EnterStep(s, w, address, WorkerOf(s, w).file)
    case Finish(w) =>
      match WorkerOf(s, w)
      case Sending(_, id) => Become(s, w, Idle).(cache := Unpin(s.cache, id))
      case _ => Become(s, w, Idle)
  }

  // ---------------------------------------------------- every step keeps the invariant

  lemma PinnersChange<Id>(workers: map<int, Worker<Id>>, w: int, worker: Worker<Id>, id: Id)
    requires w in workers ==> !workers[w].Sending?
    ensures Pinners(workers[w := worker], id)
         == if worker.Sending? && worker.id == id then Pinners(workers, id) + {w} else Pinners(workers, id)
    ensures w !in Pinners(workers, id)
  {
  }

  lemma BecomeKeeps<Id>(s: Site<Id>, w: int, worker: Worker<Id>)
    requires Inv(s) && !WorkerOf(s, w).Sending? && !worker.Sending?
    requires worker.Loaded? || worker.SendingOwn? ==> worker.file in s.readings
    ensures Inv(Become(s, w, worker))
  {
    hide Coherent, Budgeted, Pinners;
    forall id ensures Pinners(s.workers[w := worker], id) == Pinners(s.workers, id) {
      PinnersChange(s.workers, w, worker, id);
    }
  }

  lemma WithoutOrder<Id>(ids: seq<Id>, id: Id, lastUse: map<Id, nat>)
    requires NoDup(ids) && Increasing(ids, lastUse)
    ensures Increasing(Without(ids, id), lastUse)
    ensures forall x :: x in Without(ids, id) <==> x in ids && x != id
  {
    WithoutMembers(ids, id);
    if id in ids {
      var k := IndexOf(ids, id);
      WithoutAt(ids, k);
    } else {
      WithoutAbsent(ids, id);
    }
  }

  lemma {:induction false} WithoutAbsent<T>(ts: seq<T>, t: T)
    requires t !in ts
    ensures Without(ts, t) == ts
  {
    if ts != [] {
      WithoutAbsent(ts[1..], t);
    }
  }

  lemma AppendOrder<Id>(ids: seq<Id>, id: Id, lastUse: map<Id, nat>, clock: nat)
    requires Increasing(ids, lastUse) && id !in ids && forall x :: x in ids ==> lastUse[x] < clock
    ensures Increasing(ids + [id], lastUse[id := clock])
    ensures forall x :: x in ids + [id] ==> lastUse[id := clock][x] < clock + 1
  {
    var now := lastUse[id := clock];
    assert forall x :: x in ids ==> now[x] == lastUse[x];
  }

  lemma OrderedAfterUse<Id>(s: Site<Id>, w: int, name: string, id: Id)
    requires NoDup(s.cache.lru) && Ordered(s) && id in s.cache.elems
    ensures Ordered(Use(s, w, name, id))
  {
    hide NoDup, Without, Increasing;
    WithoutOrder(s.cache.lru, id, s.lastUse);
    AppendOrder(Without(s.cache.lru, id), id, s.lastUse, s.clock);
  }

  lemma IndexOf<T>(ts: seq<T>, t: T) returns (k: nat)
    requires t in ts
    ensures k < |ts| && ts[k] == t
  {
    k :| 0 <= k < |ts| && ts[k] == t;
  }

  lemma CountedAfterUse<Id>(s: Site<Id>, w: int, name: string, id: Id)
    requires Counted(s) && !WorkerOf(s, w).Sending? && id in s.cache.elems
    ensures Counted(Use(s, w, name, id))
  {
    hide Pinners, Without;
    var s' := Use(s, w, name, id);
    forall x | x in s'.cache.elems ensures s'.cache.elems[x].refCount == |Pinners(s'.workers, x)| {
      PinnersChange(s.workers, w, Sending(name, id), x);
    }
  }

  lemma UseKeeps<Id>(s: Site<Id>, w: int, name: string, id: Id)
    requires Inv(s) && !WorkerOf(s, w).Sending?
    requires id in s.cache.elems && s.cache.elems[id].file.name == name
    ensures Inv(Use(s, w, name, id))
  {
    var s' := Use(s, w, name, id);
    assert NoDup(s.cache.lru);
    hide Coherent, Budgeted, Ordered, Counted, Pinned, Sourced, Pin;
    PinCoherent(s.cache, id);
    PinTotal(s.cache, id);
    OrderedAfterUse(s, w, name, id);
    CountedAfterUse(s, w, name, id);
    PinnedAfterUse(s, w, name, id);
  }

  lemma PinnedAfterUse<Id>(s: Site<Id>, w: int, name: string, id: Id)
    requires Pinned(s) && Sourced(s) && id in s.cache.elems && s.cache.elems[id].file.name == name
    ensures Pinned(Use(s, w, name, id)) && Sourced(Use(s, w, name, id))
  {
    hide Without;
  }

  ghost function Finished<Id>(s: Site<Id>, w: int, id: Id): Site<Id>
    requires id in s.cache.elems
  {
    Become(s, w, Idle).(cache := Unpin(s.cache, id))
  }

  lemma PinnersDrop<Id>(workers: map<int, Worker<Id>>, w: int, id: Id, x: Id)
    requires w in workers && workers[w].Sending? && workers[w].id == id
    ensures var after := Pinners(workers[w := Idle], x);
            if x == id then w in Pinners(workers, x) && after == Pinners(workers, x) - {w} else after == Pinners(workers, x)
  {
  }

  lemma CountedAfterFinish<Id>(s: Site<Id>, w: int, id: Id)
    requires Counted(s) && w in s.workers && s.workers[w].Sending? && s.workers[w].id == id && id in s.cache.elems
    ensures Counted(Finished(s, w, id))
  {
    hide Pinners;
    var s' := Finished(s, w, id);
    forall x | x in s'.cache.elems ensures s'.cache.elems[x].refCount == |Pinners(s'.workers, x)| {
      PinnersDrop(s.workers, w, id, x);
    }
  }

  lemma FinishKeeps<Id>(s: Site<Id>, w: int, id: Id)
    requires Inv(s) && w in s.workers && s.workers[w].Sending? && s.workers[w].id == id
    ensures Inv(Finished(s, w, id))
  {
    hide Coherent, Budgeted, Counted;
    var s' := Finished(s, w, id);
    UnpinCoherent(s.cache, id);
    UnpinTotal(s.cache, id);
    CountedAfterFinish(s, w, id);
    assert Ordered(s') && Sourced(s') && Pinned(s');
  }

  lemma NotPinned<Id>(s: Site<Id>, id: Id)
    requires Pinned(s) && Counted(s)
    requires id !in s.cache.elems || s.cache.elems[id].refCount == 0
    ensures Pinners(s.workers, id) == {}
  {
    if id !in s.cache.elems {
      forall w | w in s.workers && s.workers[w].Sending? ensures s.workers[w].id != id {
      }
    }
  }

  /** Evicting an element that nobody sends disturbs no one. */
  lemma EvictKeeps<Id>(s: Site<Id>, id: Id)
    requires Inv(s) && id in s.cache.elems && s.cache.elems[id].refCount == 0
    ensures Inv(s.(cache := Remove(s.cache, id)))
  {
    var s' := s.(cache := Remove(s.cache, id));
    RemoveCoherent(s.cache, id);
    RemoveTotal(s.cache, id);
    assert Budgeted(s'.cache);
    NotPinned(s, id);
    WithoutOrder(s.cache.lru, id, s.lastUse);
    hide Coherent, Budgeted, Without, Increasing;
    assert Ordered(s') && Sourced(s') && Counted(s');
    forall w | w in s'.workers && s'.workers[w].Sending? ensures s'.workers[w].id != id {
      assert s'.workers[w].id == id ==> w in Pinners(s.workers, id);
    }
  }

  lemma InsertKeeps<Id>(s: Site<Id>, id: Id, file: File)
    requires Inv(s) && id !in s.cache.elems && file in s.readings
    requires s.cache.currentSize + |file.contents| <= s.cache.max
    ensures Inv(Inserted(s, s.cache, id, file))
  {
    var s' := Inserted(s, s.cache, id, file);
    InsertCoherent(s.cache, id, file);
    InsertTotal(s.cache, id, file);
    assert Budgeted(s'.cache);
    assert id !in s.cache.lru;
    hide Coherent, Budgeted, Increasing, Counted, Pinned, Sourced;
    AppendOrder(s.cache.lru, id, s.lastUse, s.clock);
    assert Ordered(s');
    PinnedAfterInsert(s, id, file);
  }

  lemma PinnedAfterInsert<Id>(s: Site<Id>, id: Id, file: File)
    requires Shaped(s.cache) && Pinned(s) && Counted(s) && Sourced(s) && id !in s.cache.elems && file in s.readings
    ensures var s' := Inserted(s, s.cache, id, file); Pinned(s') && Counted(s') && Sourced(s')
  {
    NotPinned(s, id);
    hide Shaped, Bucket;
  }

  lemma InvFacts<Id>(s: Site<Id>)
    requires Inv(s)
    ensures Coherent(s.cache) && Shaped(s.cache) && Budgeted(s.cache) && Pinned(s) && Counted(s) && Ordered(s)
    ensures Sourced(s)
  {
  }

  lemma EnterKeeps<Id>(s: Site<Id>, w: int, address: Id, file: File)
    requires Inv(s) && WorkerOf(s, w) == Loaded(file) && address !in s.cache.elems
    ensures Coherent(s.cache) && Inv(EnterStep(s, w, address, file))
  {
    hide Inv, Coherent, Shaped, Lookup, Admit, Budgeted, Use;
    InvFacts(s);
    LookupIsSound(s.cache, file.name);
    if Lookup(s.cache, file.name).Some? {
      UseKeeps(s, w, file.name, Lookup(s.cache, file.name).value);
    } else if Admit(s.cache, address, file).None? {
      BecomeKeeps(s, w, SendingOwn(file));
    } else {
      AdmitKeeps(s, w, address, file);
    }
  }

  lemma EvictedKeeps<Id>(s: Site<Id>, c: Cache<Id>)
    requires Inv(s) && Shaped(s.cache)
    requires c == s.cache
             || exists v :: v in s.cache.elems && Victim(s.cache.lru, s.cache.elems) == Some(v) && c == Remove(s.cache, v)
    ensures Inv(s.(cache := c)) && c.elems.Keys <= s.cache.elems.Keys
  {
    hide Inv, Coherent, Shaped, Budgeted;
    InvFacts(s);
    if c != s.cache {
      var v :| v in s.cache.elems && Victim(s.cache.lru, s.cache.elems) == Some(v) && c == Remove(s.cache, v);
      VictimIsListed(s.cache.lru, s.cache.elems);
      EvictKeeps(s, v);
    }
  }

  lemma InsertHolds<Id>(c: Cache<Id>, id: Id, file: File)
    requires Shaped(c)
    ensures id in Insert(c, id, file).elems && Insert(c, id, file).elems[id].file == file
  {
  }

  lemma AdmitKeeps<Id>(s: Site<Id>, w: int, address: Id, file: File)
    requires Inv(s) && Coherent(s.cache) && Shaped(s.cache)
    requires WorkerOf(s, w) == Loaded(file) && address !in s.cache.elems && file in s.readings
    requires Lookup(s.cache, file.name).None? && Admit(s.cache, address, file).Some?
    ensures Inv(EnterStep(s, w, address, file))
  {
    hide Inv, Coherent, Shaped, Lookup, Admit, Budgeted, Remove, Use, Victim, Insert, Pinned, Counted, Ordered, Sourced;
    InvFacts(s);
    var c := AdmitCases(s.cache, address, file);
    EvictedKeeps(s, c);
    InvFacts(s.(cache := c));
    InsertKeeps(s.(cache := c), address, file);
    InsertHolds(c, address, file);
    UseKeeps(Inserted(s, c, address, file), w, file.name, address);
  }

  lemma ReadKeeps<Id>(s: Site<Id>, w: int, file: File)
    requires Inv(s) && WorkerOf(s, w).Missed?
    ensures Inv(Become(s, w, Loaded(file)).(readings := s.readings + {file}))
  {
    var s1 := s.(readings := s.readings + {file});
    hide Coherent, Budgeted, Pinners;
    assert Inv(s1);
    hide Inv;
    BecomeKeeps(s1, w, Loaded(file));
  }

  lemma RequestKeeps<Id>(s: Site<Id>, w: int, name: string)
    requires Inv(s) && Coherent(s.cache) && WorkerOf(s, w).Idle?
    ensures Inv(Step(s, Request(w, name)))
  {
    hide Inv, Coherent, Lookup, Use;
    CoherentFacts(s.cache);
    LookupIsSound(s.cache, name);
    if Lookup(s.cache, name).Some? {
      UseKeeps(s, w, name, Lookup(s.cache, name).value);
    } else {
      BecomeKeeps(s, w, Missed(name));
    }
  }

  /** Every step, of whichever worker, keeps the invariant. */
  lemma StepKeepsInv<Id>(s: Site<Id>, a: Action<Id>)
    requires Inv(s) && Enabled(s, a)
    ensures Inv(Step(s, a))
  {
    hide Inv, Coherent, Lookup, Use, EnterStep, Unpin;
    InvFacts(s);
    match a
    case Request(w, name) => RequestKeeps(s, w, name);
    case Read(w, contents) => ReadKeeps(s, w, File(WorkerOf(s, w).name, contents));
    case ReadFails(w) => BecomeKeeps(s, w, Idle);
    case Enter(w, address) => EnterKeeps(s, w, address, WorkerOf(s, w).file);
    case Finish(w) =>
      if WorkerOf(s, w).Sending? {
        FinishKeeps(s, w, WorkerOf(s, w).id);
      } else {
        BecomeKeeps(s, w, Idle);
      }
  }

  // ------------------------------------------------------------------- whole runs

  /** server_init: an empty cache of the given size. */
  ghost function Start<Id>(max: int): Site<Id>
    requires max > 0
  {
    Site(Cache(max, seq(max, _ => []), [], map[], 0), map[], 0, map[], {})
  }

  lemma StartIsInv<Id>(max: int)
    requires max > 0
    ensures Inv(Start<Id>(max))
  {
  }

  /** The state after the actions; one that is not enabled does not happen. */
  ghost function After<Id>(s: Site<Id>, actions: seq<Action<Id>>): Site<Id>
    requires Inv(s)
    decreases |actions|
  {
    if actions == [] then s
    else if Enabled(s, actions[0]) then StepKeepsInv(s, actions[0]); After(Step(s, actions[0]), actions[1..])
    else After(s, actions[1..])
  }

  lemma {:induction false} AfterKeepsInv<Id>(s: Site<Id>, actions: seq<Action<Id>>)
    requires Inv(s)
    ensures Inv(After(s, actions))
    decreases |actions|
  {
    hide Inv, Step, Enabled;
    if actions != [] {
      if Enabled(s, actions[0]) {
        StepKeepsInv(s, actions[0]);
        AfterKeepsInv(Step(s, actions[0]), actions[1..]);
      } else {
        AfterKeepsInv(s, actions[1..]);
      }
    }
  }

  lemma {:induction false} AfterMore<Id>(s: Site<Id>, actions: seq<Action<Id>>, a: Action<Id>)
    requires Inv(s)
    ensures Inv(After(s, actions))
    ensures After(s, actions + [a]) == if Enabled(After(s, actions), a) then Step(After(s, actions), a) else After(s, actions)
    decreases |actions|
  {
    hide Inv, Step, Enabled;
    AfterKeepsInv(s, actions);
    var more := actions + [a];
    if actions == [] {
      assert more == [a] && more[1..] == [];
      if Enabled(s, a) {
        StepKeepsInv(s, a);
      }
    } else {
      assert more[0] == actions[0] && more[1..] == actions[1..] + [a];
      if Enabled(s, actions[0]) {
        StepKeepsInv(s, actions[0]);
        AfterMore(Step(s, actions[0]), actions[1..], a);
      } else {
        AfterMore(s, actions[1..], a);
      }
    }
  }

  /** In every reachable state the chains and the list agree, sizes add up to
      currentSize within the budget, pin counts are exact, what is sent is cached under the
      requested name, the list is ordered by last use, and contents are as they were read. */
  lemma Reachable<Id>(max: int, actions: seq<Action<Id>>)
    requires max > 0
    ensures Inv(Start<Id>(max))
    ensures var s := After(Start<Id>(max), actions);
            && Coherent(s.cache) && s.cache.currentSize == Total(s.cache.lru, s.cache.elems) <= s.cache.max
            && (forall id :: id in s.cache.elems ==> s.cache.elems[id].refCount == |Pinners(s.workers, id)|)
            && Pinned(s) && Ordered(s) && Sourced(s)
  {
    StartIsInv<Id>(max);
    AfterKeepsInv(Start<Id>(max), actions);
  }

  ghost predicate StillSent<Id>(s: Site<Id>, s': Site<Id>, w: int, id: Id) {
    && WorkerOf(s', w) == WorkerOf(s, w)
    && id in s.cache.elems && id in s'.cache.elems && s'.cache.elems[id].file == s.cache.elems[id].file
  }

  lemma StillSentAfterEnter<Id>(s: Site<Id>, v: int, address: Id, w: int)
    requires Inv(s) && Enabled(s, Enter(v, address)) && WorkerOf(s, w).Sending?
    ensures StillSent(s, Step(s, Enter(v, address)), w, WorkerOf(s, w).id)
  {
    hide Inv, Coherent, Lookup, Budgeted, Ordered, Sourced, Counted, Without, Admit;
    InvFacts(s);
    var id := WorkerOf(s, w).id;
    assert w in Pinners(s.workers, id);
    var file := WorkerOf(s, v).file;
    LookupIsSound(s.cache, file.name);
    if Lookup(s.cache, file.name).None? && Admit(s.cache, address, file).Some? {
      KeptByAdmit(s, address, file, id);
      AdmitHolds(s.cache, address, file);
    }
  }

  lemma AdmitHolds<Id>(c: Cache<Id>, id: Id, file: File)
    requires Coherent(c) && Admit(c, id, file).Some?
    ensures id in Admit(c, id, file).value.elems
  {
  }

  /** While a worker sends an element no other step removes it or changes its file. */
  lemma StepKeepsPinned<Id>(s: Site<Id>, a: Action<Id>, w: int)
    requires Inv(s) && Enabled(s, a) && WorkerOf(s, w).Sending? && a != Finish(w)
    ensures StillSent(s, Step(s, a), w, WorkerOf(s, w).id)
  {
    hide Inv, Coherent, Lookup, Budgeted, Ordered, Sourced, Counted, Without, EnterStep;
    InvFacts(s);
    match a
    case Enter(v, address) => StillSentAfterEnter(s, v, address, w);
    case _ =>
  }

  lemma KeptByAdmit<Id>(s: Site<Id>, address: Id, file: File, id: Id)
    requires Inv(s) && Coherent(s.cache) && address !in s.cache.elems && Pinners(s.workers, id) != {} && id in s.cache.elems
    requires Admit(s.cache, address, file).Some?
    ensures var c := Admit(s.cache, address, file).value; id in c.elems && c.elems[id].file == s.cache.elems[id].file
  {
    hide Inv, Coherent, Budgeted, Ordered, Sourced, Pinned, Admit, Pinners;
    InvFacts(s);
    VictimIsListed(s.cache.lru, s.cache.elems);
    var c := AdmitCases(s.cache, address, file);
  }

  /** What a worker sends stays as it was from the moment it is pinned until the worker
      is done, whatever the others do, and it is a file of the requested name as read. */
  lemma {:induction false} SentFileIsStable<Id>(s: Site<Id>, actions: seq<Action<Id>>, w: int)
    requires Inv(s) && WorkerOf(s, w).Sending? && Finish(w) !in actions
    ensures var s' := After(s, actions); var id := WorkerOf(s, w).id;
            && WorkerOf(s', w) == WorkerOf(s, w)
            && id in s.cache.elems && id in s'.cache.elems && s'.cache.elems[id].file == s.cache.elems[id].file
            && s.cache.elems[id].file.name == WorkerOf(s, w).name && s.cache.elems[id].file in s.readings
    decreases |actions|
  {
    assert Pinned(s) && Sourced(s);
    if actions != [] {
      assert actions[0] in actions && forall a :: a in actions[1..] ==> a in actions;
      if Enabled(s, actions[0]) {
        StepKeepsInv(s, actions[0]);
        StepKeepsPinned(s, actions[0], w);
        hide Inv, Step, Enabled;
        SentFileIsStable(Step(s, actions[0]), actions[1..], w);
      } else {
        hide Inv, Step, Enabled;
        SentFileIsStable(s, actions[1..], w);
      }
    }
  }

  /** The element that makes room is the least recently used one that nobody sends. */
  lemma VictimIsLeastRecentlyUsed<Id>(s: Site<Id>, v: Id, x: Id)
    requires Inv(s) && Victim(s.cache.lru, s.cache.elems) == Some(v)
    requires x in s.cache.elems && Pinners(s.workers, x) == {} && x != v
    ensures v in s.lastUse && x in s.lastUse && s.lastUse[v] < s.lastUse[x]
    ensures Pinners(s.workers, v) == {}
  {
    assert x in s.cache.lru;
    VictimIsListed(s.cache.lru, s.cache.elems);
    NotPinned(s, v);
    var k := VictimIsFirst(s.cache.lru, s.cache.elems, x);
  }

  lemma {:induction false} VictimIsFirst<Id>(ids: seq<Id>, elems: map<Id, Element>, x: Id) returns (k: nat)
    requires (forall id :: id in ids ==> id in elems) && x in ids && elems[x].refCount == 0
    ensures k < |ids| && Victim(ids, elems) == Some(ids[k])
    ensures x == ids[k] || x in ids[k + 1..]
  {
    if elems[ids[0]].refCount == 0 {
      k := 0;
    } else {
      var l := VictimIsFirst(ids[1..], elems, x);
      k := l + 1;
    }
  }
}
