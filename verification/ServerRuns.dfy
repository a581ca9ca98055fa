/** Any number of workers on the linked cache (do_server_request in
    webserver/server_thread.c): what a worker does to the links while it holds the mutex is
    a step of CacheRuns, along every run from server_init. */
module ServerRuns {
  import opened Words
  import opened FileCache
  import opened CacheLists
  import opened ServerCache
  import opened CacheRuns

  /** The memory of the cache. */
  ghost function Footprint(sv: Server): set<object>
    reads sv, sv.table, sv.lq
  {
    {sv, sv.table, sv.table.ht, sv.lq} + sv.table.entries + (set i | 0 <= i < |sv.lq.nodes| :: sv.lq.nodes[i] as object)
  }

  lemma InFootprint(sv: Server)
    ensures {sv, sv.table, sv.table.ht, sv.lq} + sv.table.entries <= Footprint(sv)
    ensures forall n :: n in sv.lq.nodes ==> n in Footprint(sv)
  {
    forall n | n in sv.lq.nodes ensures n in Footprint(sv) {
      var i :| 0 <= i < |sv.lq.nodes| && sv.lq.nodes[i] == n;
    }
  }

  /** Everything that is new in the cache was allocated since. */
  twostate lemma FootprintGrows(sv: Server)
    requires forall x :: x in sv.table.entries ==> x in old(sv.table.entries) || fresh(x)
    requires forall i :: 0 <= i < |sv.lq.nodes| ==> sv.lq.nodes[i] in old(sv.lq.nodes) || fresh(sv.lq.nodes[i])
    ensures fresh(Footprint(sv) - old(Footprint(sv)))
  {
  }

  // --------------------------------------------------------- what the steps come to

  /** The first critical section, told by what the lookup found. */
  lemma HitIs(s: Site<Entry>, w: int, name: string, id: Entry)
    requires Inv(s) && Shaped(s.cache) && WorkerOf(s, w).Idle? && Lookup(s.cache, name) == Some(id) && id in s.cache.elems
    ensures var s' := Step(s, Request(w, name));
            Inv(s') && s'.cache == Pin(s.cache, id) && s'.workers == s.workers[w := Sending(name, id)]
  {
    hide Inv, Lookup, Pin;
    StepKeepsInv(s, Request(w, name));
  }

  lemma MissIs(s: Site<Entry>, w: int, name: string)
    requires Inv(s) && Shaped(s.cache) && WorkerOf(s, w).Idle? && Lookup(s.cache, name).None?
    ensures var s' := Step(s, Request(w, name));
            Inv(s') && s'.cache == s.cache && s'.workers == s.workers[w := Missed(name)]
  {
    hide Inv, Lookup;
    StepKeepsInv(s, Request(w, name));
  }

  /** The second critical section: refused, found after all, or admitted. */
  lemma RefusalIs(s: Site<Entry>, w: int, address: Entry, file: File)
    requires Inv(s) && Coherent(s.cache) && Shaped(s.cache) && WorkerOf(s, w) == Loaded(file) && address !in s.cache.elems
    requires Lookup(s.cache, file.name).None? && Admit(s.cache, address, file).None?
    ensures var s' := Step(s, Enter(w, address));
            Inv(s') && s'.cache == s.cache && s'.workers == s.workers[w := SendingOwn(file)]
  {
    hide Inv, Lookup, Admit, Coherent;
    StepKeepsInv(s, Enter(w, address));
  }

  lemma FoundIs(s: Site<Entry>, w: int, address: Entry, file: File, id: Entry)
    requires Inv(s) && Coherent(s.cache) && Shaped(s.cache) && WorkerOf(s, w) == Loaded(file) && address !in s.cache.elems
    requires Lookup(s.cache, file.name) == Some(id) && id in s.cache.elems
    ensures var s' := Step(s, Enter(w, address));
            Inv(s') && s'.cache == Pin(s.cache, id) && s'.workers == s.workers[w := Sending(file.name, id)]
  {
    hide Inv, Lookup, Admit, Coherent, Pin;
    StepKeepsInv(s, Enter(w, address));
  }

  lemma AdmissionIs(s: Site<Entry>, w: int, address: Entry, file: File)
    requires Inv(s) && Coherent(s.cache) && Shaped(s.cache) && WorkerOf(s, w) == Loaded(file) && address !in s.cache.elems
    requires Lookup(s.cache, file.name).None? && Admit(s.cache, address, file).Some?
    requires address in Admit(s.cache, address, file).value.elems
    ensures var s' := Step(s, Enter(w, address));
            && Inv(s') && s'.cache == Pin(Admit(s.cache, address, file).value, address)
            && s'.workers == s.workers[w := Sending(file.name, address)]
  {
    hide Inv, Lookup, Admit, Coherent, Pin;
    StepKeepsInv(s, Enter(w, address));
  }

  class Service {
    const sv: Server
    var workers: map<int, Worker<Entry>>
    ghost var site: Site<Entry>

    /** The links are sound, and with the workers they make a state of the runs. */
    ghost predicate Valid()
      reads this, Footprint(sv)
    {
      sv.Valid() && this !in Footprint(sv) && Inv(site) && site.cache == sv.Value() && site.workers == workers
    }

    /** server_init */
    constructor (max: int)
      requires max > 0
      ensures Valid() && site == Start(max) && fresh(Footprint(sv))
    {
      hide Server.Valid, Inv, Server.Value;
      sv := new Server(max);
      workers, site := map[], Start(max);
      new;
      StartIsInv<Entry>(max);
    }

    /** The worker goes on to its next place; the cache is already in step. */
    method Settle(w: int, worker: Worker<Entry>, ghost s: Site<Entry>)
      requires sv.Valid() && this !in Footprint(sv) && Inv(s) && s.cache == sv.Value() && s.workers == workers[w := worker]
      modifies this
      ensures Valid() && site == s && Footprint(sv) == old(Footprint(sv))
    {
      hide Server.Valid, Inv, Server.Value;
      workers := workers[w := worker];
      site := s;
    }

    /** The first critical section: a hit is pinned, a miss leaves the cache alone. */
    method Request(w: int, name: string)
      requires Valid() && WorkerOf(site, w).Idle?
      modifies this, Footprint(sv)
      ensures site == Step(old(site), Action.Request(w, name))
      ensures old(Shaped(site.cache)) && w in workers
      ensures match old(Lookup(site.cache, name))
              case None => workers[w] == Missed(name) && site.cache == old(site.cache)
              case Some(id) => workers[w] == Sending(name, id) && id in old(site.cache).elems && site.cache == Pin(old(site.cache), id)
      ensures Valid() && fresh(Footprint(sv) - old(Footprint(sv)))
    {
      hide Server.Valid, Inv, Coherent, Shaped, Server.Value, Footprint, Lookup, Pin, Step;
      InFootprint(sv);
      ghost var s := site;
      InvFacts(s);
      label Start:
      var e := sv.Begin(name);
      FootprintGrows@Start(sv);
      if e == null {
        MissIs(s, w, name);
        Settle(w, Missed(name), Step(s, Action.Request(w, name)));
      } else {
        HitIs(s, w, name, e);
        Settle(w, Sending(name, e), Step(s, Action.Request(w, name)));
      }
    }

    /** request_readfile, without the mutex: the file, or no such file. */
    method Read(w: int, contents: seq<byte>)
      requires Valid() && WorkerOf(site, w).Missed?
      modifies this
      ensures site == Step(old(site), Action.Read(w, contents))
      ensures Valid() && Footprint(sv) == old(Footprint(sv))
    {
      hide Server.Valid, Inv, Server.Value, Footprint;
      StepKeepsInv(site, Action.Read(w, contents));
      Settle(w, Loaded(File(workers[w].name, contents)), Step(site, Action.Read(w, contents)));
    }

    method ReadFails(w: int)
      requires Valid() && WorkerOf(site, w).Missed?
      modifies this
      ensures site == Step(old(site), Action.ReadFails(w))
      ensures Valid() && Footprint(sv) == old(Footprint(sv))
    {
      hide Server.Valid, Inv, Server.Value, Footprint;
      StepKeepsInv(site, Action.ReadFails(w));
      Settle(w, Idle, Step(site, Action.ReadFails(w)));
    }

    /** The second critical section; `address` is the new entry, if there is one, and
        otherwise any memory the cache does not use. */
    method Enter(w: int, ghost spare: Entry) returns (ghost address: Entry)
      requires Valid() && WorkerOf(site, w).Loaded? && spare !in sv.table.entries
      modifies this, Footprint(sv)
      ensures Valid() && fresh(Footprint(sv) - old(Footprint(sv)))
      ensures Enabled(old(site), Action.Enter(w, address)) && site == Step(old(site), Action.Enter(w, address))
      ensures old(Shaped(site.cache)) && w in old(workers) && w in workers && old(workers[w].Loaded?)
      ensures var file := old(workers[w].file);
              old(Lookup(site.cache, file.name)).None? ==>
                if old(HasRoomFor(site.cache, |workers[w].file.contents|))
                then
                  && workers[w] == Sending(file.name, address) && address in site.cache.elems
                  && site.cache.elems[address] == Element(file, Bucket(file.name, site.cache.max), 1)
                else workers[w] == SendingOwn(file) && site.cache == old(site.cache)
    {
      hide Server.Valid, Inv, Coherent, Shaped, Server.Value, Footprint, Lookup, Pin, Step, Admit;
      InFootprint(sv);
      ghost var s := site;
      InvFacts(s);
      Keys(sv);
      var file := workers[w].file;
      label Start:
      var e := sv.Enter(file);
      FootprintGrows@Start(sv);
      address := spare;
      if e == null {
        RefusalIs(s, w, spare, file);
        Settle(w, SendingOwn(file), Step(s, Action.Enter(w, spare)));
      } else {
        if Lookup(s.cache, file.name).Some? {
          FoundIs(s, w, spare, file, e);
        } else {
          address := e;
          AdmittedIsPinned(s.cache, e, file);
          AdmissionIs(s, w, e, file);
        }
        Settle(w, Sending(file.name, e), Step(s, Action.Enter(w, address)));
      }
    }

    /** The last critical section: what was pinned is released. */
    method Finish(w: int)
      requires Valid() && Enabled(site, Action.Finish(w))
      modifies this, Footprint(sv)
      ensures site == Step(old(site), Action.Finish(w))
      ensures w in old(workers) && w in workers && workers[w] == Idle
      ensures match old(workers[w])
              case Sending(_, id) => id in old(site.cache).elems && site.cache == Unpin(old(site.cache), id)
              case _ => site.cache == old(site.cache)
      ensures Valid() && fresh(Footprint(sv) - old(Footprint(sv)))
    {
      hide Server.Valid, Inv, Coherent, Shaped, Server.Value, Footprint, Unpin;
      InFootprint(sv);
      ghost var s := site;
      InvFacts(s);
      Keys(sv);
      StepKeepsInv(s, Action.Finish(w));
      label Start:
      if workers[w].Sending? {
        sv.Release(workers[w].id);
        FootprintGrows@Start(sv);
      }
      Settle(w, Idle, Step(s, Action.Finish(w)));
    }
  }

  lemma Keys(sv: Server)
    requires sv.Valid()
    ensures sv.Value().elems.Keys == sv.table.entries
  {
  }

  // ------------------------------------------------------------------- whole runs

  /** What a worker is scheduled to do next. */
  datatype Call =
    | Asks(w: int, name: string)
    | Reads(w: int, contents: seq<byte>)
    | FailsToRead(w: int)
    | Enters(w: int)
    | Finishes(w: int)

  predicate Ready(call: Call, workers: map<int, Worker<Entry>>) {
    var worker := if call.w in workers then workers[call.w] else Idle;
    match call
    case Asks(_, _) => worker.Idle?
    case Reads(_, _) => worker.Missed?
    case FailsToRead(_) => worker.Missed?
    case Enters(_) => worker.Loaded?
    case Finishes(_) => worker.Sending? || worker.SendingOwn?
  }

  /** The action that stands for a call; only the address of a new entry is chosen. */
  ghost predicate Stands(a: Action<Entry>, call: Call) {
    match call
    case Asks(w, name) => a == Request(w, name)
    case Reads(w, contents) => a == Read(w, contents)
    case FailsToRead(w) => a == ReadFails(w)
    case Enters(w) => a.Enter? && a.w == w
    case Finishes(w) => a == Finish(w)
  }

  /** One call, if the worker is at that point; otherwise nothing happens. */
  method Do(service: Service, call: Call, ghost spare: Entry) returns (ghost a: Action<Entry>)
    requires service.Valid() && spare !in service.sv.table.entries
    modifies service, Footprint(service.sv)
    ensures service.Valid() && fresh(Footprint(service.sv) - old(Footprint(service.sv)))
    ensures Stands(a, call) && Inv(old(service.site))
    ensures service.site == if Enabled(old(service.site), a) then Step(old(service.site), a) else old(service.site)
  {
    hide Server.Valid, Inv, Server.Value, Footprint, Step;
    Keys(service.sv);
    if !Ready(call, service.workers) {
      a := match call
        case Asks(w, name) => Request(w, name)
        case Reads(w, contents) => Read(w, contents)
        case FailsToRead(w) => ReadFails(w)
        case Enters(w) => Enter(w, spare)
        case Finishes(w) => Finish(w);
      return;
    }
    match call {
      case Asks(w, name) =>
        a := Request(w, name);
        service.Request(w, name);
      case Reads(w, contents) =>
        a := Read(w, contents);
        service.Read(w, contents);
      case FailsToRead(w) =>
        a := ReadFails(w);
        service.ReadFails(w);
      case Enters(w) =>
        ghost var address := service.Enter(w, spare);
        a := Enter(w, address);
      case Finishes(w) =>
        a := Finish(w);
        service.Finish(w);
    }
  }

  /** Every interleaving of workers from server_init: the chains and the list stay linked,
      entries and nodes point at each other, and what the links spell out is the state that
      the step relation reaches, in which the invariant holds. */
  method Run(max: int, calls: seq<Call>) returns (service: Service, ghost actions: seq<Action<Entry>>)
    requires max > 0
    ensures service.Valid() && |actions| == |calls| && forall i :: 0 <= i < |calls| ==> Stands(actions[i], calls[i])
    ensures Inv(Start<Entry>(max)) && service.site == After(Start(max), actions) && Inv(service.site)
    ensures service.sv.table.Valid() && service.sv.lq.Valid() && service.sv.Linked()
  {
    hide Server.Valid, Inv, Server.Value, Enabled, Step, Stands;
    StartIsInv<Entry>(max);
    ghost var spare := new Entry.Spare();
    service := new Service(max);
    actions := [];
    var n := 0;
    while n < |calls|
      invariant 0 <= n == |actions| <= |calls| && forall i :: 0 <= i < n ==> Stands(actions[i], calls[i])
      invariant service.Valid() && service.site == After(Start(max), actions)
      invariant fresh(service) && fresh(Footprint(service.sv)) && spare !in Footprint(service.sv)
    {
      ghost var a := Do(service, calls[n], spare);
      AfterMore(Start(max), actions, a);
      actions := actions + [a];
      n := n + 1;
    }
    LinksAreSound(service);
  }

  lemma LinksAreSound(service: Service)
    requires service.sv.Valid()
    ensures service.sv.table.Valid() && service.sv.lq.Valid() && service.sv.Linked()
  {
  }
}
