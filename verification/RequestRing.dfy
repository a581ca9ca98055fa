/** The bounded request queue of the web server (webserver/server_thread.c): any
    number of workers and requesters share one mutex and two condition variables.
    What a thread does while it holds the mutex is one step. */
module RequestRing {
  datatype Ring = Ring(rq: seq<int>, start: int, end: int, counter: int)

  /** max_requests */
  function Capacity(r: Ring): int {
    |r.rq|
  }

  ghost predicate InRange(r: Ring) {
    && 0 <= r.counter <= Capacity(r)
    && (Capacity(r) > 0 ==>
          && 0 <= r.start < Capacity(r) && 0 <= r.end < Capacity(r)
          && (r.end + r.counter) % Capacity(r) == r.start)
  }

  /** The descriptors in the ring, oldest first. */
  function Contents(r: Ring): (q: seq<int>)
    requires InRange(r)
    ensures |q| == r.counter
  {
    seq(r.counter, i requires 0 <= i < r.counter => r.rq[(r.end + i) % Capacity(r)])
  }

  function Put(r: Ring, connfd: int): Ring
    requires InRange(r) && r.counter != Capacity(r)
  {
    r.(rq := r.rq[r.start := connfd], start := (r.start + 1) % Capacity(r), counter := r.counter + 1)
  }

  function Take(r: Ring): Ring
    requires InRange(r) && r.counter != 0
  {
    r.(end := (r.end + 1) % Capacity(r), counter := r.counter - 1)
  }

  lemma Wraps(x: int, n: int)
    requires 0 <= x < 2 * n
    ensures x % n == if x < n then x else x - n
  {
  }

  /** Storing appends one descriptor and moves no other. */
  lemma PutAppends(r: Ring, connfd: int)
    requires InRange(r) && r.counter != Capacity(r)
    ensures InRange(Put(r, connfd)) && Contents(Put(r, connfd)) == Contents(r) + [connfd]
  {
    var n := Capacity(r);
    var r' := Put(r, connfd);
    Wraps(r.end + r.counter, n);
    Wraps(r.start + 1, n);
    Wraps(r.end + r'.counter, n);
    assert InRange(r');
    forall i | 0 <= i < r'.counter ensures Contents(r')[i] == (Contents(r) + [connfd])[i] {
      Wraps(r.end + i, n);
    }
  }

  /** Taking removes the oldest descriptor. */
  lemma TakeRemovesOldest(r: Ring)
    requires InRange(r) && r.counter != 0
    ensures InRange(Take(r)) && Contents(r) == [r.rq[r.end]] + Contents(Take(r))
  {
    var n := Capacity(r);
    var r' := Take(r);
    Wraps(r.end + r.counter, n);
    Wraps(r.end + 1, n);
    Wraps(r'.end + r'.counter, n);
    Wraps(r.end, n);
    assert InRange(r');
    forall i | 0 <= i < r'.counter ensures Contents(r')[i] == Contents(r)[i + 1] {
      Wraps(r.end + i + 1, n);
      Wraps(r'.end + i, n);
    }
  }

  // ------------------------------------------------------ the shared variables

  /** The globals of the server, changed in place under the mutex. */
  class RequestQueue {
    const rq: array<int>
    var rq_start: int
    var rq_end: int
    var request_counter: int

    ghost function Value(): Ring
      reads this, rq
    {
      Ring(rq[..], rq_start, rq_end, request_counter)
    }

    constructor (max_requests: nat)
      ensures InRange(Value()) && Contents(Value()) == [] && rq.Length == max_requests
      ensures Value() == Ring(Value().rq, 0, 0, 0)
    {
      rq := new int[max_requests];
      rq_start, rq_end, request_counter := 0, 0, 0;
    }

    /** The body of server_request once the ring is not full. */
    method Store(connfd: int) returns (broadcast: bool)
      requires InRange(Value()) && request_counter != rq.Length
      modifies this, rq
      ensures InRange(Value()) && Value() == Put(old(Value()), connfd)
      ensures Contents(Value()) == old(Contents(Value())) + [connfd]
      ensures broadcast <==> old(Contents(Value())) == []
    {
      PutAppends(Value(), connfd);
      rq[rq_start] := connfd;
      broadcast := request_counter == 0;
      rq_start := (rq_start + 1) % rq.Length;
      request_counter := request_counter + 1;
    }

    /** The body of start_thread once the ring is not empty. */
    method Fetch() returns (connfd: int, broadcast: bool)
      requires InRange(Value()) && request_counter != 0
      modifies this
      ensures InRange(Value()) && Value() == Take(old(Value()))
      ensures old(Contents(Value())) == [connfd] + Contents(Value())
      ensures broadcast <==> |old(Contents(Value()))| == rq.Length
    {
      TakeRemovesOldest(Value());
      connfd := rq[rq_end];
      broadcast := request_counter == rq.Length;
      rq_end := (rq_end + 1) % rq.Length;
      request_counter := request_counter - 1;
    }
  }

  // ------------------------------------------------------------- all the threads

  /** Wait sets of the condition variables, the descriptors of the calls to
      server_request that have not returned, and what went in and out so far. */
  datatype Server = Server(
    ring: Ring,
    empty: set<int>,
    full: set<int>,
    pending: map<int, int>,
    offered: multiset<int>,
    accepted: seq<int>,
    delivered: seq<int>,
    worker: seq<int>)

  datatype Action =
    | Call(p: int, connfd: int)   // thread p enters server_request
    | Offer(p: int)               // p holds the mutex and tests the counter
    | Serve(w: int)               // worker w holds the mutex and tests the counter
    | Spurious(t: int)            // a wait returns without a broadcast

  predicate Enabled(s: Server, a: Action) {
    match a
    case Call(p, _) => p !in s.pending
    case Offer(p) => p in s.pending && p !in s.full
    case Serve(w) => w !in s.empty
    case Spurious(_) => true
  }

  function Step(s: Server, a: Action): Server
    requires InRange(s.ring) && Enabled(s, a)
  {
    match a
    case Call(p, connfd) => s.(pending := s.pending[p := connfd], offered := s.offered + multiset{connfd})
    case Offer(p) =>
      if s.ring.counter == Capacity(s.ring) then s.(full := s.full + {p})
      else
        s.(ring := Put(s.ring, s.pending[p]),
           empty := if s.ring.counter == 0 then {} else s.empty,
           pending := s.pending - {p},
           accepted := s.accepted + [s.pending[p]])
    case Serve(w) =>
      if s.ring.counter == 0 then s.(empty := s.empty + {w})
      else
        s.(ring := Take(s.ring),
           full := if s.ring.counter == Capacity(s.ring) then {} else s.full,
           delivered := s.delivered + [s.ring.rq[s.ring.end]],
           worker := s.worker + [w])
    case Spurious(t) => s.(empty := s.empty - {t}, full := s.full - {t})
  }

  ghost function Values(m: map<int, int>): multiset<int> {
    if m.Keys == {} then multiset{} else var k := Pick(m.Keys); multiset{m[k]} + Values(m - {k})
  }

  ghost function Pick<T>(ks: set<T>): (k: T)
    requires ks != {}
    ensures k in ks
  {
    var k :| k in ks; k
  }

  lemma ValuesUnfold(m: map<int, int>)
    requires m.Keys != {}
    ensures Values(m) == multiset{m[Pick(m.Keys)]} + Values(m - {Pick(m.Keys)})
  {
  }

  lemma {:induction false} ValuesMinus(m: map<int, int>, k: int)
    requires k in m
    ensures Values(m) == multiset{m[k]} + Values(m - {k})
    decreases |m|
  {
    hide Values, Pick;
    var l := Pick(m.Keys);
    ValuesUnfold(m);
    if k != l {
      ValuesMinus(m - {l}, k);
      ValuesMinus(m - {k}, l);
      assert m - {l} - {k} == m - {k} - {l};
    }
  }

  lemma ValuesPlus(m: map<int, int>, k: int, v: int)
    requires k !in m
    ensures Values(m[k := v]) == multiset{v} + Values(m)
  {
    hide Values;
    ValuesMinus(m[k := v], k);
    assert m[k := v] - {k} == m;
  }

  /** What holds in every reachable state. */
  ghost predicate Inv(s: Server) {
    && InRange(s.ring)
    && s.accepted == s.delivered + Contents(s.ring) && |s.worker| == |s.delivered|
    && s.offered == multiset(s.accepted) + Values(s.pending)
    && (s.empty != {} ==> s.ring.counter == 0)
    && (s.full != {} ==> s.ring.counter == Capacity(s.ring))
    && s.full <= s.pending.Keys
  }

  lemma OfferKeepsInv(s: Server, p: int)
    requires Inv(s) && Enabled(s, Offer(p)) && s.ring.counter != Capacity(s.ring)
    ensures Inv(Step(s, Offer(p)))
  {
    PutAppends(s.ring, s.pending[p]);
    ValuesMinus(s.pending, p);
    hide Values, Contents, InRange, Put;
    var s' := Step(s, Offer(p));
    assert s'.accepted == s'.delivered + Contents(s'.ring);
    assert s'.offered == multiset(s'.accepted) + Values(s'.pending);
  }

  lemma ServeKeepsInv(s: Server, w: int)
    requires Inv(s) && Enabled(s, Serve(w)) && s.ring.counter != 0
    ensures Inv(Step(s, Serve(w)))
  {
    TakeRemovesOldest(s.ring);
    hide Values, Contents;
    var s' := Step(s, Serve(w));
    assert s'.accepted == s'.delivered + Contents(s'.ring);
  }

  lemma StepKeepsInv(s: Server, a: Action)
    requires Inv(s) && Enabled(s, a)
    ensures Inv(Step(s, a))
  {
    hide Values, Contents;
    match a
    case Call(p, connfd) => ValuesPlus(s.pending, p, connfd);
    case Offer(p) =>
      if s.ring.counter != Capacity(s.ring) {
        OfferKeepsInv(s, p);
      }
    case Serve(w) =>
      if s.ring.counter != 0 {
        ServeKeepsInv(s, w);
      }
    case Spurious(_) =>
  }

  /** What one lock-held section does, told by the contents of the ring: a caller waits
      if and only if the ring is full, and otherwise its descriptor goes in behind the
      others; a worker waits if and only if the ring is empty, and otherwise gets the oldest. */
  lemma SectionMeans(s: Server, a: Action)
    requires Inv(s) && Enabled(s, a) && (a.Offer? || a.Serve?)
    ensures InRange(s.ring) && InRange(Step(s, a).ring)
    ensures var s' := Step(s, a);
            var q, q' := Contents(s.ring), Contents(s'.ring);
            match a
            case Offer(p) =>
              if |q| == |s.ring.rq| then s' == s.(full := s.full + {p})
              else
                && q' == q + [s.pending[p]] && s'.accepted == s.accepted + [s.pending[p]] && s'.pending == s.pending - {p}
                && s'.empty == (if q == [] then {} else s.empty) && s'.full == s.full
                && s'.delivered == s.delivered && s'.worker == s.worker
            case Serve(w) =>
              if q == [] then s' == s.(empty := s.empty + {w})
              else
                && q == [q[0]] + q' && s'.delivered == s.delivered + [q[0]] && s'.worker == s.worker + [w]
                && s'.full == (if |q| == |s.ring.rq| then {} else s.full) && s'.empty == s.empty
                && s'.accepted == s.accepted && s'.pending == s.pending
            case _ => true
  {
    StepKeepsInv(s, a);
    match a
    case Offer(p) =>
      if s.ring.counter != Capacity(s.ring) {
        PutAppends(s.ring, s.pending[p]);
      }
    case Serve(w) =>
      if s.ring.counter != 0 {
        TakeRemovesOldest(s.ring);
      }
    case _ =>
  }

  ghost function Start(rq: seq<int>): Server {
    Server(Ring(rq, 0, 0, 0), {}, {}, map[], multiset{}, [], [], [])
  }

  /** The state after the actions; one that is not enabled does not happen. */
  ghost function After(s: Server, actions: seq<Action>): Server
    requires Inv(s)
    decreases |actions|
  {
    if actions == [] then s
    else if Enabled(s, actions[0]) then StepKeepsInv(s, actions[0]); After(Step(s, actions[0]), actions[1..])
    else After(s, actions[1..])
  }

  lemma {:induction false} AfterKeepsInv(s: Server, actions: seq<Action>)
    requires Inv(s)
    ensures Inv(After(s, actions))
    decreases |actions|
  {
    hide Inv, Step, Enabled;
    InvFacts(s);
    if actions != [] {
      if Enabled(s, actions[0]) {
        StepKeepsInv(s, actions[0]);
        AfterKeepsInv(Step(s, actions[0]), actions[1..]);
      } else {
        AfterKeepsInv(s, actions[1..]);
      }
    }
  }

  lemma StartIsInv(rq: seq<int>)
    ensures Inv(Start(rq))
  {
    assert Contents(Start(rq).ring) == [];
  }

  /** Workers get descriptors in the order in which they were accepted, each once;
      nothing is lost: every descriptor offered is delivered, in the ring, or still
      with a caller that has not returned. */
  lemma FirstInFirstOut(rq: seq<int>, actions: seq<Action>)
    ensures Inv(Start(rq))
    ensures var s := After(Start(rq), actions);
            && s.delivered <= s.accepted && |s.worker| == |s.delivered| && InRange(s.ring)
            && s.offered == multiset(s.delivered) + multiset(Contents(s.ring)) + Values(s.pending)
            && (Capacity(s.ring) > 0 ==> (s.ring.end + s.ring.counter) % Capacity(s.ring) == s.ring.start)
  {
    hide Values, Contents, After, InRange;
    StartIsInv(rq);
    AfterKeepsInv(Start(rq), actions);
    InRangeFacts(After(Start(rq), actions).ring);
  }

  lemma InRangeFacts(r: Ring)
    requires InRange(r)
    ensures Capacity(r) > 0 ==> (r.end + r.counter) % Capacity(r) == r.start
  {
  }

  /** No wake-up is lost, although broadcasts happen only when the ring stops being
      empty or full: a sleeping worker means all accepted descriptors are delivered, a
      sleeping caller means a full ring, and with a ring of any size above 0 workers
      and callers never sleep at the same time. */
  lemma NobodyWaitsInVain(rq: seq<int>, actions: seq<Action>)
    ensures Inv(Start(rq))
    ensures var s := After(Start(rq), actions);
            && (s.empty != {} ==> s.delivered == s.accepted)
            && (s.full != {} ==> |s.accepted| - |s.delivered| == Capacity(s.ring))
            && (Capacity(s.ring) > 0 ==> s.empty == {} || s.full == {})
  {
    hide After;
    StartIsInv(rq);
    AfterKeepsInv(Start(rq), actions);
  }

  lemma {:induction false} AfterMore(s: Server, actions: seq<Action>, a: Action)
    requires Inv(s)
    ensures var s' := After(s, actions);
            Inv(s') && InRange(s'.ring) && After(s, actions + [a]) == if Enabled(s', a) then Step(s', a) else s'
    decreases |actions|
  {
    hide Inv, Step, Enabled;
    InvFacts(s);
    if actions == [] {
      assert [a][1..] == [];
      if Enabled(s, a) {
        StepKeepsInv(s, a);
      }
    } else {
      assert (actions + [a])[1..] == actions[1..] + [a];
      if Enabled(s, actions[0]) {
        StepKeepsInv(s, actions[0]);
        AfterMore(Step(s, actions[0]), actions[1..], a);
      } else {
        AfterMore(s, actions[1..], a);
      }
    }
  }

  /** After any run: if a descriptor is in the ring, any worker whose turn it is gets the
      oldest one, and if there is room, any caller whose turn it is gets its own in. */
  lemma NextTurnSucceeds(rq: seq<int>, actions: seq<Action>, t: int)
    ensures Inv(Start(rq))
    ensures var s, served, offered := After(Start(rq), actions), After(Start(rq), actions + [Serve(t)]), After(Start(rq), actions + [Offer(t)]);
            && InRange(s.ring)
            && (Contents(s.ring) != [] ==> served.delivered == s.delivered + [Contents(s.ring)[0]])
            && (t in s.pending && |Contents(s.ring)| < |rq| ==>
                  offered.accepted == s.accepted + [s.pending[t]] && t !in offered.pending)
  {
    hide After, Contents, Step, Values;
    StartIsInv(rq);
    LogsGrow(Start(rq), actions);
    var s := After(Start(rq), actions);
    AfterMore(Start(rq), actions, Serve(t));
    AfterMore(Start(rq), actions, Offer(t));
    if Enabled(s, Serve(t)) {
      SectionMeans(s, Serve(t));
    }
    if Enabled(s, Offer(t)) {
      SectionMeans(s, Offer(t));
    }
  }

  ghost predicate Extends(s: Server, s': Server) {
    && s.accepted <= s'.accepted && s.delivered <= s'.delivered && s.worker <= s'.worker
    && Capacity(s'.ring) == Capacity(s.ring)
  }

  lemma StepExtends(s: Server, a: Action)
    requires InRange(s.ring) && Enabled(s, a)
    ensures Extends(s, Step(s, a))
  {
  }

  /** What was accepted or delivered stays so, in order, and the ring keeps its size. */
  lemma {:induction false} LogsGrow(s: Server, actions: seq<Action>)
    requires Inv(s)
    ensures Extends(s, After(s, actions))
    decreases |actions|
  {
    hide Step, Enabled, Inv;
    InvFacts(s);
    if actions != [] {
      if Enabled(s, actions[0]) {
        StepKeepsInv(s, actions[0]);
        StepExtends(s, actions[0]);
        LogsGrow(Step(s, actions[0]), actions[1..]);
      } else {
        LogsGrow(s, actions[1..]);
      }
    }
  }

  lemma InvFacts(s: Server)
    requires Inv(s)
    ensures InRange(s.ring)
  {
  }

  /** With room for no request at all, no call to server_request ever returns. */
  lemma NoCapacityNoService(actions: seq<Action>)
    ensures Inv(Start([])) && After(Start([]), actions).accepted == []
  {
    StartIsInv([]);
    NothingAccepted(Start([]), actions);
  }

  lemma {:induction false} NothingAccepted(s: Server, actions: seq<Action>)
    requires Inv(s) && Capacity(s.ring) == 0
    ensures After(s, actions).accepted == s.accepted
    decreases |actions|
  {
    if actions != [] {
      if Enabled(s, actions[0]) {
        StepKeepsInv(s, actions[0]);
        NothingAccepted(Step(s, actions[0]), actions[1..]);
      } else {
        NothingAccepted(s, actions[1..]);
      }
    }
  }
}
