/** The ready list and the wait queues of threads/thread.c together: which thread is in
    which linked list. */
module ThreadQueues {
  import opened Sequences
  import opened Scheduler
  import opened ThreadLists

  class Queues {
    const ready: List
    var waits: map<Queue, List>
    ghost var lists: set<List>
    ghost var repr: set<object>

    /** The lists are different objects, well linked, and share no node. */
    ghost predicate Linked()
      reads this, repr
    {
      && this in repr && lists <= repr && NodesOf(lists) <= repr
      && ready in lists
      && (forall q :: q in waits ==> waits[q] in lists && waits[q] != ready)
      && (forall q, r :: q in waits && r in waits && q != r ==> waits[q] != waits[r])
      && Separate(lists)
    }

    /** The threads in the ready list, read off its links. */
    ghost function Ready(): seq<int>
      reads ready
    {
      ready.Ids()
    }

    /** The threads in the wait queues, read off their links. */
    ghost function Waiting(): map<Queue, seq<int>>
      reads this, waits.Values
    {
      map q | q in waits :: waits[q].Ids()
    }

    /** Assignments elsewhere do not disturb the lists. */
    twostate lemma Kept()
      requires old(Linked()) && unchanged(this) && unchanged(old(repr))
      ensures Linked() && Ready() == old(Ready()) && Waiting() == old(Waiting()) && repr == old(repr)
    {
      hide NoDup, IdsOf, List.Valid, Separate;
    }

    constructor ()
      ensures Linked() && Ready() == [] && Waiting() == map[] && fresh(repr)
    {
      ready := new List();
      waits := map[];
      new;
      lists := {ready};
      repr := {this, ready};
    }

    method NewNode(t: int) returns (n: Node)
      requires Linked()
      modifies this`repr
      ensures Linked() && fresh(n) && n.tid == t && n !in NodesOf(lists) && repr == old(repr) + {n}
    {
      hide NoDup, IdsOf, List.Valid;
      n := new Node(t);
      repr := repr + {n};
    }

    /** pushbackRL of a new node */
    method PushReady(t: int) returns (n: Node)
      requires Linked() && t !in Ready()
      modifies repr
      ensures Linked() && fresh(repr - old(repr))
      ensures Ready() == old(Ready()) + [t] && Waiting() == old(Waiting()) && n.tid == t && n in ready.nodes
      ensures forall x :: x in old(ready.nodes) ==> x in ready.nodes
    {
      hide NoDup, IdsOf, List.Valid, Separate, NodesOf;
      n := NewNode(t);
      AppendTo(lists, ready, n, false);
      assert Waiting() == old(Waiting());
    }

    /** The head of the ready list, or null. */
    method HeadReady() returns (n: Node?)
      requires Linked()
      ensures n == null <==> Ready() == []
      ensures n != null ==> n in ready.nodes && n.tid == Ready()[0]
    {
      hide NoDup;
      SeparateFacts(lists, ready);
      HeadIsListed(ready);
      n := ready.head;
    }

    /** The search of thread_yield */
    method FindReady(t: int) returns (n: Node?)
      requires Linked()
      ensures n == null <==> t !in Ready()
      ensures n != null ==> n in ready.nodes && n.tid == t
    {
      SeparateFacts(lists, ready);
      n := ready.Find(t);
    }

    /** deleteNode on the ready list */
    method RemoveReady(n: Node)
      requires Linked() && n in ready.nodes
      modifies repr
      ensures Linked() && fresh(repr - old(repr))
      ensures Ready() == Without(old(Ready()), n.tid) && Waiting() == old(Waiting())
    {
      hide NoDup, IdsOf, List.Valid, Without;
      DeleteFrom(lists, ready, n);
      assert Waiting() == old(Waiting());
    }

    /** deleteNode of the head of the ready list */
    method PopReady() returns (t: int)
      requires Linked() && Ready() != []
      modifies repr
      ensures Linked() && fresh(repr - old(repr))
      ensures t == old(Ready())[0] && Ready() == old(Ready())[1..] && Waiting() == old(Waiting())
    {
      hide NoDup, IdsOf, List.Valid;
      t := DeleteHead(lists, ready);
      assert Waiting() == old(Waiting());
    }

    /** The wait queue `q`, made if it is not there yet. */
    method QueueFor(q: Queue) returns (l: List)
      requires Linked()
      modifies repr
      ensures Linked() && q in waits && waits[q] == l && fresh(repr - old(repr))
      ensures Ready() == old(Ready())
      ensures Waiting() == old(Waiting())[q := if q in old(Waiting()) then old(Waiting())[q] else []]
    {
      hide NoDup, IdsOf, List.Valid, Separate, NodesOf;
      if q in waits {
        l := waits[q];
        assert old(Waiting())[q := old(Waiting())[q]] == old(Waiting());
        return;
      }
      label Start:
      l := new List();
      MoreLists@Start(lists, l);
      waits := waits[q := l];
      lists, repr := lists + {l}, repr + {l};
      NoThreads(l);
      assert Waiting() == old(Waiting())[q := []];
    }

    /** pushbackWQ of a new node */
    method PushWaiting(q: Queue, t: int)
      requires Linked() && (q in Waiting() ==> t !in Waiting()[q])
      modifies repr
      ensures Linked() && fresh(repr - old(repr)) && Ready() == old(Ready())
      ensures Waiting() == old(Waiting())[q := (if q in old(Waiting()) then old(Waiting())[q] else []) + [t]]
    {
      hide NoDup, IdsOf, List.Valid, Linked, Waiting, Ready;
      OwnRepr(this);
      ghost var w := Waiting();
      ghost var a := if q in w then w[q] else [];
      assert w[q := a][q := a + [t]] == w[q := a + [t]];
      var l := QueueFor(q);
      label Made:
      var n := NewNode(t);
      SameQueues@Made(this);
      AppendWaiting(q, l, n);
    }

    method AppendWaiting(q: Queue, l: List, n: Node)
      requires Linked() && q in waits && waits[q] == l && n.tid !in Waiting()[q] && n in repr && n !in NodesOf(lists)
      modifies repr
      ensures Linked() && fresh(repr - old(repr)) && Ready() == old(Ready())
      ensures Waiting() == old(Waiting())[q := old(Waiting())[q] + [n.tid]]
    {
      hide NoDup, IdsOf, List.Valid, Separate, NodesOf;
      AppendTo(lists, l, n, true);
      assert Waiting() == old(Waiting())[q := old(Waiting())[q] + [n.tid]];
    }

    /** Whether anyone sleeps on a queue. */
    method HasSleeper(q: Queue) returns (b: bool)
      requires Linked()
      ensures b <==> q in Waiting() && Waiting()[q] != []
    {
      hide NoDup;
      b := false;
      if q in waits {
        SeparateFacts(lists, waits[q]);
        HeadIsListed(waits[q]);
        b := waits[q].head != null;
      }
    }

    /** deleteNodewq of the head of a queue */
    method PopWaiting(q: Queue) returns (t: int)
      requires Linked() && q in Waiting() && Waiting()[q] != []
      modifies repr
      ensures Linked() && fresh(repr - old(repr)) && Ready() == old(Ready())
      ensures t == old(Waiting())[q][0] && Waiting() == old(Waiting())[q := old(Waiting())[q][1..]]
    {
      hide NoDup, IdsOf, List.Valid;
      t := DeleteHead(lists, waits[q]);
      assert Waiting() == old(Waiting())[q := old(Waiting())[q][1..]];
    }
  }

  lemma OwnRepr(qs: Queues)
    requires qs.Linked()
    ensures qs in qs.repr
  {
  }

  /** Making a node changes no list. */
  twostate lemma SameQueues(qs: Queues)
    requires old(qs.Linked()) && qs.waits == old(qs.waits) && forall l :: l in old(qs.lists) ==> unchanged(l)
    ensures qs.Ready() == old(qs.Ready()) && qs.Waiting() == old(qs.Waiting())
  {
    hide NoDup, IdsOf, List.Valid, Separate, NodesOf;
  }

  lemma NoThreads(l: List)
    requires l.nodes == []
    ensures l.Ids() == []
  {
  }

  twostate lemma MoreLists(lists: set<List>, new l: List)
    requires old(Separate(lists)) && (forall m :: m in lists ==> unchanged(m) && unchanged(m.nodes))
    requires l.Valid() && l.nodes == []
    ensures Separate(lists + {l}) && NodesOf(lists + {l}) <= old(NodesOf(lists))
  {
    forall m | m in lists ensures m.Valid() {
      ValidKept(m);
    }
    forall x | x in NodesOf(lists + {l}) ensures x in old(NodesOf(lists)) {
      var m, i :| m in lists + {l} && 0 <= i < |m.nodes| && x == m.nodes[i];
      assert old(m.nodes[i]) in old(NodesOf(lists));
    }
  }
}
