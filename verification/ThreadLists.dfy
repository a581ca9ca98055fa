/** The doubly linked ready list and wait queues of threads/thread.c. Nodes are
    matched by thread identifier; the links represent a sequence of identifiers. */
module ThreadLists {
  import opened Sequences

  class Node {
    const tid: int
    var prv: Node?
    var next: Node?

    constructor (t: int)
      ensures tid == t && prv == null && next == null
    {
      tid, prv, next := t, null, null;
    }
  }

  function IdsOf(nodes: seq<Node>): (ids: seq<int>)
    ensures |ids| == |nodes| && forall i :: 0 <= i < |nodes| ==> ids[i] == nodes[i].tid
  {
    seq(|nodes|, i requires 0 <= i < |nodes| => nodes[i].tid)
  }

  lemma NotListed(nodes: seq<Node>, n: Node)
    requires n.tid !in IdsOf(nodes)
    ensures n !in nodes
  {
    forall i | 0 <= i < |nodes| ensures nodes[i] != n {
      assert IdsOf(nodes)[i] in IdsOf(nodes);
    }
  }

  class List {
    var head: Node?
    var tail: Node?
    ghost var nodes: seq<Node>

    /** The pointers spell out `nodes`, and no thread occurs twice. */
    ghost predicate Valid()
      reads this, nodes
    {
      && (nodes == [] ==> head == null && tail == null)
      && (nodes != [] ==> head == nodes[0] && tail == nodes[|nodes| - 1] && head.prv == null && tail.next == null)
      && (forall i {:trigger nodes[i].next} :: 0 <= i < |nodes| - 1 ==> nodes[i].next == nodes[i + 1])
      && (forall i {:trigger nodes[i].prv} :: 1 <= i < |nodes| ==> nodes[i].prv == nodes[i - 1])
      && NoDup(Ids())
    }

    ghost function Ids(): seq<int>
      reads this
    {
      IdsOf(nodes)
    }

    constructor ()
      ensures Valid() && nodes == [] && Ids() == []
    {
      head, tail, nodes := null, null, [];
    }

    /** pushbackRL: append at the tail. */
    method PushBack(n: Node)
      requires Valid() && n.tid !in Ids()
      modifies this, nodes, n
      ensures Valid() && nodes == old(nodes) + [n] && Ids() == old(Ids()) + [n.tid]
    {
      NotListed(nodes, n);
      NoDupAppend(Ids(), n.tid);
      if head == null {
        head := n;
        n.prv := null;
        n.next := null;
        tail := n;
      } else {
        tail.next := n;
        n.prv := tail;
        tail := n;
        n.next := null;
      }
      nodes := nodes + [n];
      assert Ids() == old(Ids()) + [n.tid];
    }

    /** The walk of pushbackWQ to the last node. */
    method Last() returns (iter: Node)
      requires Valid() && head != null
      ensures nodes != [] && iter == nodes[|nodes| - 1]
    {
      iter := head;
      ghost var i := 0;
      while iter.next != null
        invariant 0 <= i < |nodes| && iter == nodes[i]
        decreases |nodes| - i
      {
        iter := iter.next;
        i := i + 1;
      }
      assert nodes[i].next == null;
    }

    /** pushbackWQ: walk to the last node and link the new one behind it. */
    method PushBackByWalking(n: Node)
      requires Valid() && n.tid !in Ids()
      modifies this, nodes, n
      ensures Valid() && nodes == old(nodes) + [n] && Ids() == old(Ids()) + [n.tid]
    {
      hide NoDup, IdsOf;
      NotListed(nodes, n);
      NoDupAppend(Ids(), n.tid);
      IdsAppend(nodes, n);
      ghost var was := nodes;
      if head == null {
        head := n;
        head.prv := null;
        head.next := null;
        tail := head;
      } else {
        var iter := Last();
        iter.next := n;
        n.prv := iter;
        iter := iter.next;
        iter.next := null;
        tail := iter;
      }
      nodes := was + [n];
    }

    /** The search of thread_yield: the node of a thread, or null. */
    method Find(t: int) returns (n: Node?)
      requires Valid()
      ensures n == null <==> t !in Ids()
      ensures n != null ==> n in nodes && n.tid == t
    {
      n := head;
      ghost var i := 0;
      while n != null
        invariant 0 <= i <= |nodes| && (i < |nodes| ==> n == nodes[i]) && (i == |nodes| ==> n == null)
        invariant forall j :: 0 <= j < i ==> Ids()[j] != t
        decreases |nodes| - i
      {
        if n.tid == t {
          assert Ids()[i] == t;
          return;
        }
        n := n.next;
        i := i + 1;
      }
    }

    /** Remove the first node. */
    method PopHead()
      requires Valid() && nodes != []
      modifies this, nodes
      ensures Valid() && nodes == old(nodes)[1..] && Ids() == old(Ids())[1..]
    {
      NoDupTail(Ids());
      NoDupIsDistinct(nodes);
      assert |nodes| > 1 ==> nodes[0].next == nodes[1];
      head := head.next;
      if head != null {
        head.prv := null;
      } else {
        tail := head;
      }
      nodes := nodes[1..];
      assert Ids() == old(Ids())[1..];
    }

    /** Remove the last of several nodes. */
    method PopTail()
      requires Valid() && |nodes| > 1
      modifies this, nodes
      ensures Valid() && nodes == old(nodes)[..|old(nodes)| - 1] && Ids() == old(Ids())[..|old(Ids())| - 1]
    {
      assert nodes[|nodes| - 1].prv == nodes[|nodes| - 2];
      NoDupIsDistinct(nodes);
      NoDupPrefix(Ids());
      tail := tail.prv;
      tail.next := null;
      nodes := nodes[..|nodes| - 1];
      assert Ids() == old(Ids())[..|old(Ids())| - 1];
    }

    /** Unlink an inner node. */
    method Unlink(n: Node, ghost k: int)
      requires Valid() && 0 < k < |nodes| - 1 && nodes[k] == n
      modifies this, nodes
      ensures Valid() && nodes == old(nodes)[..k] + old(nodes)[k + 1..]
      ensures Ids() == old(Ids())[..k] + old(Ids())[k + 1..]
    {
      hide NoDup, IdsOf;
      NoDupIsDistinct(nodes);
      NoDupCut(Ids(), k);
      assert nodes[k].prv == nodes[k - 1] && nodes[k].next == nodes[k + 1];
      var before := n.prv;
      var after := n.next;
      before.next := after;
      after.prv := before;
      ghost var was := nodes;
      nodes := nodes[..k] + nodes[k + 1..];
      IdsOfCut(was, k);
      forall i | 0 <= i < |nodes| - 1 ensures nodes[i].next == nodes[i + 1] && nodes[i + 1].prv == nodes[i] {
        assert nodes[i] == if i < k then was[i] else was[i + 1];
        assert nodes[i + 1] == if i + 1 < k then was[i + 1] else was[i + 2];
      }
    }
  }

  lemma IdsAppend(nodes: seq<Node>, n: Node)
    ensures IdsOf(nodes + [n]) == IdsOf(nodes) + [n.tid]
  {
  }

  lemma IdsOfCut(nodes: seq<Node>, k: int)
    requires 0 <= k < |nodes|
    ensures IdsOf(nodes[..k] + nodes[k + 1..]) == IdsOf(nodes)[..k] + IdsOf(nodes)[k + 1..]
  {
  }

  lemma NoDupIsDistinct(nodes: seq<Node>)
    requires NoDup(IdsOf(nodes))
    ensures forall i, j :: 0 <= i < j < |nodes| ==> nodes[i] != nodes[j]
  {
    forall i, j | 0 <= i < j < |nodes| ensures nodes[i] != nodes[j] {
      assert IdsOf(nodes)[i] != IdsOf(nodes)[j];
    }
  }

  /** The position of a node is found by its identifier. */
  lemma Placed(nodes: seq<Node>, n: Node) returns (k: int)
    requires n in nodes && NoDup(IdsOf(nodes))
    ensures 0 <= k < |nodes| && nodes[k] == n && n.tid in IdsOf(nodes)
    ensures forall i :: 0 <= i < |nodes| && nodes[i].tid == n.tid ==> i == k
    ensures Without(IdsOf(nodes), n.tid) == IdsOf(nodes)[..k] + IdsOf(nodes)[k + 1..]
  {
    k :| 0 <= k < |nodes| && nodes[k] == n;
    assert IdsOf(nodes)[k] == n.tid;
    WithoutAt(IdsOf(nodes), k);
    forall i | 0 <= i < |nodes| && nodes[i].tid == n.tid ensures i == k {
      assert IdsOf(nodes)[i] == IdsOf(nodes)[k];
    }
  }

  /** deleteNode: the branch is chosen by comparing identifiers with the head's and
      the tail's, and the node of that thread is the one that goes. */
  method DeleteNode(list: List, n: Node)
    requires list.Valid() && n in list.nodes
    modifies list, list.nodes
    ensures list.Valid() && list.Ids() == Without(old(list.Ids()), n.tid)
    ensures forall x :: x in list.nodes ==> x in old(list.nodes)
  {
    hide NoDup, Without;
    ghost var k := Placed(list.nodes, n);
    if n.tid == list.head.tid {
      assert k == 0;
      list.PopHead();
    } else if n.tid == list.tail.tid {
      assert k == |list.nodes| - 1;
      list.PopTail();
    } else {
      list.Unlink(n, k);
    }
  }

  // --------------------------------------------------------------- several lists

  ghost function NodesOf(lists: set<List>): (nodes: set<Node>)
    reads lists
    ensures forall l, i :: l in lists && 0 <= i < |l.nodes| ==> l.nodes[i] in nodes
  {
    set l, i | l in lists && 0 <= i < |l.nodes| :: l.nodes[i]
  }

  /** Every list is well linked and no node is in two of them. */
  ghost predicate Separate(lists: set<List>)
    reads lists, NodesOf(lists)
  {
    && (forall l :: l in lists ==> assert forall i :: 0 <= i < |l.nodes| ==> l.nodes[i] in NodesOf(lists); l.Valid())
    && (forall l, m, n :: l in lists && m in lists && l != m && n in l.nodes ==> n !in m.nodes)
  }

  twostate lemma ValidKept(list: List)
    requires old(list.Valid()) && unchanged(list) && unchanged(list.nodes)
    ensures list.Valid()
  {
  }

  lemma IndicesApart(a: seq<Node>, b: seq<Node>)
    requires forall x :: x in b ==> x !in a
    ensures forall i, j :: 0 <= i < |a| && 0 <= j < |b| ==> a[i] != b[j]
  {
    forall i, j | 0 <= i < |a| && 0 <= j < |b| ensures a[i] != b[j] {
      assert b[j] in b && a[i] in a;
    }
  }

  lemma SeparateFacts(lists: set<List>, l: List)
    requires Separate(lists) && l in lists
    ensures l.Valid()
    ensures forall m :: m in lists && m != l ==>
              forall i, j :: 0 <= i < |l.nodes| && 0 <= j < |m.nodes| ==> l.nodes[i] != m.nodes[j]
  {
    forall m | m in lists && m != l
      ensures forall i, j :: 0 <= i < |l.nodes| && 0 <= j < |m.nodes| ==> l.nodes[i] != m.nodes[j]
    {
      IndicesApart(l.nodes, m.nodes);
    }
  }

  /** Append a node to one of the lists; `walking` is pushbackWQ. */
  method AppendTo(ghost lists: set<List>, l: List, n: Node, walking: bool)
    requires Separate(lists) && l in lists && n.tid !in l.Ids() && n !in NodesOf(lists)
    modifies l, l.nodes, n
    ensures Separate(lists) && l.Ids() == old(l.Ids()) + [n.tid]
    ensures NodesOf(lists) <= old(NodesOf(lists)) + {n} && l.nodes == old(l.nodes) + [n]
  {
    hide NoDup, IdsOf, List.Valid, Separate;
    SeparateFacts(lists, l);
    label Start:
    if walking {
      l.PushBackByWalking(n);
    } else {
      l.PushBack(n);
    }
    StillSeparate@Start(lists, l, n);
    NodesChange@Start(lists, l);
  }

  /** deleteNode on one of the lists. */
  method DeleteFrom(ghost lists: set<List>, l: List, n: Node)
    requires Separate(lists) && l in lists && n in l.nodes
    modifies l, l.nodes
    ensures Separate(lists) && l.Ids() == Without(old(l.Ids()), n.tid)
    ensures NodesOf(lists) <= old(NodesOf(lists))
  {
    hide NoDup, IdsOf, List.Valid, Separate, Without, NodesOf;
    SeparateFacts(lists, l);
    label Start:
    DeleteNode(l, n);
    StillSeparate@Start(lists, l, null);
    NodesChange@Start(lists, l);
  }

  /** deleteNodewq and deleteNode at the head of one of the lists. */
  method DeleteHead(ghost lists: set<List>, l: List) returns (t: int)
    requires Separate(lists) && l in lists && l.Ids() != []
    modifies l, l.nodes
    ensures Separate(lists) && t == old(l.Ids())[0] && l.Ids() == old(l.Ids())[1..]
    ensures NodesOf(lists) <= old(NodesOf(lists))
  {
    hide NoDup, List.Valid, Separate, NodesOf;
    SeparateFacts(lists, l);
    HeadIsListed(l);
    label Start:
    t := l.head.tid;
    l.PopHead();
    StillSeparate@Start(lists, l, null);
    NodesChange@Start(lists, l);
  }

  lemma HeadIsListed(list: List)
    requires list.Valid()
    ensures list.head == null <==> list.nodes == []
    ensures list.nodes != [] ==> list.head == list.nodes[0] && list.Ids()[0] == list.head.tid
  {
  }

  /** Nodes come and go through the list that was touched. */
  twostate lemma NodesChange(lists: set<List>, new l: List)
    requires l in lists && forall m :: m in lists && m != l ==> unchanged(m)
    ensures forall x :: x in NodesOf(lists) ==> x in old(NodesOf(lists)) || x in l.nodes
    ensures (forall x :: x in l.nodes ==> x in old(l.nodes)) ==> NodesOf(lists) <= old(NodesOf(lists))
  {
    forall x | x in NodesOf(lists) ensures x in old(NodesOf(lists)) || x in l.nodes {
      var m, i :| m in lists && 0 <= i < |m.nodes| && x == m.nodes[i];
      assert m != l ==> old(m.nodes[i]) in old(NodesOf(lists));
    }
    forall x | x in l.nodes && x in old(l.nodes) ensures x in old(NodesOf(lists)) {
      var i :| 0 <= i < |old(l.nodes)| && old(l.nodes)[i] == x;
    }
  }

  twostate lemma StillSeparate(lists: set<List>, new l: List, new n: Node?)
    requires old(Separate(lists)) && l in lists && l.Valid()
    requires forall m :: m in lists && m != l ==> unchanged(m) && unchanged(m.nodes)
    requires forall x :: x in l.nodes ==> x in old(l.nodes) || (x == n && n !in old(NodesOf(lists)))
    ensures Separate(lists)
  {
    forall m | m in lists && m != l ensures m.Valid() {
      ValidKept(m);
    }
  }
}
