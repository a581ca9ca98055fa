/** The two linked structures of the file cache (webserver/server_thread.c): the LRU
    list, doubly linked, and the hash chains, singly linked. */
module CacheLists {
  import opened Sequences
  import opened FileCache

  /** struct wordsElement */
  class Entry {
    const file: File
    const key: int
    var refCount: int
    var next: Entry?
    var location: LruNode?

    constructor (f: File, k: int)
      ensures file == f && key == k && refCount == 0 && next == null && location == null
    {
      file, key, refCount, next, location := f, k, 0, null, null;
    }

    /** Memory that is in no table. */
    ghost constructor Spare() {
      file, key, refCount, next, location := File("", []), 0, 0, null, null;
    }
  }

  class LruNode {
    const data: Entry
    var prv: LruNode?
    var next: LruNode?

    constructor (e: Entry)
      ensures data == e && prv == null && next == null
    {
      data, prv, next := e, null, null;
    }
  }

  class LruList {
    var head: LruNode?
    var tail: LruNode?
    ghost var nodes: seq<LruNode>

    /** The pointers spell out `nodes`. */
    ghost predicate Valid()
      reads this, nodes
    {
      && NoDup(nodes)
      && (nodes == [] ==> head == null && tail == null)
      && (nodes != [] ==> head == nodes[0] && tail == nodes[|nodes| - 1] && head.prv == null && tail.next == null)
      && (forall i {:trigger nodes[i].next} :: 0 <= i < |nodes| - 1 ==> nodes[i].next == nodes[i + 1])
      && (forall i {:trigger nodes[i].prv} :: 1 <= i < |nodes| ==> nodes[i].prv == nodes[i - 1])
    }

    constructor ()
      ensures Valid() && nodes == []
    {
      head, tail, nodes := null, null, [];
    }

    /** pushbackLRU */
    method PushBack(n: LruNode)
      requires Valid() && n !in nodes
      modifies this, nodes, n
      ensures Valid() && nodes == old(nodes) + [n]
    {
      NoDupAppend(nodes, n);
      if head == null {
        head := n;
        n.prv := null;
        n.next := null;
        tail := n;
      } else {
        tail.next := n;
        n.prv := tail;
        tail := n;
        tail.next := null;
      }
      nodes := nodes + [n];
    }

    method RemoveHead()
      requires Valid() && nodes != []
      modifies this, nodes
      ensures Valid() && nodes == old(nodes)[1..]
    {
      NoDupTail(nodes);
      assert |nodes| > 1 ==> nodes[0].next == nodes[1];
      head := head.next;
      if head != null {
        head.prv := null;
      } else {
        tail := head;
      }
      nodes := nodes[1..];
    }

    method RemoveTail()
      requires Valid() && |nodes| > 1
      modifies this, nodes
      ensures Valid() && nodes == old(nodes)[..|old(nodes)| - 1]
    {
      assert nodes[|nodes| - 1].prv == nodes[|nodes| - 2];
      NoDupPrefix(nodes);
      tail := tail.prv;
      tail.next := null;
      nodes := nodes[..|nodes| - 1];
    }

    method RemoveMiddle(n: LruNode, ghost k: int)
      requires Valid() && 0 < k < |nodes| - 1 && nodes[k] == n
      modifies this, nodes
      ensures Valid() && nodes == old(nodes)[..k] + old(nodes)[k + 1..]
    {
      NoDupCut(nodes, k);
      assert nodes[k].prv == nodes[k - 1] && nodes[k].next == nodes[k + 1];
      var before := n.prv;
      var after := n.next;
      before.next := after;
      after.prv := before;
      ghost var was := nodes;
      nodes := nodes[..k] + nodes[k + 1..];
      forall i | 0 <= i < |nodes| - 1 ensures nodes[i].next == nodes[i + 1] && nodes[i + 1].prv == nodes[i] {
        assert nodes[i] == if i < k then was[i] else was[i + 1];
        assert nodes[i + 1] == if i + 1 < k then was[i + 1] else was[i + 2];
      }
    }

    /** deleteSwapNode: take the node out, and with a command other than 0 put it at
        the end, where the last node already is. */
    method DeleteSwap(n: LruNode, command: int)
      requires Valid() && n in nodes
      modifies this, nodes
      ensures Valid()
      ensures nodes == Without(old(nodes), n) + if command == 0 then [] else [n]
    {
      hide NoDup, Without;
      ghost var k := PositionOf(nodes, n);
      WithoutMembers(nodes, n);
      if n == head {
        FirstOnly(nodes, k);
        RemoveHead();
        if command != 0 {
          PushBack(n);
        }
      } else if n == tail {
        LastOnly(nodes, k);
        if command == 0 {
          RemoveTail();
        }
      } else {
        RemoveMiddle(n, k);
        if command != 0 {
          PushBack(n);
        }
      }
    }
  }

  lemma PositionOf<T>(ts: seq<T>, t: T) returns (k: int)
    requires t in ts && NoDup(ts)
    ensures 0 <= k < |ts| && ts[k] == t && Without(ts, t) == ts[..k] + ts[k + 1..]
  {
    k :| 0 <= k < |ts| && ts[k] == t;
    WithoutAt(ts, k);
  }

  lemma FirstOnly<T>(ts: seq<T>, k: int)
    requires NoDup(ts) && 0 <= k < |ts| && ts[k] == ts[0]
    ensures k == 0 && ts[..k] + ts[k + 1..] == ts[1..]
  {
  }

  lemma LastOnly<T>(ts: seq<T>, k: int)
    requires NoDup(ts) && 0 <= k < |ts| && ts[k] == ts[|ts| - 1]
    ensures k == |ts| - 1 && ts[..k] + ts[k + 1..] == ts[..|ts| - 1] && ts[..|ts| - 1] + [ts[k]] == ts
  {
  }

  // ------------------------------------------------------------------ hash chains

  /** The pointers from `h` on spell out `es`. */
  ghost predicate Chain(h: Entry?, es: seq<Entry>)
    reads es`next
  {
    if es == [] then h == null
    else
      && h == es[0] && es[|es| - 1].next == null
      && (forall i {:trigger es[i].next} :: 0 <= i < |es| - 1 ==> es[i].next == es[i + 1])
  }

  class HashTable {
    const ht: array<Entry?>
    ghost var chains: seq<seq<Entry>>
    ghost var entries: set<Entry>

    ghost predicate Valid()
      reads this, ht, entries`next
    {
      && ht.Length == |chains|
      && (forall k :: 0 <= k < |chains| ==> NoDup(chains[k]))
      && (forall k, e :: 0 <= k < |chains| && e in chains[k] ==> e in entries && e.key == k)
      && (forall e :: e in entries ==> 0 <= e.key < |chains| && e in chains[e.key])
      && (forall k :: 0 <= k < |chains| ==> Chain(ht[k], chains[k]))
    }

    constructor (size: nat)
      ensures Valid() && fresh(ht) && chains == seq(size, _ => []) && entries == {} && ht.Length == size
    {
      ht := new Entry?[size](_ => null);
      chains, entries := seq(size, _ => []), {};
    }

    /** The walk of cache_insert to the end of a chain. */
    method LastOf(k: int) returns (current: Entry)
      requires Valid() && 0 <= k < ht.Length && ht[k] != null
      ensures chains[k] != [] && current == chains[k][|chains[k]| - 1]
    {
      hide NoDup;
      ghost var es := chains[k];
      assert Chain(ht[k], es);
      current := ht[k];
      ghost var i := 0;
      while current.next != null
        invariant 0 <= i < |es| && current == es[i]
        decreases |es| - i
      {
        current := current.next;
        i := i + 1;
      }
    }

    /** The linking of cache_insert, within one chain. */
    method Hang(e: Entry)
      requires Valid() && e !in entries && e.next == null && 0 <= e.key < ht.Length
      modifies ht, entries`next
      ensures Chain(ht[e.key], chains[e.key] + [e])
      ensures forall k :: 0 <= k < ht.Length && k != e.key ==> ht[k] == old(ht[k])
      ensures forall x :: x in entries && x.key != e.key ==> x.next == old(x.next)
    {
      ghost var es := chains[e.key];
      NoDupApart(es);
      hide NoDup;
      assert Chain(ht[e.key], es);
      if ht[e.key] == null {
        ht[e.key] := e;
      } else {
        var current := LastOf(e.key);
        current.next := e;
      }
    }

    /** cache_insert: append to the chain of the key. */
    method Append(e: Entry)
      requires Valid() && e !in entries && e.next == null && 0 <= e.key < ht.Length
      modifies this, ht, entries`next
      ensures Valid() && entries == old(entries) + {e}
      ensures chains == old(chains)[e.key := old(chains)[e.key] + [e]]
    {
      hide NoDup, Chain;
      ghost var k, es := e.key, chains[e.key];
      NoDupAppend(es, e);
      label Start:
      Hang(e);
      forall j | 0 <= j < |chains| && j != k ensures Chain(ht[j], chains[j]) {
        ChainKept@Start(ht[j], chains[j]);
      }
      chains := chains[k := es + [e]];
      entries := entries + {e};
    }

    /** The walk of deleteHash to the element before the one that goes. */
    method Before(e: Entry, ghost p: int) returns (before: Entry)
      requires Valid() && e in entries && e != ht[e.key] && 0 < p < |chains[e.key]| && chains[e.key][p] == e
      ensures before == chains[e.key][p - 1]
    {
      ghost var es := chains[e.key];
      assert Chain(ht[e.key], es) && NoDup(es);
      before := ht[e.key];
      ghost var i := 0;
      while before.next != e
        invariant 0 <= i < p && before == es[i]
        decreases p - i
      {
        assert es[i].next == es[i + 1];
        before := before.next;
        i := i + 1;
      }
      assert es[i].next == es[i + 1];
    }

    /** The relinking of deleteHash, within one chain. */
    method Cut(e: Entry, ghost p: int)
      requires Valid() && e in entries && 0 <= p < |chains[e.key]| && chains[e.key][p] == e
      modifies ht, entries`next
      ensures Chain(ht[e.key], chains[e.key][..p] + chains[e.key][p + 1..])
      ensures forall k :: 0 <= k < ht.Length && k != e.key ==> ht[k] == old(ht[k])
      ensures forall x :: x in entries && x.key != e.key ==> x.next == old(x.next)
    {
      ghost var es := chains[e.key];
      NoDupApart(es);
      hide NoDup;
      assert Chain(ht[e.key], es);
      if e == ht[e.key] {
        ht[e.key] := e.next;
      } else {
        var before := Before(e, p);
        before.next := e.next;
      }
    }

    /** deleteHash */
    method Delete(e: Entry)
      requires Valid() && e in entries
      modifies this, ht, entries`next
      ensures Valid() && entries == old(entries) - {e}
      ensures chains == old(chains)[e.key := Without(old(chains)[e.key], e)]
    {
      hide Without, NoDup, Chain;
      ghost var k, es := e.key, chains[e.key];
      ghost var p := PositionOf(es, e);
      WithoutMembers(es, e);
      label Start:
      Cut(e, p);
      forall j | 0 <= j < |chains| && j != k ensures Chain(ht[j], chains[j]) {
        ChainKept@Start(ht[j], chains[j]);
      }
      chains := chains[k := es[..p] + es[p + 1..]];
      entries := entries - {e};
    }
  }

  twostate lemma ChainKept(h: Entry?, new es: seq<Entry>)
    requires old(allocated(es)) && old(Chain(h, es)) && forall i :: 0 <= i < |es| ==> es[i].next == old(es[i].next)
    ensures Chain(h, es)
  {
  }

  lemma NoDupApart<T>(ts: seq<T>)
    requires NoDup(ts)
    ensures forall i, j :: 0 <= i < j < |ts| ==> ts[i] != ts[j]
  {
  }
}
