/** The cache operations of webserver/server_thread.c on their linked structures.
    Each does to the pointers what its namesake in FileCache does to the value. */
module ServerCache {
  import opened Sequences
  import opened FileCache
  import opened CacheLists

  function Datas(nodes: seq<LruNode>): (es: seq<Entry>)
    ensures |es| == |nodes| && forall i :: 0 <= i < |nodes| ==> es[i] == nodes[i].data
  {
    seq(|nodes|, i requires 0 <= i < |nodes| => nodes[i].data)
  }

  class Server {
    const max: int
    const table: HashTable
    const lq: LruList
    var currentSize: int

    /** Entries and list nodes point at each other. */
    ghost predicate Linked()
      reads this, table, lq, table.entries`location
    {
      && (forall n :: n in lq.nodes ==> n.data in table.entries && n.data.location == n)
      && (forall e :: e in table.entries ==> e.location in lq.nodes && e.location.data == e)
    }

    ghost function Value(): Cache<Entry>
      reads this, table, lq, table.entries`refCount
    {
      Cache(max, table.chains, Datas(lq.nodes),
            map e | e in table.entries :: Element(e.file, e.key, e.refCount), currentSize)
    }

    ghost predicate Valid()
      reads this, table, table.ht, table.entries, lq, lq.nodes
    {
      table.Valid() && lq.Valid() && Linked() && Coherent(Value())
    }

    /** server_init */
    constructor (max_cache_size: int)
      requires max_cache_size > 0
      ensures Valid() && Value() == Cache(max_cache_size, seq(max_cache_size, _ => []), [], map[], 0)
      ensures fresh(table) && fresh(table.ht) && fresh(lq) && table.entries == {} && lq.nodes == []
    {
      max, currentSize := max_cache_size, 0;
      table := new HashTable(max_cache_size);
      lq := new LruList();
      new;
      assert Value().chains == seq(max_cache_size, _ => []);
    }

    /** cache_lookup: the loop goes down the chain but always compares the head. */
    method CacheLookup(name: string) returns (found: Entry?)
      requires Valid()
      ensures Shaped(Value())
      ensures found == null <==> Lookup(Value(), name).None?
      ensures found != null ==> Lookup(Value(), name).value == found && found in table.entries && found.file.name == name
    {
      hide Hash, NoDup;
      var k := Bucket(name, max);
      ghost var es := table.chains[k];
      assert Chain(table.ht[k], es);
      assert forall e :: e in es ==> e in table.entries;
      var iter := table.ht[k];
      if iter == null {
        return null;
      }
      ghost var i := 0;
      while iter != null
        invariant 0 <= i <= |es| && (iter == if i < |es| then es[i] else null)
        invariant i > 0 ==> es[0].file.name != name
        decreases |es| - i
      {
        if table.ht[k].file.name == name {
          return iter;
        }
        assert i < |es| - 1 ==> es[i].next == es[i + 1];
        iter := iter.next;
        i := i + 1;
      }
      return null;
    }

    method AddToTable(file: File) returns (e: Entry)
      requires table.Valid() && max > 0 && table.ht.Length == max
      modifies this, table, table.ht, table.entries`next
      ensures table.Valid() && fresh(e) && table.entries == old(table.entries) + {e}
      ensures e.file == file && e.key == Bucket(file.name, max) && e.refCount == 0
      ensures e.key < |old(table.chains)| && table.chains == old(table.chains)[e.key := old(table.chains)[e.key] + [e]]
      ensures currentSize == old(currentSize) + |file.contents|
    {
      hide Bucket, NoDup, HashTable.Valid;
      TableLength(table);
      label Start:
      currentSize := currentSize + |file.contents|;
      e := new Entry(file, Bucket(file.name, max));
      TableKept@Start(table);
      table.Append(e);
    }

    method AddToList(e: Entry) returns (n: LruNode)
      requires lq.Valid()
      modifies e`location, lq, lq.nodes
      ensures lq.Valid() && fresh(n) && lq.nodes == old(lq.nodes) + [n] && n.data == e && e.location == n
    {
      hide NoDup, LruList.Valid;
      label Start:
      n := new LruNode(e);
      e.location := n;
      LruKept@Start(lq);
      lq.PushBack(n);
    }

    /** cache_insert, with the charge to currentSize that precedes it */
    method CacheInsert(file: File) returns (e: Entry)
      requires Valid()
      modifies this, table, table.ht, table.entries`next, lq, lq.nodes
      ensures Valid() && fresh(e) && table.entries == old(table.entries) + {e}
      ensures old(Shaped(Value())) && Value() == Insert(old(Value()), e, file)
      ensures forall i :: 0 <= i < |lq.nodes| ==> lq.nodes[i] in old(lq.nodes) || fresh(lq.nodes[i])
    {
      hide Bucket, NoDup, Coherent, Shaped, Insert, HashTable.Valid, LruList.Valid, Linked, Value, Datas;
      ValueFacts(this);
      label Start:
      e := AddToTable(file);
      LruKept@Start(lq);
      label Middle:
      var n := AddToList(e);
      TableKept@Middle(table);
      Grown@Start(this, e, n, file);
    }

    /** refCount++ and the move to the end of the list */
    method Acquire(e: Entry)
      requires Valid() && e in table.entries
      modifies e`refCount, lq, lq.nodes
      ensures Valid() && Value() == Pin(old(Value()), e)
      ensures forall i :: 0 <= i < |lq.nodes| ==> lq.nodes[i] in old(lq.nodes)
    {
      hide NoDup, Coherent, Pin, HashTable.Valid, LruList.Valid, Linked, Value, Datas, Without;
      Located(this, e);
      label Start:
      e.refCount := e.refCount + 1;
      LruKept@Start(lq);
      var n: LruNode := e.location;
      lq.DeleteSwap(n, 1);
      TableKept@Start(table);
      Moved@Start(this, e, n);
    }

    /** The first critical section of do_server_request: a hit is pinned. */
    method Begin(name: string) returns (check: Entry?)
      requires Valid()
      modifies table.entries`refCount, lq, lq.nodes
      ensures Valid() && table.entries == old(table.entries)
      ensures forall i :: 0 <= i < |lq.nodes| ==> lq.nodes[i] in old(lq.nodes)
      ensures old(Shaped(Value()))
      ensures check == null ==> old(Lookup(Value(), name)).None? && Value() == old(Value())
      ensures check != null ==>
                && old(Lookup(Value(), name)).Some? && old(Lookup(Value(), name)).value == check && check in old(Value().elems)
                && Value() == Pin(old(Value()), check)
    {
      hide NoDup, Coherent, Shaped, Pin, HashTable.Valid, LruList.Valid, Linked, Datas, Lookup;
      check := CacheLookup(name);
      if check != null {
        Acquire(check);
      }
    }

    /** refCount-- after the file was sent */
    method Release(e: Entry)
      requires Valid() && e in table.entries
      modifies e`refCount
      ensures Valid() && Value() == Unpin(old(Value()), e)
    {
      hide NoDup, Coherent, Unpin, HashTable.Valid, LruList.Valid, Linked, Value, Datas;
      label Start:
      e.refCount := e.refCount - 1;
      LruKept@Start(lq);
      TableKept@Start(table);
      Lowered@Start(this, e);
    }

    /** The walk of cache_evict: the first node whose element is not in use. */
    method FindVictim() returns (node: LruNode?)
      requires Valid()
      ensures forall e :: e in Value().lru ==> e in Value().elems
      ensures node == null <==> Victim(Value().lru, Value().elems).None?
      ensures node != null ==> node in lq.nodes && Victim(Value().lru, Value().elems) == Some(node.data)
    {
      hide Coherent, NoDup, HashTable.Valid, Victim;
      ValueFacts(this);
      node := lq.head;
      ghost var i := 0;
      ghost var es, elems := Value().lru, Value().elems;
      assert es[0..] == es;
      while node != null
        invariant 0 <= i <= |lq.nodes| && (node == if i < |lq.nodes| then lq.nodes[i] else null)
        invariant Victim(es[i..], elems) == Victim(es, elems)
        decreases |lq.nodes| - i
      {
        VictimStep(es, elems, i);
        if node.data.refCount != 0 {
          assert i < |lq.nodes| - 1 ==> lq.nodes[i].next == lq.nodes[i + 1];
          node := node.next;
          i := i + 1;
        } else {
          return;
        }
      }
      VictimEnd(elems);
    }

    /** Take an element out of the chains and its node out of the list. */
    method Drop(node: LruNode)
      requires Valid() && node in lq.nodes
      modifies this, table, table.ht, table.entries`next, lq, lq.nodes
      ensures Valid()
      ensures old(Shaped(Value())) && node.data in old(Value().elems) && Value() == Remove(old(Value()), node.data)
      ensures table.entries == old(table.entries) - {node.data} && forall i :: 0 <= i < |lq.nodes| ==> lq.nodes[i] in old(lq.nodes)
    {
      hide NoDup, Coherent, Shaped, Remove, HashTable.Valid, LruList.Valid, Linked, Value, Datas, Without;
      ValueFacts(this);
      HasEntry(this, node);
      var e := node.data;
      label Start:
      currentSize := currentSize - |e.file.contents|;
      TableKept@Start(table);
      table.Delete(e);
      LruKept@Start(lq);
      label Middle:
      lq.DeleteSwap(node, 0);
      TableKept@Middle(table);
      WithoutSubset@Start(this, node);
      Shrunk@Start(this, node);
    }

    /** cache_evict */
    method CacheEvict(amount: int) returns (evicted: bool)
      requires Valid()
      modifies this, table, table.ht, table.entries`next, lq, lq.nodes
      ensures old(Shaped(Value())) && (evicted <==> Evict(old(Value()), amount).Some?)
      ensures evicted <==>
                exists i :: FirstUnused(old(Value()), i) && amount <= |old(Value()).elems[old(Value()).lru[i]].file.contents|
      ensures forall i :: evicted && FirstUnused(old(Value()), i) ==> Value() == Remove(old(Value()), old(Value()).lru[i])
      ensures Valid() && Value() == if evicted then Evict(old(Value()), amount).value else old(Value())
      ensures table.entries <= old(table.entries) && forall i :: 0 <= i < |lq.nodes| ==> lq.nodes[i] in old(lq.nodes)
    {
      hide NoDup, Coherent, Shaped, Remove, HashTable.Valid, LruList.Valid, Linked, Value, Datas, Victim;
      ValueFacts(this);
      EvictExactly(Value(), amount);
      var node := FindVictim();
      evicted := false;
      if node == null {
        return;
      }
      SizeOf(this, node);
      if amount <= |node.data.file.contents| {
        Drop(node);
        evicted := true;
      }
    }

    /** Insert a file that is not cached, after evicting one element if it does not fit. */
    method MakeRoom(file: File) returns (check: Entry?)
      requires Valid()
      modifies this, table, table.ht, table.entries`next, lq, lq.nodes
      ensures Valid() && old(Coherent(Value()))
      ensures forall x :: x in table.entries ==> x in old(table.entries) || fresh(x)
      ensures forall i :: 0 <= i < |lq.nodes| ==> lq.nodes[i] in old(lq.nodes) || fresh(lq.nodes[i])
      ensures old(Shaped(Value())) && (check == null <==> !HasRoomFor(old(Value()), |file.contents|))
      ensures check == null ==> Value() == old(Value()) && forall id :: Admit(old(Value()), id, file).None?
      ensures check != null ==> check in table.entries && fresh(check) && Admit(old(Value()), check, file) == Some(Value())
    {
      hide NoDup, Coherent, Shaped, Remove, Insert, HashTable.Valid, LruList.Valid, Linked, Datas, Victim, Evict, HasRoomFor, FirstUnused;
      ValueFacts(this);
      RoomByEvicting(Value(), |file.contents|);
      if currentSize + |file.contents| <= max {
        check := CacheInsert(file);
      } else {
        var amount := max - currentSize;
        amount := |file.contents| - amount;
        var evicted := CacheEvict(amount);
        if evicted {
          check := CacheInsert(file);
        } else {
          check := null;
        }
      }
    }

    /** The second critical section of do_server_request: the element that will be
        sent, pinned, or null if the cache refuses the file. */
    method Enter(file: File) returns (check: Entry?)
      requires Valid()
      modifies this, table, table.ht, table.entries, lq, lq.nodes
      ensures Valid() && old(Coherent(Value())) && old(Shaped(Value()))
      ensures forall x :: x in table.entries ==> x in old(table.entries) || fresh(x)
      ensures forall i :: 0 <= i < |lq.nodes| ==> lq.nodes[i] in old(lq.nodes) || fresh(lq.nodes[i])
      ensures old(Lookup(Value(), file.name)).Some? ==>
                && check != null && old(Lookup(Value(), file.name)).value == check
                && check in old(Value().elems) && Value() == Pin(old(Value()), check)
      ensures old(Lookup(Value(), file.name)).None? ==>
                (check == null <==> !HasRoomFor(old(Value()), |file.contents|))
      ensures old(Lookup(Value(), file.name)).None? ==>
                if check == null then Value() == old(Value()) && forall id :: Admit(old(Value()), id, file).None?
                else
                  && fresh(check) && Admit(old(Value()), check, file).Some?
                  && check in Admit(old(Value()), check, file).value.elems
                  && Value() == Pin(Admit(old(Value()), check, file).value, check)
    {
      hide NoDup, Coherent, Shaped, Admit, Pin, HashTable.Valid, LruList.Valid, Linked, Value, Datas, Lookup;
      ValueFacts(this);
      check := CacheLookup(file.name);
      if check == null {
        check := MakeRoom(file);
        if check != null {
          ValueFacts(this);
        }
      }
      if check != null {
        Acquire(check);
      }
    }
  }

  twostate lemma Grown(s: Server, new e: Entry, new n: LruNode, new file: File)
    requires old(s.Linked()) && old(Coherent(s.Value())) && e !in old(s.table.entries)
    requires s.table.entries == old(s.table.entries) + {e} && s.lq.nodes == old(s.lq.nodes) + [n]
    requires e.location == n && n.data == e && e.file == file && e.key == Bucket(file.name, s.max) && e.refCount == 0
    requires forall x :: x in old(s.table.entries) ==> x.location == old(x.location) && x.refCount == old(x.refCount)
    requires s.table.chains == old(s.table.chains)[e.key := old(s.table.chains)[e.key] + [e]]
    requires s.currentSize == old(s.currentSize) + |file.contents|
    ensures s.Linked() && Coherent(s.Value()) && s.Value() == Insert(old(s.Value()), e, file)
  {
    LinkedPlus(s, e, n);
    ValuePlus(s, e, n, file);
    InsertCoherent(old(s.Value()), e, file);
  }

  /** The new entry and its node point at each other; the others still do. */
  twostate lemma LinkedPlus(s: Server, new e: Entry, new n: LruNode)
    requires old(s.Linked())
    requires s.table.entries == old(s.table.entries) + {e} && s.lq.nodes == old(s.lq.nodes) + [n]
    requires e.location == n && n.data == e && forall x :: x in old(s.table.entries) ==> x.location == old(x.location)
    requires e !in old(s.table.entries)
    ensures s.Linked()
  {
  }

  twostate lemma ValuePlus(s: Server, new e: Entry, new n: LruNode, new file: File)
    requires old(Shaped(s.Value())) && e !in old(s.table.entries)
    requires s.table.entries == old(s.table.entries) + {e} && s.lq.nodes == old(s.lq.nodes) + [n]
    requires n.data == e && e.file == file && e.key == Bucket(file.name, s.max) && e.refCount == 0
    requires forall x :: x in old(s.table.entries) ==> x.refCount == old(x.refCount)
    requires s.table.chains == old(s.table.chains)[e.key := old(s.table.chains)[e.key] + [e]]
    requires s.currentSize == old(s.currentSize) + |file.contents|
    ensures s.Value() == Insert(old(s.Value()), e, file)
  {
    hide Bucket;
    assert s.Value().elems == old(s.Value()).elems[e := Element(file, Bucket(file.name, s.max), 0)];
    assert s.Value().lru == old(s.Value()).lru + [e];
  }

  lemma TableLength(table: HashTable)
    requires table.Valid()
    ensures table.ht.Length == |table.chains|
  {
  }

  twostate lemma TableKept(table: HashTable)
    requires old(table.Valid()) && unchanged(table) && unchanged(table.ht) && unchanged(table.entries`next)
    ensures table.Valid()
  {
  }

  twostate lemma LruKept(lq: LruList)
    requires old(lq.Valid()) && unchanged(lq) && unchanged(lq.nodes)
    ensures lq.Valid()
  {
  }

  lemma ValueFacts(s: Server)
    requires Coherent(s.Value()) && s.table.Valid()
    ensures Shaped(s.Value()) && s.max > 0 && s.table.ht.Length == s.max == |s.table.chains|
    ensures s.Value().elems.Keys == s.table.entries
  {
  }

  lemma Located(s: Server, e: Entry)
    requires s.Valid() && e in s.table.entries
    ensures e.location != null && e.location in s.lq.nodes && e.location.data == e
  {
  }

  lemma HasEntry(s: Server, node: LruNode)
    requires s.Valid() && node in s.lq.nodes
    ensures node.data in s.table.entries
  {
  }

  lemma SizeOf(s: Server, node: LruNode)
    requires s.Valid() && node in s.lq.nodes
    ensures node.data in s.Value().elems && s.Value().elems[node.data].file == node.data.file
  {
  }

  lemma VictimStep(es: seq<Entry>, elems: map<Entry, Element>, i: int)
    requires 0 <= i < |es| && forall e :: e in es ==> e in elems
    ensures Victim(es[i..], elems) == if elems[es[i]].refCount == 0 then Some(es[i]) else Victim(es[i + 1..], elems)
  {
    assert es[i..][1..] == es[i + 1..];
  }

  lemma VictimEnd(elems: map<Entry, Element>)
    ensures Victim([], elems) == None
  {
  }

  /** Taking out a node takes out its element. */
  lemma DatasWithout(nodes: seq<LruNode>, n: LruNode)
    requires NoDup(nodes) && n in nodes
    requires forall i, j :: 0 <= i < j < |nodes| ==> nodes[i].data != nodes[j].data
    ensures NoDup(Datas(nodes)) && n.data in Datas(nodes)
    ensures Datas(Without(nodes, n)) == Without(Datas(nodes), n.data)
  {
    hide Without;
    var k := PositionOf(nodes, n);
    assert Datas(nodes)[k] == n.data;
    WithoutAt(Datas(nodes), k);
    assert Datas(nodes[..k] + nodes[k + 1..]) == Datas(nodes)[..k] + Datas(nodes)[k + 1..];
  }

  twostate lemma Moved(s: Server, new e: Entry, new n: LruNode)
    requires old(s.Valid()) && e in old(s.table.entries) && s.table.entries == old(s.table.entries)
    requires s.table.chains == old(s.table.chains) && s.currentSize == old(s.currentSize)
    requires forall x :: x in s.table.entries ==> x.location == old(x.location)
    requires forall x :: x in s.table.entries ==> x.refCount == old(x.refCount) + if x == e then 1 else 0
    requires e.location == n && s.lq.nodes == Without(old(s.lq.nodes), n) + [n]
    ensures s.Linked() && Coherent(s.Value()) && s.Value() == Pin(old(s.Value()), e)
    ensures forall i :: 0 <= i < |s.lq.nodes| ==> s.lq.nodes[i] in old(s.lq.nodes)
  {
    hide Coherent, HashTable.Valid, Without;
    ghost var nodes := old(s.lq.nodes);
    assert NoDup(nodes);
    WithoutMembers(nodes, n);
    assert s.Linked();
    NodesApart(s);
    DatasWithout(nodes, n);
    assert Datas(Without(nodes, n) + [n]) == Datas(Without(nodes, n)) + [e];
    assert s.Value().elems == old(s.Value()).elems[e := Element(e.file, e.key, e.refCount)];
    PinCoherent(old(s.Value()), e);
    forall i | 0 <= i < |s.lq.nodes| ensures s.lq.nodes[i] in old(s.lq.nodes) {
      assert s.lq.nodes[i] in s.lq.nodes;
    }
  }

  twostate lemma NodesApart(s: Server)
    requires old(s.Linked()) && NoDup(old(s.lq.nodes))
    ensures var nodes := old(s.lq.nodes); forall i, j :: 0 <= i < j < |nodes| ==> nodes[i].data != nodes[j].data
  {
    ghost var nodes := old(s.lq.nodes);
    forall i, j | 0 <= i < j < |nodes| ensures nodes[i].data != nodes[j].data {
      assert old(nodes[i].data.location) == nodes[i] && old(nodes[j].data.location) == nodes[j];
    }
  }

  twostate lemma WithoutSubset(s: Server, new node: LruNode)
    requires old(s.lq.Valid()) && s.lq.nodes == Without(old(s.lq.nodes), node)
    ensures forall i :: 0 <= i < |s.lq.nodes| ==> s.lq.nodes[i] in old(s.lq.nodes)
  {
    WithoutMembers(old(s.lq.nodes), node);
    forall i | 0 <= i < |s.lq.nodes| ensures s.lq.nodes[i] in old(s.lq.nodes) {
      assert s.lq.nodes[i] in s.lq.nodes;
    }
  }

  twostate lemma Lowered(s: Server, new e: Entry)
    requires old(s.Valid()) && e in old(s.table.entries) && s.table.entries == old(s.table.entries)
    requires s.table.chains == old(s.table.chains) && s.currentSize == old(s.currentSize) && s.lq.nodes == old(s.lq.nodes)
    requires forall x :: x in s.table.entries ==> x.location == old(x.location)
    requires forall x :: x in s.table.entries ==> x.refCount == old(x.refCount) - if x == e then 1 else 0
    ensures s.Linked() && Coherent(s.Value()) && s.Value() == Unpin(old(s.Value()), e)
  {
    hide Coherent, HashTable.Valid;
    assert s.Value().elems == old(s.Value()).elems[e := Element(e.file, e.key, e.refCount)];
    UnpinCoherent(old(s.Value()), e);
  }

  twostate lemma Shrunk(s: Server, new node: LruNode)
    requires old(s.Valid()) && old(Shaped(s.Value())) && node in old(s.lq.nodes) && node.data in old(s.table.entries)
    requires s.table.entries == old(s.table.entries) - {node.data} && 0 <= node.data.key < |old(s.table.chains)|
    requires s.table.chains == old(s.table.chains)[node.data.key := Without(old(s.table.chains)[node.data.key], node.data)]
    requires s.currentSize == old(s.currentSize) - |node.data.file.contents|
    requires forall x :: x in s.table.entries ==> x.location == old(x.location) && x.refCount == old(x.refCount)
    requires s.lq.nodes == Without(old(s.lq.nodes), node)
    ensures s.Linked() && Coherent(s.Value()) && s.Value() == Remove(old(s.Value()), node.data)
  {
    hide Coherent, HashTable.Valid, Without;
    ghost var nodes := old(s.lq.nodes);
    assert NoDup(nodes);
    WithoutMembers(nodes, node);
    NodesApart(s);
    DatasWithout(nodes, node);
    assert s.Linked();
    assert s.Value().elems == old(s.Value()).elems - {node.data};
    RemoveCoherent(old(s.Value()), node.data);
  }
}
