/** The file cache of the web server (webserver/server_thread.c) as a value: hash
    chains and an LRU list over the same elements, with pin counts and a budget.
    `Id` stands for the address of an element; addresses may be reused. */
module FileCache {
  import opened Words
  import opened Sequences

  datatype Option<T> = None | Some(value: T)

  datatype File = File(name: string, contents: seq<byte>)

  datatype Element = Element(file: File, key: int, refCount: int)

  datatype Cache<Id> = Cache(
    max: int,
    chains: seq<seq<Id>>,
    lru: seq<Id>,
    elems: map<Id, Element>,
    currentSize: int)

  // ------------------------------------------------------------- the bucket index

  /** A byte of a name as a C char, which is signed on the target. */
  function SignedChar(c: char): int {
    var b := c as int % 256;
    if b < 128 then b else b - 256
  }

  function HashFrom(h: int, name: string): int
    decreases |name|
  {
    if name == "" then h else HashFrom(Int32(33 * h + SignedChar(name[0])), name[1..])
  }

  function Hash(name: string): int {
    HashFrom(5381, name)
  }

  /** The hash in unbounded integers: 33 times the hash of what comes before, plus the byte. */
  function Djb2(name: string): int {
    if name == "" then 5381 else 33 * Djb2(name[..|name| - 1]) + SignedChar(name[|name| - 1])
  }

  /** Wrapping around at every byte comes to wrapping around once, at the end. */
  lemma {:induction false} HashIsDjb2(name: string)
    ensures Hash(name) == Int32(Djb2(name))
  {
    hide Int32, SignedChar;
    if name == "" {
      SmallHash();
    } else {
      var init, c := name[..|name| - 1], name[|name| - 1];
      assert name == init + [c];
      HashIsDjb2(init);
      HashAppend(5381, init, c);
      WrapOnce(Djb2(init), SignedChar(c));
    }
  }

  lemma SmallHash()
    ensures Int32(5381) == 5381
  {
  }

  lemma {:induction false} HashAppend(h: int, name: string, c: char)
    ensures HashFrom(h, name + [c]) == Int32(33 * HashFrom(h, name) + SignedChar(c))
    decreases |name|
  {
    hide Int32, SignedChar;
    if name == "" {
      assert ([] + [c])[1..] == "";
      assert HashFrom(Int32(33 * h + SignedChar(c)), "") == Int32(33 * h + SignedChar(c));
    } else {
      assert (name + [c])[1..] == name[1..] + [c];
      HashAppend(Int32(33 * h + SignedChar(name[0])), name[1..], c);
    }
  }

  lemma WrapOnce(x: int, s: int)
    ensures Int32(33 * Int32(x) + s) == Int32(33 * x + s)
  {
    Int32Wraps(x);
    var k := (x - Int32(x)) / 0x1_0000_0000;
    assert x == Int32(x) + k * 0x1_0000_0000;
    WrapShift(33 * Int32(x) + s, 33 * k);
  }

  lemma WrapShift(y: int, k: int)
    ensures Int32(y + k * 0x1_0000_0000) == Int32(y)
  {
  }

  /** The remainder of C, with the sign of the dividend. */
  function CRem(a: int, m: int): int
    requires m > 0
  {
    if a >= 0 then a % m else -((-a) % m)
  }

  function Bucket(name: string, max: int): (k: int)
    requires max > 0
    ensures 0 <= k < max
  {
    Hash(name) % max
  }

  /** The index the code computes lies in the table, and is the bucket used here,
      exactly for the names whose hash is not negative or is a multiple of the size. */
  lemma IndexInTable(name: string, max: int)
    requires max > 0
    ensures 0 <= CRem(Hash(name), max) < max <==> Hash(name) >= 0 || Hash(name) % max == 0
    ensures 0 <= CRem(Hash(name), max) < max ==> CRem(Hash(name), max) == Bucket(name, max)
  {
    hide Hash;
    NegatedRemainder(Hash(name), max);
  }

  /** A name for which the code indexes before the start of the table. */
  lemma IndexBeforeTable()
    ensures CRem(Hash("aaaaaa"), 1000) < 0
  {
    hide HashFrom;
    var n := "aaaaaa";
    HashStep(5381, 177670, n);
    HashStep(177670, 5863207, n[1..]);
    HashStep(5863207, 193485928, n[1..][1..]);
    HashStep(193485928, 2090068425, n[1..][1..][1..]);
    HashStep(2090068425, 252781386, n[1..][1..][1..][1..]);
    HashStep(252781386, -248148757, n[1..][1..][1..][1..][1..]);
    HashEnd(-248148757, n[1..][1..][1..][1..][1..][1..]);
  }

  lemma HashStep(h: int, h': int, name: string)
    requires name != "" && name[0] == 'a' && h' == Int32(33 * h + 97)
    ensures HashFrom(h, name) == HashFrom(h', name[1..])
  {
  }

  lemma HashEnd(h: int, name: string)
    requires name == ""
    ensures HashFrom(h, name) == h
  {
  }

  lemma NegatedRemainder(a: int, m: int)
    requires m > 0
    ensures (-a) % m == if a % m == 0 then 0 else m - a % m
  {
    var q, r := a / m, a % m;
    assert -a == -q * m - r;
    if r == 0 {
      RemainderIs(-a, m, -q, 0);
    } else {
      RemainderIs(-a, m, -q - 1, m - r);
    }
  }

  lemma RemainderIs(a: int, m: int, q: int, r: int)
    requires m > 0 && a == q * m + r && 0 <= r < m
    ensures a % m == r
  {
    var d := a / m - q;
    assert a == (a / m) * m + a % m;
    assert d * m == r - a % m;
    assert d >= 1 ==> d * m >= m;
    assert d <= -1 ==> d * m <= -m;
  }

  // --------------------------------------------------------------- the operations

  ghost predicate Shaped<Id>(c: Cache<Id>) {
    && c.max > 0 && |c.chains| == c.max
    && (forall k, id :: 0 <= k < c.max && id in c.chains[k] ==> id in c.elems)
    && (forall id :: id in c.lru ==> id in c.elems)
    && (forall id :: id in c.elems ==> 0 <= c.elems[id].key < c.max)
  }

  /** cache_lookup: only the head of the chain is compared. */
  ghost function Lookup<Id>(c: Cache<Id>, name: string): Option<Id>
    requires Shaped(c)
  {
    var chain := c.chains[Bucket(name, c.max)];
    if chain != [] && c.elems[chain[0]].file.name == name then Some(chain[0]) else None
  }

  /** cache_insert, and the adjustment of currentSize before it. */
  ghost function Insert<Id>(c: Cache<Id>, id: Id, file: File): Cache<Id>
    requires Shaped(c)
  {
    var k := Bucket(file.name, c.max);
    c.(chains := c.chains[k := c.chains[k] + [id]],
       lru := c.lru + [id],
       elems := c.elems[id := Element(file, k, 0)],
       currentSize := c.currentSize + |file.contents|)
  }

  /** refCount++ and deleteSwapNode with command 1: the element becomes the most recent. */
  ghost function Pin<Id>(c: Cache<Id>, id: Id): Cache<Id>
    requires id in c.elems
  {
    c.(lru := Without(c.lru, id) + [id],
       elems := c.elems[id := c.elems[id].(refCount := c.elems[id].refCount + 1)])
  }

  ghost function Unpin<Id>(c: Cache<Id>, id: Id): Cache<Id>
    requires id in c.elems
  {
    c.(elems := c.elems[id := c.elems[id].(refCount := c.elems[id].refCount - 1)])
  }

  /** The first unpinned element of the list. */
  ghost function Victim<Id>(ids: seq<Id>, elems: map<Id, Element>): Option<Id>
    requires forall id :: id in ids ==> id in elems
  {
    if ids == [] then None
    else if elems[ids[0]].refCount == 0 then Some(ids[0])
    else Victim(ids[1..], elems)
  }

  ghost function Remove<Id>(c: Cache<Id>, id: Id): Cache<Id>
    requires Shaped(c) && id in c.elems
  {
    var k := c.elems[id].key;
    c.(chains := c.chains[k := Without(c.chains[k], id)],
       lru := Without(c.lru, id),
       elems := c.elems - {id},
       currentSize := c.currentSize - |c.elems[id].file.contents|)
  }

  /** cache_evict: at most one element goes, and only if that is enough. */
  ghost function Evict<Id>(c: Cache<Id>, amount: int): (r: Option<Cache<Id>>)
    requires Shaped(c)
    ensures r.Some? ==>
      exists id :: Victim(c.lru, c.elems) == Some(id) && id in c.elems && amount <= |c.elems[id].file.contents|
                   && r.value == Remove(c, id)
  {
    VictimIsListed(c.lru, c.elems);
    match Victim(c.lru, c.elems)
    case None => None
    case Some(id) => if amount <= |c.elems[id].file.contents| then Some(Remove(c, id)) else None
  }

  lemma {:induction false} VictimIsListed<Id>(ids: seq<Id>, elems: map<Id, Element>)
    requires forall id :: id in ids ==> id in elems
    ensures var v := Victim(ids, elems);
            && (v.Some? ==> v.value in ids && elems[v.value].refCount == 0)
            && (v.None? <==> forall id :: id in ids ==> elems[id].refCount != 0)
  {
    if ids != [] {
      VictimIsListed(ids[1..], elems);
      assert forall id :: id in ids <==> id == ids[0] || id in ids[1..];
    }
  }

  /** The list has an element at `i` that nobody uses, and all before it are in use. */
  ghost predicate FirstUnused<Id>(c: Cache<Id>, i: int)
    requires forall id :: id in c.lru ==> id in c.elems
  {
    0 <= i < |c.lru| && c.elems[c.lru[i]].refCount == 0 && forall j :: 0 <= j < i ==> c.elems[c.lru[j]].refCount != 0
  }

  /** A file of this size fits as things are, or when the first unused element is gone. */
  ghost predicate HasRoomFor<Id>(c: Cache<Id>, size: nat)
    requires forall id :: id in c.lru ==> id in c.elems
  {
    || c.currentSize + size <= c.max
    || exists i :: FirstUnused(c, i) && c.currentSize - |c.elems[c.lru[i]].file.contents| + size <= c.max
  }

  lemma {:induction false} VictimIsFirstUnused<Id>(ids: seq<Id>, elems: map<Id, Element>, i: nat)
    requires (forall id :: id in ids ==> id in elems) && i < |ids|
    requires elems[ids[i]].refCount == 0 && forall j :: 0 <= j < i ==> elems[ids[j]].refCount != 0
    ensures Victim(ids, elems) == Some(ids[i])
  {
    if i > 0 {
      assert elems[ids[0]].refCount != 0;
      VictimIsFirstUnused(ids[1..], elems, i - 1);
    }
  }

  lemma {:induction false} VictimHasPlace<Id>(ids: seq<Id>, elems: map<Id, Element>) returns (i: nat)
    requires (forall id :: id in ids ==> id in elems) && Victim(ids, elems).Some?
    ensures i < |ids| && Victim(ids, elems) == Some(ids[i])
    ensures elems[ids[i]].refCount == 0 && forall j :: 0 <= j < i ==> elems[ids[j]].refCount != 0
  {
    i := 0;
    if elems[ids[0]].refCount != 0 {
      var k := VictimHasPlace(ids[1..], elems);
      i := k + 1;
    }
  }

  /** One element goes if and only if the first unused one is large enough, and it is that one. */
  lemma EvictExactly<Id>(c: Cache<Id>, amount: int)
    requires Shaped(c)
    ensures Evict(c, amount).Some? <==> exists i :: FirstUnused(c, i) && amount <= |c.elems[c.lru[i]].file.contents|
    ensures forall i :: FirstUnused(c, i) && Evict(c, amount).Some? ==> Evict(c, amount).value == Remove(c, c.lru[i])
  {
    hide Shaped, Remove;
    ShapedFacts(c);
    forall i | FirstUnused(c, i) ensures Victim(c.lru, c.elems) == Some(c.lru[i]) {
      VictimIsFirstUnused(c.lru, c.elems, i);
    }
    if Victim(c.lru, c.elems).Some? {
      var i := VictimHasPlace(c.lru, c.elems);
      assert FirstUnused(c, i);
    }
  }

  lemma ShapedFacts<Id>(c: Cache<Id>)
    requires Shaped(c)
    ensures forall id :: id in c.lru ==> id in c.elems
  {
  }

  // ------------------------------------------------------------------ coherence

  /** The chains and the list hold the same elements, once each, in the right bucket. */
  ghost predicate Coherent<Id>(c: Cache<Id>) {
    && Shaped(c) && NoDup(c.lru)
    && (forall id :: id in c.elems ==> id in c.lru)
    && (forall id :: id in c.elems ==> c.elems[id].key == Bucket(c.elems[id].file.name, c.max))
    && (forall id :: id in c.elems ==> id in c.chains[c.elems[id].key])
    && (forall k :: 0 <= k < c.max ==> NoDup(c.chains[k]))
    && (forall k, id :: 0 <= k < c.max && id in c.chains[k] ==> c.elems[id].key == k)
  }

  lemma InsertCoherent<Id>(c: Cache<Id>, id: Id, file: File)
    requires Coherent(c) && id !in c.elems
    ensures Coherent(Insert(c, id, file))
  {
    hide NoDup, Bucket;
    var k := Bucket(file.name, c.max);
    NoDupAppend(c.lru, id);
    NoDupAppend(c.chains[k], id);
  }

  lemma PinCoherent<Id>(c: Cache<Id>, id: Id)
    requires Coherent(c) && id in c.elems
    ensures Coherent(Pin(c, id))
  {
    hide NoDup, Bucket, Without;
    WithoutMembers(c.lru, id);
    NoDupAppend(Without(c.lru, id), id);
    var c' := Pin(c, id);
    assert forall x :: x in c'.lru <==> x in c.lru;
    assert Shaped(c');
  }

  lemma UnpinCoherent<Id>(c: Cache<Id>, id: Id)
    requires Coherent(c) && id in c.elems
    ensures Coherent(Unpin(c, id))
  {
    hide NoDup, Bucket;
  }

  lemma RemoveCoherent<Id>(c: Cache<Id>, id: Id)
    requires Coherent(c) && id in c.elems
    ensures Coherent(Remove(c, id))
  {
    hide NoDup, Bucket, Without;
    WithoutMembers(c.lru, id);
    WithoutMembers(c.chains[c.elems[id].key], id);
    var c' := Remove(c, id);
    assert Shaped(c');
    assert forall id :: id in c'.elems ==> id in c'.chains[c'.elems[id].key];
    assert forall k :: 0 <= k < c.max ==> NoDup(c'.chains[k]);
  }

  /** A hit has the requested name. A miss of a cached name happens exactly when
      another file heads the chain. */
  lemma LookupIsSound<Id>(c: Cache<Id>, name: string)
    requires Coherent(c)
    ensures Lookup(c, name).Some? ==>
              Lookup(c, name).value in c.elems && c.elems[Lookup(c, name).value].file.name == name
    ensures (exists id :: id in c.elems && c.elems[id].file.name == name) ==>
              var chain := c.chains[Bucket(name, c.max)];
              chain != [] && (Lookup(c, name).None? <==> c.elems[chain[0]].file.name != name)
  {
  }

  /** Two files in one bucket: the second is cached and not found. */
  lemma FalseMiss()
    ensures var blank := Cache(1, [[]], [], map[], 0);
            Coherent(blank)
            && var one := Insert(blank, 0, File("a", []));
            Shaped(one)
            && var two := Insert(one, 1, File("b", []));
            Coherent(two) && two.elems[1].file.name == "b" && Lookup(two, "b").None?
  {
    hide Hash;
    var blank: Cache<int> := Cache(1, [[]], [], map[], 0);
    assert Coherent(blank);
    InsertCoherent(blank, 0, File("a", []));
    InsertCoherent(Insert(blank, 0, File("a", [])), 1, File("b", []));
  }

  /** Where no two files share a bucket, lookup finds exactly the cached names. */
  lemma LookupWithoutCollisions<Id>(c: Cache<Id>, name: string)
    requires Coherent(c) && forall k :: 0 <= k < c.max ==> |c.chains[k]| <= 1
    ensures Lookup(c, name).Some? <==> exists id :: id in c.elems && c.elems[id].file.name == name
  {
  }

  // --------------------------------------------------------------------- budget

  ghost function Total<Id>(ids: seq<Id>, elems: map<Id, Element>): (n: nat)
    requires forall id :: id in ids ==> id in elems
  {
    if ids == [] then 0 else |elems[ids[0]].file.contents| + Total(ids[1..], elems)
  }

  ghost predicate Budgeted<Id>(c: Cache<Id>)
    requires Shaped(c)
  {
    c.currentSize == Total(c.lru, c.elems) <= c.max
  }

  lemma {:induction false} TotalAppend<Id>(ids: seq<Id>, id: Id, elems: map<Id, Element>)
    requires id in elems && forall x :: x in ids ==> x in elems
    ensures Total(ids + [id], elems) == Total(ids, elems) + |elems[id].file.contents|
  {
    if ids != [] {
      assert (ids + [id])[1..] == ids[1..] + [id];
      TotalAppend(ids[1..], id, elems);
    }
  }

  lemma {:induction false} TotalWithout<Id>(ids: seq<Id>, id: Id, elems: map<Id, Element>)
    requires id in ids && forall x :: x in ids ==> x in elems
    ensures forall x :: x in Without(ids, id) ==> x in elems
    ensures Total(Without(ids, id), elems) == Total(ids, elems) - |elems[id].file.contents|
  {
    if ids[0] != id {
      TotalWithout(ids[1..], id, elems);
      assert ([ids[0]] + Without(ids[1..], id))[1..] == Without(ids[1..], id);
    }
  }

  lemma {:induction false} TotalDepends<Id>(ids: seq<Id>, elems: map<Id, Element>, elems': map<Id, Element>)
    requires forall x :: x in ids ==> x in elems && x in elems' && elems'[x].file == elems[x].file
    ensures Total(ids, elems) == Total(ids, elems')
  {
    if ids != [] {
      TotalDepends(ids[1..], elems, elems');
    }
  }

  lemma InsertTotal<Id>(c: Cache<Id>, id: Id, file: File)
    requires Coherent(c) && id !in c.elems && c.currentSize == Total(c.lru, c.elems)
    ensures Insert(c, id, file).currentSize == Total(Insert(c, id, file).lru, Insert(c, id, file).elems)
  {
    var c' := Insert(c, id, file);
    TotalDepends(c.lru, c.elems, c'.elems);
    TotalAppend(c.lru, id, c'.elems);
  }

  lemma RemoveTotal<Id>(c: Cache<Id>, id: Id)
    requires Coherent(c) && id in c.elems && c.currentSize == Total(c.lru, c.elems)
    ensures Shaped(Remove(c, id)) && Remove(c, id).currentSize == Total(Remove(c, id).lru, Remove(c, id).elems)
  {
    hide Without;
    RemoveCoherent(c, id);
    WithoutMembers(c.lru, id);
    TotalWithout(c.lru, id, c.elems);
    TotalDepends(Without(c.lru, id), c.elems, c.elems - {id});
  }

  lemma PinTotal<Id>(c: Cache<Id>, id: Id)
    requires Coherent(c) && id in c.elems && Budgeted(c)
    ensures Shaped(Pin(c, id)) && Budgeted(Pin(c, id))
  {
    hide Without, Total, Coherent, Pin;
    CoherentFacts(c);
    PinCoherent(c, id);
    PinTotalOfList(c, id);
    CoherentFacts(Pin(c, id));
  }

  lemma CoherentFacts<Id>(c: Cache<Id>)
    requires Coherent(c)
    ensures Shaped(c) && NoDup(c.lru) && forall id :: id in c.elems <==> id in c.lru
  {
  }

  lemma PinTotalOfList<Id>(c: Cache<Id>, id: Id)
    requires id in c.lru && forall x :: x in c.lru ==> x in c.elems
    ensures Pin(c, id).currentSize == c.currentSize && Pin(c, id).max == c.max
    ensures forall x :: x in Pin(c, id).lru ==> x in Pin(c, id).elems
    ensures Total(Pin(c, id).lru, Pin(c, id).elems) == Total(c.lru, c.elems)
  {
    hide Without, Total;
    TotalWithout(c.lru, id, c.elems);
    TotalAppend(Without(c.lru, id), id, c.elems);
    var c' := Pin(c, id);
    assert forall x :: x in c'.lru ==> x in c.elems && c'.elems[x].file == c.elems[x].file;
    TotalDepends(c'.lru, c.elems, c'.elems);
  }

  lemma UnpinTotal<Id>(c: Cache<Id>, id: Id)
    requires Coherent(c) && id in c.elems && Budgeted(c)
    ensures Shaped(Unpin(c, id)) && Budgeted(Unpin(c, id))
  {
    UnpinCoherent(c, id);
    TotalDepends(c.lru, c.elems, Unpin(c, id).elems);
  }

  /** The second critical section after a miss: insert, evicting one element if the
      file does not fit, or give up. */
  ghost function Admit<Id>(c: Cache<Id>, id: Id, file: File): Option<Cache<Id>>
    requires Coherent(c)
  {
    if c.currentSize + |file.contents| <= c.max then Some(Insert(c, id, file))
    else
      match Evict(c, |file.contents| - (c.max - c.currentSize))
      case None => None
      case Some(c1) => RemovalsAreCoherent(c); Some(Insert(c1, id, file))
  }

  lemma RoomByEvicting<Id>(c: Cache<Id>, size: nat)
    requires Coherent(c)
    ensures Shaped(c)
    ensures HasRoomFor(c, size) <==> c.currentSize + size <= c.max || Evict(c, size - (c.max - c.currentSize)).Some?
  {
    hide Evict, Remove, NoDup, Bucket, FirstUnused;
    EvictExactly(c, size - (c.max - c.currentSize));
  }

  /** A file is admitted if and only if it fits, by itself or in place of one element. */
  lemma AdmitExactly<Id>(c: Cache<Id>, id: Id, file: File)
    requires Coherent(c)
    ensures Shaped(c) && (Admit(c, id, file).Some? <==> HasRoomFor(c, |file.contents|))
  {
    hide Evict, Insert, Remove, NoDup, Bucket, HasRoomFor;
    RoomByEvicting(c, |file.contents|);
  }

  /** The file that was admitted is there, and after the pin it has one user. */
  lemma AdmittedIsPinned<Id>(c: Cache<Id>, id: Id, file: File)
    requires Coherent(c) && c.max > 0 && Admit(c, id, file).Some?
    ensures var c' := Admit(c, id, file).value;
            && id in c'.elems && Pin(c', id).max == c.max && id in Pin(c', id).elems
            && Pin(c', id).elems[id] == Element(file, Bucket(file.name, c.max), 1)
  {
    hide Bucket, NoDup, Without, Victim;
  }

  lemma RemovalsAreCoherent<Id>(c: Cache<Id>)
    requires Coherent(c)
    ensures forall id :: id in c.elems ==> Coherent(Remove(c, id))
  {
    forall id | id in c.elems ensures Coherent(Remove(c, id)) {
      RemoveCoherent(c, id);
    }
  }

  /** How a file gets in: directly, or in place of the first unpinned element. */
  lemma AdmitCases<Id>(c: Cache<Id>, id: Id, file: File) returns (c1: Cache<Id>)
    requires Coherent(c) && Budgeted(c) && Admit(c, id, file).Some?
    ensures Coherent(c1) && Budgeted(c1) && Admit(c, id, file).value == Insert(c1, id, file)
    ensures c1.currentSize + |file.contents| <= c1.max == c.max
    ensures c1 == c || exists v :: v in c.elems && Victim(c.lru, c.elems) == Some(v) && c1 == Remove(c, v)
    ensures c1 == c <==> c.currentSize + |file.contents| <= c.max
  {
    hide Bucket, NoDup, Without, Victim, Total;
    VictimIsListed(c.lru, c.elems);
    if c.currentSize + |file.contents| <= c.max {
      c1 := c;
    } else {
      var v :| Victim(c.lru, c.elems) == Some(v) && v in c.elems
               && |file.contents| - (c.max - c.currentSize) <= |c.elems[v].file.contents|
               && Evict(c, |file.contents| - (c.max - c.currentSize)).value == Remove(c, v);
      c1 := Remove(c, v);
      RemoveCoherent(c, v);
      RemoveTotal(c, v);
    }
  }

  /** The budget holds after evict-then-insert too. */
  lemma AdmitKeepsBudget<Id>(c: Cache<Id>, id: Id, file: File)
    requires Coherent(c) && Budgeted(c) && id !in c.elems && Admit(c, id, file).Some?
    ensures Coherent(Admit(c, id, file).value) && Budgeted(Admit(c, id, file).value)
  {
    hide Admit, Total, Victim;
    var c1 := AdmitCases(c, id, file);
    InsertCoherent(c1, id, file);
    InsertTotal(c1, id, file);
  }

  /** A file larger than the cache is never stored. */
  lemma OversizedIsNotCached<Id>(c: Cache<Id>, id: Id, file: File)
    requires Coherent(c) && Budgeted(c) && |file.contents| > c.max
    ensures Admit(c, id, file).None?
  {
    VictimIsListed(c.lru, c.elems);
    forall v | v in c.elems ensures |c.elems[v].file.contents| <= c.currentSize {
      TotalWithout(c.lru, v, c.elems);
    }
  }
}
