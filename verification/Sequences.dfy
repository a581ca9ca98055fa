/** Lists without repetitions. */
module Sequences {
  /** The list without its first `t`. */
  function Without<T(==)>(ts: seq<T>, t: T): seq<T> {
    if ts == [] then [] else if ts[0] == t then ts[1..] else [ts[0]] + Without(ts[1..], t)
  }

  ghost predicate NoDup<T>(ts: seq<T>) {
    forall i, j :: 0 <= i < j < |ts| ==> ts[i] != ts[j]
  }

  lemma NoDupTail<T>(ts: seq<T>)
    requires NoDup(ts) && ts != []
    ensures NoDup(ts[1..]) && ts[0] !in ts[1..]
    ensures forall t :: t in ts <==> t == ts[0] || t in ts[1..]
  {
    assert ts == [ts[0]] + ts[1..];
  }

  lemma NoDupAppend<T>(ts: seq<T>, t: T)
    requires NoDup(ts) && t !in ts
    ensures NoDup(ts + [t]) && forall x :: x in ts + [t] <==> x in ts || x == t
  {
  }

  lemma {:induction false} WithoutMembers<T>(ts: seq<T>, t: T)
    requires NoDup(ts)
    ensures NoDup(Without(ts, t))
    ensures forall x :: x in Without(ts, t) <==> x in ts && x != t
    ensures |Without(ts, t)| == if t in ts then |ts| - 1 else |ts|
  {
    if ts != [] {
      NoDupTail(ts);
      WithoutMembers(ts[1..], t);
      var rest := Without(ts[1..], t);
      forall i, j | 0 <= i < j < |[ts[0]] + rest|
        ensures ([ts[0]] + rest)[i] != ([ts[0]] + rest)[j]
      {
        assert rest[j - 1] in rest;
      }
    }
  }

  lemma {:induction false} WithoutLast<T>(ts: seq<T>, t: T)
    requires t !in ts
    ensures Without(ts + [t], t) == ts
  {
    if ts != [] {
      assert (ts + [t])[1..] == ts[1..] + [t];
      WithoutLast(ts[1..], t);
    }
  }

  lemma EmptyNoDup<T>()
    ensures NoDup<T>([])
  {
  }

  lemma NoDupPrefix<T>(ts: seq<T>)
    requires NoDup(ts) && ts != []
    ensures NoDup(ts[..|ts| - 1])
  {
  }

  lemma NoDupCut<T>(ts: seq<T>, k: int)
    requires NoDup(ts) && 0 <= k < |ts|
    ensures NoDup(ts[..k] + ts[k + 1..])
  {
  }

  lemma {:induction false} WithoutAt<T>(ts: seq<T>, k: int)
    requires NoDup(ts) && 0 <= k < |ts|
    ensures Without(ts, ts[k]) == ts[..k] + ts[k + 1..]
  {
    if k > 0 {
      NoDupTail(ts);
      WithoutAt(ts[1..], k - 1);
      assert ts[..k] + ts[k + 1..] == [ts[0]] + (ts[1..][..k - 1] + ts[1..][k..]);
    }
  }
}
