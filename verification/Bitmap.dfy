/** The bit array behind both free maps (fs/bitmap.c). */
module Bitmaps {
  import opened BitWords

  const BITS_PER_WORD: int := 8

  function DivRoundUp(n: nat): nat {
    (n + BITS_PER_WORD - 1) / BITS_PER_WORD
  }

  class Bitmap {
    const nbits: nat
    const v: array<bv8>

    predicate Shape() {
      v.Length == DivRoundUp(nbits) && nbits + 7 < 0x1_0000_0000
    }

    predicate Bit(i: int)
      requires Shape()
      requires 0 <= i < 8 * v.Length
      reads v
    {
      HasBit(v[i / 8], i % 8)
    }

    /** The padding bits of the last word stay set, so no search finds them. */
    ghost predicate Valid()
      reads v
    {
      Shape() && forall i :: nbits <= i < 8 * v.Length ==> Bit(i)
    }

    /** The abstract value: the set of marked indices. */
    ghost function Bits(): (s: set<int>)
      reads v
    {
      set i | 0 <= i < nbits && Shape() && Bit(i)
    }

    constructor (n: nat)
      requires n + 7 < 0x1_0000_0000
      ensures Valid() && nbits == n && fresh(v)
      ensures Bits() == {}
    {
      nbits := n;
      var words := DivRoundUp(n);
      v := new bv8[words](_ => 0);
      new;
      if nbits / BITS_PER_WORD < words {
        var ix := words - 1;
        var overbits := nbits - ix * BITS_PER_WORD;
        assert nbits / BITS_PER_WORD == words - 1 && 0 < overbits < BITS_PER_WORD;
        var j := overbits;
        while j < BITS_PER_WORD
          invariant overbits <= j <= BITS_PER_WORD
          invariant forall w :: 0 <= w < ix ==> v[w] == 0
          invariant forall k :: 0 <= k < 8 ==> (HasBit(v[ix], k) <==> overbits <= k < j)
        {
          ghost var before := v[ix];
          v[ix] := SetBit(v[ix], j);
          forall k | 0 <= k < 8 ensures HasBit(v[ix], k) <==> j == k || HasBit(before, k) {
            BitsAfterSet(before, j, k);
          }
          j := j + 1;
        }
      }
    }

    /** Setting bit `i` of the array touches that bit and no other. */
    twostate lemma BitSet(i: int)
      requires Shape() && 0 <= i < nbits
      requires forall w :: 0 <= w < v.Length && w != i / 8 ==> v[w] == old(v[w])
      requires v[i / 8] == SetBit(old(v[i / 8]), i % 8)
      ensures forall k :: 0 <= k < 8 * v.Length ==> (Bit(k) <==> k == i || old(Bit(k)))
    {
      hide HasBit, SetBit, ClearBit;
      forall k | 0 <= k < 8 * v.Length ensures Bit(k) <==> k == i || old(Bit(k)) {
        BitsAfterSet(old(v[i / 8]), i % 8, k % 8);
      }
    }

    /** And so does clearing it. */
    twostate lemma BitCleared(i: int)
      requires Shape() && 0 <= i < nbits
      requires forall w :: 0 <= w < v.Length && w != i / 8 ==> v[w] == old(v[w])
      requires v[i / 8] == ClearBit(old(v[i / 8]), i % 8)
      ensures forall k :: 0 <= k < 8 * v.Length ==> (Bit(k) <==> k != i && old(Bit(k)))
    {
      hide HasBit, SetBit, ClearBit;
      forall k | 0 <= k < 8 * v.Length ensures Bit(k) <==> k != i && old(Bit(k)) {
        BitsAfterClear(old(v[i / 8]), i % 8, k % 8);
      }
    }

    /** The two search loops: the smallest clear index, if there is one. */
    method FindClear() returns (ok: bool, ix: int, offset: int)
      requires Valid()
      ensures !ok ==> forall i :: 0 <= i < nbits ==> Bit(i)
      ensures ok ==> 0 <= offset < 8 && 0 <= ix * 8 + offset < nbits && !Bit(ix * 8 + offset)
      ensures ok ==> forall i :: 0 <= i < ix * 8 + offset ==> Bit(i)
    {
      hide HasBit, SetBit, ClearBit;
      ix, offset := 0, 0;
      var maxix := DivRoundUp(nbits);
      while ix < maxix
        invariant 0 <= ix <= maxix && offset == 0
        invariant forall i :: 0 <= i < 8 * ix ==> Bit(i)
      {
        FullWord(v[ix]);
        if v[ix] != 0xff {
          while HasBit(v[ix], offset)
            invariant 0 <= offset < 8
            invariant forall k :: 0 <= k < offset ==> HasBit(v[ix], k)
            invariant exists k :: 0 <= k < 8 && !HasBit(v[ix], k)
            decreases 8 - offset
          {
            offset := offset + 1;
          }
          forall i | 0 <= i < ix * 8 + offset ensures Bit(i) {
            if i >= 8 * ix { assert i / 8 == ix && i % 8 < offset; }
          }
          ghost var index := ix * 8 + offset;
          assert index / 8 == ix && index % 8 == offset && index < 8 * v.Length;
          assert !Bit(index);
          return true, ix, offset;
        }
        forall i | 8 * ix <= i < 8 * (ix + 1) ensures Bit(i) {
          assert i / 8 == ix;
        }
        ix := ix + 1;
      }
      return false, ix, offset;
    }

    /** First fit: the smallest clear index is set and returned; the search
        fails exactly when every index below `nbits` is set. */
    method Alloc() returns (ok: bool, index: int)
      requires Valid()
      modifies v
      ensures Valid()
      ensures !ok <==> forall i :: 0 <= i < nbits ==> i in old(Bits())
      ensures !ok ==> Bits() == old(Bits())
      ensures ok ==> 0 <= index < nbits && index !in old(Bits())
      ensures ok ==> forall i :: 0 <= i < index ==> i in old(Bits())
      ensures ok ==> Bits() == old(Bits()) + {index} && |Bits()| == |old(Bits())| + 1
      ensures forall w :: 0 <= w < v.Length ==>
                Number(v[w]) == Number(old(v[w])) + if ok && w == index / 8 then Pow2(index % 8) else 0
    {
      hide HasBit, SetBit, ClearBit, Number, Pow2;
      ghost var before := Bits();
      var ix, offset;
      ok, ix, offset := FindClear();
      index := ix * BITS_PER_WORD + offset;
      forall i | 0 <= i < (if ok then index else nbits) ensures i in before {
        assert Bit(i);
      }
      if ok {
        assert !Bit(index) && index !in before;
        SetBitAdds(v[ix], offset);
        v[ix] := SetBit(v[ix], offset);
        BitSet(index);
        assert Bits() == before + {index};
      }
    }

    method Mark(index: int)
      requires Valid() && 0 <= index < nbits && index !in Bits()
      modifies v
      ensures Valid()
      ensures Bits() == old(Bits()) + {index} && |Bits()| == |old(Bits())| + 1
      ensures forall w :: 0 <= w < v.Length ==>
                Number(v[w]) == Number(old(v[w])) + if w == index / 8 then Pow2(index % 8) else 0
    {
      hide HasBit, SetBit, ClearBit, Number, Pow2;
      assert !Bit(index);
      SetBitAdds(v[index / 8], index % 8);
      v[index / 8] := SetBit(v[index / 8], index % 8);
      BitSet(index);
      assert Bits() == old(Bits()) + {index};
    }

    method Unmark(index: int)
      requires Valid() && index in Bits()
      modifies v
      ensures Valid()
      ensures Bits() == old(Bits()) - {index} && |Bits()| == |old(Bits())| - 1
      ensures forall w :: 0 <= w < v.Length ==>
                Number(v[w]) == Number(old(v[w])) - if w == index / 8 then Pow2(index % 8) else 0
    {
      hide HasBit, SetBit, ClearBit, Number, Pow2;
      assert Bit(index);
      ClearBitTakes(v[index / 8], index % 8);
      v[index / 8] := ClearBit(v[index / 8], index % 8);
      BitCleared(index);
      assert Bits() == old(Bits()) - {index};
    }

    method NrAllocated() returns (nr: int)
      requires Valid()
      ensures nr == |Bits()|
    {
      nr := 0;
      var i := 0;
      ghost var seen: set<int> := {};
      while i < nbits
        invariant 0 <= i <= nbits
        invariant forall j :: j in seen <==> 0 <= j < i && j in Bits()
        invariant nr == |seen|
      {
        if Bit(i) {
          nr := nr + 1;
          seen := seen + {i};
        }
        i := i + 1;
      }
      assert seen == Bits();
    }
  }
}
