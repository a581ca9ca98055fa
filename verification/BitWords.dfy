/** The eight-bit words of the free maps (fs/bitmap.c): bit `k` counts 2^k. */
module BitWords {
  function Mask(k: int): bv8
    requires 0 <= k < 8
  {
    if k == 0 then 1 else if k == 1 then 2 else if k == 2 then 4 else if k == 3 then 8
    else if k == 4 then 16 else if k == 5 then 32 else if k == 6 then 64 else 128
  }

  predicate HasBit(w: bv8, k: int)
    requires 0 <= k < 8
  {
    w & Mask(k) != 0
  }

  /** `w |= mask` */
  function SetBit(w: bv8, k: int): bv8
    requires 0 <= k < 8
  {
    w | Mask(k)
  }

  /** `w &= ~mask` */
  function ClearBit(w: bv8, k: int): bv8
    requires 0 <= k < 8
  {
    w & !Mask(k)
  }

  /** The number that a word is. */
  function Number(w: bv8): int {
    w as int
  }

  lemma BitsAfterSet(w: bv8, a: int, b: int)
    requires 0 <= a < 8 && 0 <= b < 8
    ensures HasBit(SetBit(w, a), b) <==> a == b || HasBit(w, b)
  {
  }

  lemma BitsAfterClear(w: bv8, a: int, b: int)
    requires 0 <= a < 8 && 0 <= b < 8
    ensures HasBit(ClearBit(w, a), b) <==> a != b && HasBit(w, b)
  {
  }

  function Pow2(k: nat): (p: nat)
    ensures p > 0
  {
    if k == 0 then 1 else 2 * Pow2(k - 1)
  }

  function Digit(w: bv8, k: int): int
    requires 0 <= k < 8
  {
    if HasBit(w, k) then 1 else 0
  }

  /** A word is the sum of its bits, the first of which counts one. */
  lemma WordIsSum(w: bv8)
    ensures Number(w) == Digit(w, 0) + 2 * Digit(w, 1) + 4 * Digit(w, 2) + 8 * Digit(w, 3)
                        + 16 * Digit(w, 4) + 32 * Digit(w, 5) + 64 * Digit(w, 6) + 128 * Digit(w, 7)
  {
    assert w as int == (w & 0x7f) as int + 128 * Digit(w, 7);
    assert (w & 0x7f) as int == (w & 0x3f) as int + 64 * Digit(w, 6);
    assert (w & 0x3f) as int == (w & 0x1f) as int + 32 * Digit(w, 5);
    assert (w & 0x1f) as int == (w & 0x0f) as int + 16 * Digit(w, 4);
    assert (w & 0x0f) as int == (w & 0x07) as int + 8 * Digit(w, 3);
    assert (w & 0x07) as int == (w & 0x03) as int + 4 * Digit(w, 2);
    assert (w & 0x03) as int == (w & 0x01) as int + 2 * Digit(w, 1);
    assert (w & 0x01) as int == Digit(w, 0);
  }

  function Digits(w: bv8): (d: seq<int>)
    ensures |d| == 8 && forall k :: 0 <= k < 8 ==> d[k] == Digit(w, k)
  {
    seq(8, k requires 0 <= k < 8 => Digit(w, k))
  }

  /** The number that binary digits stand for, the lowest first. */
  function Value(d: seq<int>): int {
    if d == [] then 0 else d[0] + 2 * Value(d[1..])
  }

  lemma AtLeastOnce(a: int, p: int)
    requires 1 <= a && 0 < p
    ensures p <= a * p
  {
  }

  lemma DivUnique(n: int, p: int, q: int, r: int)
    requires n == q * p + r && 0 <= r < p
    ensures n / p == q
  {
    var x := n / p;
    assert (x - q) * p == r - n % p;
    if x > q {
      AtLeastOnce(x - q, p);
      assert false;
    } else if x < q {
      AtLeastOnce(q - x, p);
      assert false;
    }
  }

  lemma HalfFirst(n: int, p: int)
    requires 0 < p
    ensures n / 2 / p == n / (2 * p)
  {
    var q, r := n / 2 / p, n / 2 % p;
    assert n == q * (2 * p) + (2 * r + n % 2) by {
      assert n / 2 == q * p + r;
      assert q * (2 * p) == 2 * (q * p);
    }
    DivUnique(n, 2 * p, q, 2 * r + n % 2);
  }

  lemma {:induction false} DigitOfValue(d: seq<int>, k: nat)
    requires (forall i :: 0 <= i < |d| ==> 0 <= d[i] <= 1) && k < |d|
    ensures Value(d) / Pow2(k) % 2 == d[k]
  {
    if k == 0 {
      assert Value(d) / 1 == Value(d);
    } else {
      DigitOfValue(d[1..], k - 1);
      assert Value(d) / 2 == Value(d[1..]);
      HalfFirst(Value(d), Pow2(k - 1));
    }
  }

  lemma {:induction false} ValueChanges(d: seq<int>, k: nat, x: int)
    requires k < |d|
    ensures Value(d[k := x]) == Value(d) + (x - d[k]) * Pow2(k)
  {
    if k > 0 {
      assert d[k := x][1..] == d[1..][k - 1 := x];
      ValueChanges(d[1..], k - 1, x);
      assert (x - d[k]) * Pow2(k) == 2 * ((x - d[k]) * Pow2(k - 1));
    }
  }

  /** A word is the number its bits stand for. */
  lemma WordHasValue(w: bv8)
    ensures Number(w) == Value(Digits(w))
  {
    hide HasBit, Number;
    WordIsSum(w);
    var d := Digits(w);
    assert Value(d[6..]) == d[6] + 2 * d[7] by {
      assert d[7..][1..] == [] && Value(d[7..]) == d[7];
    }
    assert Value(d[4..]) == d[4] + 2 * d[5] + 4 * Value(d[6..]) by { assert d[4..][1..] == d[5..] && d[5..][1..] == d[6..]; }
    assert Value(d[2..]) == d[2] + 2 * d[3] + 4 * Value(d[4..]) by { assert d[2..][1..] == d[3..] && d[3..][1..] == d[4..]; }
    assert Value(d) == d[0] + 2 * d[1] + 4 * Value(d[2..]) by { assert d[1..][1..] == d[2..]; }
  }

  /** What a bit means in the number the word is. */
  lemma BitMeans(w: bv8, k: int)
    requires 0 <= k < 8
    ensures HasBit(w, k) <==> Number(w) / Pow2(k) % 2 == 1
  {
    hide HasBit, Pow2, Number, Value;
    WordHasValue(w);
    DigitOfValue(Digits(w), k);
  }


  /** Setting and clearing a bit change the number by the power of two. */
  lemma SetBitAdds(w: bv8, k: int)
    requires 0 <= k < 8 && !HasBit(w, k)
    ensures Number(SetBit(w, k)) == Number(w) + Pow2(k)
  {
    hide HasBit, Pow2, SetBit, ClearBit, Number, Value;
    WordHasValue(w);
    WordHasValue(SetBit(w, k));
    var d, d' := Digits(w), Digits(SetBit(w, k));
    forall i | 0 <= i < 8 ensures d'[i] == d[k := 1][i] {
      BitsAfterSet(w, k, i);
    }
    assert d' == d[k := 1];
    ValueChanges(d, k, 1);
  }

  lemma ClearBitTakes(w: bv8, k: int)
    requires 0 <= k < 8 && HasBit(w, k)
    ensures Number(ClearBit(w, k)) == Number(w) - Pow2(k)
  {
    hide HasBit, Pow2, SetBit, ClearBit, Number, Value;
    WordHasValue(w);
    WordHasValue(ClearBit(w, k));
    var d, d' := Digits(w), Digits(ClearBit(w, k));
    forall i | 0 <= i < 8 ensures d'[i] == d[k := 0][i] {
      BitsAfterClear(w, k, i);
    }
    assert d' == d[k := 0];
    ValueChanges(d, k, 0);
  }

  lemma FullWord(w: bv8)
    ensures w == 0xff <==> forall k :: 0 <= k < 8 ==> HasBit(w, k)
  {
    if forall k :: 0 <= k < 8 ==> HasBit(w, k) {
      assert HasBit(w, 0) && HasBit(w, 1) && HasBit(w, 2) && HasBit(w, 3);
      assert HasBit(w, 4) && HasBit(w, 5) && HasBit(w, 6) && HasBit(w, 7);
    }
  }
}
