/** userprog/bitmap.cc: an array of bits packed 32 to a word, with first-fit allocation. */
module BitMaps {
  import opened Words

  // ---- one word ----

  /** Bit k of w. */
  predicate BitOf(w: nat, k: nat) {
    if k == 0 then w % 2 == 1 else BitOf(w / 2, k - 1)
  }

  /** Bit k counts for 2^k. */
  lemma {:induction false} BitIsQuotient(w: nat, k: nat)
    ensures BitOf(w, k) <==> w / Pow2(k) % 2 == 1
    decreases k
  {
    if k > 0 {
      BitIsQuotient(w / 2, k - 1);
      HalvesCompose(w, Pow2(k - 1));
    }
  }

  lemma HalvesCompose(w: nat, p: nat)
    requires p > 0
    ensures w / (2 * p) == w / 2 / p
  {
    var half, q := w / 2, w / 2 / p;
    assert half == p * q + half % p;
    Doubled(w, half, p * q, half % p, p);
    TwiceTimes(p, q);
    QuotientUnique(w, 2 * p, q);
  }

  lemma Doubled(w: nat, half: nat, at: nat, rest: nat, p: nat)
    requires half == w / 2 && half == at + rest && rest < p
    ensures 2 * at <= w < 2 * at + 2 * p
  {
  }

  lemma TwiceTimes(p: nat, q: nat)
    ensures 2 * p * q == 2 * (p * q) && 2 * p * (q + 1) == 2 * (p * q) + 2 * p
  {
  }

  lemma QuotientUnique(w: nat, p: nat, q: nat)
    requires p > 0 && p * q <= w < p * (q + 1)
    ensures w / p == q
  {
    var d := w / p;
    assert w == p * d + w % p;
    assert d < q ==> p * (d + 1) <= p * q;
    assert q < d ==> p * (q + 1) <= p * d;
  }

  /** `w | (1 << k)` when `on`, `w & ~(1 << k)` otherwise. */
  function WithBit(w: nat, k: nat, on: bool): nat {
    if k == 0 then w / 2 * 2 + (if on then 1 else 0) else 2 * WithBit(w / 2, k - 1, on) + w % 2
  }

  lemma {:induction false} WithBitBits(w: nat, k: nat, on: bool, j: nat)
    ensures BitOf(WithBit(w, k, on), j) == if j == k then on else BitOf(w, j)
    decreases k
  {
    if k > 0 && j > 0 {
      WithBitBits(w / 2, k - 1, on, j - 1);
    }
  }

  lemma {:induction false} WithBitWidth(w: nat, k: nat, on: bool, n: nat)
    requires w < Pow2(n) && k < n
    ensures WithBit(w, k, on) < Pow2(n)
    decreases k
  {
    hide Pow2;
    Pow2Step(n);
    HalfBelow(w, Pow2(n - 1));
    if k > 0 {
      WithBitWidth(w / 2, k - 1, on, n - 1);
    }
  }

  lemma HalfBelow(w: nat, p: nat)
    ensures w < 2 * p <==> w / 2 < p
    ensures 0 <= w % 2 <= 1 && w / 2 * 2 <= w
  {
  }

  function MaskedWord(w: word, k: nat, on: bool): (r: word)
    requires k < 32
    ensures forall j: nat :: BitOf(r, j) == if j == k then on else BitOf(w, j)
  {
    WordWidth();
    WithBitWidth(w, k, on, 32);
    assert forall j: nat :: BitOf(WithBit(w, k, on), j) == (if j == k then on else BitOf(w, j)) by {
      forall j: nat { WithBitBits(w, k, on, j); }
    }
    WithBit(w, k, on)
  }

  // ---- the bits of a packed map, and what first-fit allocation does to them ----

  function BitsOf(words: seq<word>, n: nat): (bits: seq<bool>)
    requires n <= 32 * |words|
    ensures |bits| == n
  {
    seq(n, i requires 0 <= i < n => BitOf(words[i / 32], i % 32))
  }

  function CountClear(bits: seq<bool>): nat {
    if bits == [] then 0
    else CountClear(bits[..|bits| - 1]) + if bits[|bits| - 1] then 0 else 1
  }

  /** The index of the first clear bit, or |bits| when there is none. */
  function FirstClear(bits: seq<bool>): (k: nat)
    ensures k <= |bits|
    ensures forall i :: 0 <= i < k ==> bits[i]
    ensures k < |bits| ==> !bits[k]
  {
    if bits == [] || !bits[0] then 0 else 1 + FirstClear(bits[1..])
  }

  /** What n successive calls of Find hand out; the list is short when the map runs full. */
  function Picks(bits: seq<bool>, n: nat): seq<int>
    decreases n
  {
    var k := FirstClear(bits);
    if n == 0 || k == |bits| then [] else [k] + Picks(bits[k := true], n - 1)
  }

  /** `bits` with every listed position set to `on`; positions outside the map are ignored. */
  function Painted(bits: seq<bool>, at: seq<int>, on: bool): (r: seq<bool>)
    ensures |r| == |bits|
  {
    seq(|bits|, i requires 0 <= i < |bits| => if i in at then on else bits[i])
  }

  lemma {:induction false} CountClearUpdate(bits: seq<bool>, k: nat, on: bool)
    requires k < |bits|
    ensures CountClear(bits[k := on]) == CountClear(bits) + (if bits[k] then 1 else 0) - (if on then 1 else 0)
    decreases |bits|
  {
    var n := |bits| - 1;
    if k == n {
      assert bits[k := on][..n] == bits[..n];
    } else {
      assert bits[k := on][..n] == bits[..n][k := on];
      CountClearUpdate(bits[..n], k, on);
    }
  }

  /** Counting and searching agree: there is a clear bit exactly when the count is positive. */
  lemma {:induction false} CountClearZero(bits: seq<bool>)
    ensures CountClear(bits) == 0 <==> (forall i :: 0 <= i < |bits| ==> bits[i])
    ensures CountClear(bits) == 0 <==> FirstClear(bits) == |bits|
    ensures CountClear(bits) <= |bits|
    decreases |bits|
  {
    if bits != [] {
      CountClearZero(bits[..|bits| - 1]);
    }
  }

  /** First fit keeps to the front: with fewer than m bits set, the bit handed out lies below m. */
  lemma {:induction false} FirstClearBelow(bits: seq<bool>, m: nat)
    requires m <= |bits|
    requires |bits| - CountClear(bits) < m
    ensures FirstClear(bits) < m
    decreases |bits|
  {
    if |bits| == m {
      CountClearZero(bits);
    } else {
      var front := bits[..|bits| - 1];
      FirstClearBelow(front, m);
      assert FirstClear(bits) <= FirstClear(front) by {
        assert !bits[FirstClear(front)];
      }
    }
  }

  lemma PaintedCons(bits: seq<bool>, k: nat, rest: seq<int>, on: bool)
    requires k < |bits|
    ensures Painted(bits[k := on], rest, on) == Painted(bits, [k] + rest, on)
  {
  }

  /** Allocation is exact and safe: n picks exist when n bits are clear, they are distinct, in range and were clear,
      painting them is what the n calls of Find leave behind, and the clear count drops by exactly n. */
  lemma {:induction false} PicksAreFresh(bits: seq<bool>, n: nat)
    requires n <= CountClear(bits)
    ensures var picks := Picks(bits, n);
            && |picks| == n
            && (forall i :: 0 <= i < n ==> 0 <= picks[i] < |bits| && !bits[picks[i]])
            && (forall i, j :: 0 <= i < j < n ==> picks[i] != picks[j])
            && CountClear(Painted(bits, picks, true)) == CountClear(bits) - n
    decreases n
  {
    if n == 0 {
      assert Painted(bits, [], true) == bits;
    } else {
      CountClearZero(bits);
      var k := FirstClear(bits);
      var next := bits[k := true];
      CountClearUpdate(bits, k, true);
      PicksAreFresh(next, n - 1);
      PaintedCons(bits, k, Picks(next, n - 1), true);
    }
  }

  /** Freeing exactly what was picked restores the map bit for bit. */
  lemma ReleaseUndoesPicks(bits: seq<bool>, n: nat)
    requires n <= CountClear(bits)
    ensures var picks := Picks(bits, n);
            Painted(Painted(bits, picks, true), picks, false) == bits
  {
    PicksAreFresh(bits, n);
    var picks := Picks(bits, n);
    forall i | 0 <= i < |bits|
      ensures Painted(Painted(bits, picks, true), picks, false)[i] == bits[i]
    {
      if i in picks {
        var j :| 0 <= j < |picks| && picks[j] == i;
      }
    }
  }

  /** Taking n picks is taking the first and then n - 1 from what is left. */
  lemma FirstPick(bits: seq<bool>, n: nat)
    requires 0 < n && FirstClear(bits) < |bits|
    ensures var k := FirstClear(bits); var next := bits[k := true];
            && Picks(bits, n) == [k] + Picks(next, n - 1)
            && CountClear(next) == CountClear(bits) - 1
            && forall rest :: Painted(next, rest, true) == Painted(bits, [k] + rest, true)
  {
    CountClearUpdate(bits, FirstClear(bits), true);
    forall rest: seq<int> {
      PaintedCons(bits, FirstClear(bits), rest, true);
    }
  }

  /** A list of picks that is not short had that many clear bits to pick from. */
  lemma {:induction false} PicksFit(bits: seq<bool>, n: nat)
    requires |Picks(bits, n)| == n
    ensures n <= CountClear(bits)
    decreases n
  {
    if n > 0 {
      FirstPick(bits, n);
      PicksFit(bits[FirstClear(bits) := true], n - 1);
    }
  }

  /** The first pick is the first clear bit, and the others come behind it. */
  lemma PicksInOrder(bits: seq<bool>, n: nat)
    requires 0 < n <= CountClear(bits)
    ensures var picks, k := Picks(bits, n), FirstClear(bits);
            |picks| == n && picks[0] == k < |bits| && forall i :: 0 < i < n ==> k < picks[i]
  {
    CountClearZero(bits);
    PicksAreFresh(bits, n);
    hide FirstClear;
  }

  lemma PickFirst(bits: seq<bool>, k: nat)
    requires k < |bits| && !bits[k] && forall i :: 0 <= i < k ==> bits[i]
    ensures FirstClear(bits) == k && Picks(bits, 1) == [k] && Painted(bits, [k], true) == bits[k := true]
    ensures CountClear(bits) >= 1
  {
    assert FirstClear(bits) == k;
    FirstPick(bits, 1);
    CountClearZero(bits);
    hide FirstClear, CountClear;
  }

  lemma PickNone(bits: seq<bool>)
    ensures Picks(bits, 0) == []
    ensures forall on :: Painted(bits, [], on) == bits
  {
  }

  /** One more Find while n > 0 picks are still owed and the picks so far explain the map. */
  lemma PickOne(before: seq<bool>, done: seq<int>, bits: seq<bool>, n: nat)
    requires bits == Painted(before, done, true) && 0 < n <= CountClear(bits)
    ensures var k := FirstClear(bits);
            && k < |bits|
            && Picks(bits, n) == [k] + Picks(bits[k := true], n - 1)
            && bits[k := true] == Painted(before, done + [k], true)
            && CountClear(bits[k := true]) == CountClear(bits) - 1
  {
    CountClearZero(bits);
    CountClearUpdate(bits, FirstClear(bits), true);
  }

  class BitMap {
    const numBits: nat
    const words: array<word>

    ghost predicate Valid() {
      words.Length == DivRoundUp(numBits, 32)
    }

    ghost function Bits(): (bits: seq<bool>)
      reads words
      requires Valid()
      ensures |bits| == numBits
    {
      BitsOf(words[..], numBits)
    }

    constructor (nitems: nat)
      ensures Valid() && fresh(words) && numBits == nitems
      ensures Bits() == seq(nitems, _ => false)
    {
      numBits := nitems;
      words := new word[DivRoundUp(nitems, 32)];
      new;
      for i := 0 to numBits
        invariant forall j :: 0 <= j < i ==> !Bits()[j]
      {
        Clear(i);
      }
    }

    method Mark(which: int)
      requires Valid() && 0 <= which < numBits
      modifies words
      ensures Bits() == old(Bits())[which := true]
    {
      var w, b := which / 32, which % 32;
      words[w] := MaskedWord(words[w], b, true);
      assert forall j :: 0 <= j < numBits && j / 32 == w && j % 32 == b ==> j == which;
      assert Bits() == old(Bits())[which := true];
    }

    method Clear(which: int)
      requires Valid() && 0 <= which < numBits
      modifies words
      ensures Bits() == old(Bits())[which := false]
    {
      var w, b := which / 32, which % 32;
      words[w] := MaskedWord(words[w], b, false);
      assert forall j :: 0 <= j < numBits && j / 32 == w && j % 32 == b ==> j == which;
      assert Bits() == old(Bits())[which := false];
    }

    method Test(which: int) returns (on: bool)
      requires Valid() && 0 <= which < numBits
      ensures on == Bits()[which]
    {
      on := BitOf(words[which / 32], which % 32);
    }

    method Find() returns (found: int)
      requires Valid()
      modifies words
      ensures var before := old(Bits()); var k := FirstClear(before);
              if k < numBits then found == k && Bits() == before[k := true]
              else found == -1 && Bits() == before
    {
      for i := 0 to numBits
        invariant words[..] == old(words[..])
        invariant forall j :: 0 <= j < i ==> Bits()[j]
      {
        var on := Test(i);
        if !on {
          Mark(i);
          return i;
        }
      }
      assert FirstClear(Bits()) == numBits;
      return -1;
    }

    method NumClear() returns (count: int)
      requires Valid()
      ensures count == CountClear(Bits())
    {
      count := 0;
      for i := 0 to numBits
        invariant count == CountClear(Bits()[..i])
      {
        var on := Test(i);
        if !on {
          count := count + 1;
        }
        assert Bits()[..i + 1][..i] == Bits()[..i];
      }
      assert Bits()[..numBits] == Bits();
    }
  }
}
