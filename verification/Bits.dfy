/** The bitwise operations of C on 32-bit words, and what they do to each bit. */
module Bits {
  import opened Words
  import opened BitMaps

  function And(x: nat, y: nat): (z: nat)
    ensures z <= x && z <= y
  {
    if x == 0 || y == 0 then 0 else 2 * And(x / 2, y / 2) + if x % 2 == 1 && y % 2 == 1 then 1 else 0
  }

  lemma {:induction false} AndWidth(x: nat, y: nat, n: nat)
    requires x < Pow2(n) && y < Pow2(n)
    ensures x + y - And(x, y) < Pow2(n)
    decreases n
  {
    if n > 0 {
      AndWidth(x / 2, y / 2, n - 1);
    }
  }

  function Or(x: word, y: word): word {
    WordWidth();
    AndWidth(x, y, 32);
    x + y - And(x, y)
  }

  function Xor(x: word, y: word): word {
    WordWidth();
    AndWidth(x, y, 32);
    x + y - 2 * And(x, y)
  }

  function Not(x: word): word {
    TWO32 - 1 - x
  }

  /** `<<` drops what leaves the word; `>>` of an int copies its sign. */
  function ShiftLeft(x: word, n: nat): word {
    Wrap(x * Pow2(n))
  }

  function ShiftRightSigned(x: word, n: nat): word {
    Wrap(Signed(x) / Pow2(n))
  }

  /** `>>` of an unsigned brings in zeros. */
  function ShiftRightLogical(x: word, n: nat): word {
    QuotientWidth(x, Pow2(n));
    x / Pow2(n)
  }

  lemma QuotientWidth(x: nat, p: nat)
    requires p >= 1
    ensures 0 <= x / p <= x
  {
    QuotientBelow(x, p, 0);
    QuotientBelow(x, p, x + 1);
    MulMonotone(x + 1, 1, p);
  }

  /** A quotient is below k exactly when the dividend is below k multiples of the divisor. */
  lemma QuotientBelow(v: int, p: int, k: int)
    requires p >= 1
    ensures v / p < k <==> v < p * k
  {
    var q, r := v / p, v % p;
    assert v == p * q + r && 0 <= r < p;
    if q < k {
      MulMonotone(p, q, k - 1);
      assert p * (k - 1) == p * k - p;
    } else {
      MulMonotone(p, k, q);
    }
  }

  lemma MulMonotone(p: int, x: int, y: int)
    requires p >= 1 && x <= y
    ensures p * x <= p * y
  {
  }

  // ---- bit by bit ----

  lemma {:induction false} AndBits(x: nat, y: nat, k: nat)
    ensures BitOf(And(x, y), k) <==> BitOf(x, k) && BitOf(y, k)
    decreases k
  {
    if x == 0 || y == 0 {
      NoBits(k);
    } else if k > 0 {
      AndBits(x / 2, y / 2, k - 1);
    }
  }

  lemma {:induction false} NoBits(k: nat)
    ensures !BitOf(0, k)
  {
    if k > 0 {
      NoBits(k - 1);
    }
  }

  /** Two numbers of n bits are equal when their bits are. */
  lemma {:induction false} SameBits(x: nat, y: nat, n: nat)
    requires x < Pow2(n) && y < Pow2(n) && forall k :: 0 <= k < n ==> (BitOf(x, k) <==> BitOf(y, k))
    ensures x == y
    decreases n
  {
    if n > 0 {
      forall k | 0 <= k < n - 1
        ensures BitOf(x / 2, k) <==> BitOf(y / 2, k)
      {
        assert BitOf(x, k + 1) <==> BitOf(y, k + 1);
      }
      SameBits(x / 2, y / 2, n - 1);
      assert BitOf(x, 0) <==> BitOf(y, 0);
    }
  }

  lemma {:induction false} SumBits(x: nat, y: nat, k: nat)
    ensures BitOf(x + y - And(x, y), k) <==> BitOf(x, k) || BitOf(y, k)
    ensures x + y >= 2 * And(x, y) && (BitOf(x + y - 2 * And(x, y), k) <==> BitOf(x, k) != BitOf(y, k))
    decreases k
  {
    if x == 0 || y == 0 {
      NoBits(k);
    } else {
      AndHalves(x, y);
      if k > 0 {
        SumBits(x / 2, y / 2, k - 1);
      }
    }
  }

  lemma AndHalves(x: nat, y: nat)
    requires x != 0 && y != 0
    ensures var h, z := And(x / 2, y / 2), And(x, y);
            && (x + y - z) / 2 == x / 2 + y / 2 - h && (x + y - 2 * z) / 2 == x / 2 + y / 2 - 2 * h
            && ((x + y - z) % 2 == 1 <==> x % 2 == 1 || y % 2 == 1)
            && ((x + y - 2 * z) % 2 == 1 <==> (x % 2 == 1) != (y % 2 == 1))
  {
    hide And;
    var h := And(x / 2, y / 2);
    assert And(x, y) == 2 * h + if x % 2 == 1 && y % 2 == 1 then 1 else 0 by { AndStep(x, y); }
  }

  lemma AndStep(x: nat, y: nat)
    requires x != 0 && y != 0
    ensures And(x, y) == 2 * And(x / 2, y / 2) + if x % 2 == 1 && y % 2 == 1 then 1 else 0
  {
  }

  lemma OrBits(x: word, y: word, k: nat)
    ensures BitOf(Or(x, y), k) <==> BitOf(x, k) || BitOf(y, k)
  {
    SumBits(x, y, k);
  }

  lemma XorBits(x: word, y: word, k: nat)
    ensures BitOf(Xor(x, y), k) <==> BitOf(x, k) != BitOf(y, k)
  {
    SumBits(x, y, k);
  }

  lemma {:induction false} ComplementBits(x: nat, n: nat, k: nat)
    requires x < Pow2(n) && k < n
    ensures BitOf(Pow2(n) - 1 - x, k) <==> !BitOf(x, k)
    decreases k
  {
    hide Pow2;
    Pow2Step(n);
    HalfBelow(x, Pow2(n - 1));
    if k > 0 {
      ComplementBits(x / 2, n - 1, k - 1);
    }
  }

  lemma NotBits(x: word, k: nat)
    requires k < 32
    ensures BitOf(Not(x), k) <==> !BitOf(x, k)
  {
    hide Pow2;
    WordWidth();
    ComplementBits(x, 32, k);
  }

  // ---- shifts ----

  /** Bit k of an int in two's complement, any number of places up. */
  ghost predicate IntBit(v: int, k: nat)
    decreases k
  {
    if k == 0 then v % 2 == 1 else IntBit(v / 2, k - 1)
  }

  lemma {:induction false} IntBitOfNat(v: nat, k: nat)
    ensures IntBit(v, k) <==> BitOf(v, k)
    decreases k
  {
    if k > 0 {
      IntBitOfNat(v / 2, k - 1);
    }
  }

  /** Multiples of 2^n do not reach below bit n. */
  lemma {:induction false} IntBitModulo(v: int, c: int, n: nat, k: nat)
    requires k < n
    ensures IntBit(v + c * Pow2(n), k) <==> IntBit(v, k)
    decreases k
  {
    hide Pow2;
    Pow2Step(n);
    var q := c * Pow2(n - 1);
    assert c * (2 * Pow2(n - 1)) == 2 * q;
    assert (v + 2 * q) / 2 == v / 2 + q && (v + 2 * q) % 2 == v % 2;
    if k > 0 {
      IntBitModulo(v / 2, c, n - 1, k - 1);
    }
  }

  lemma WrapBits(v: int, k: nat)
    requires k < 32
    ensures BitOf(Wrap(v), k) <==> IntBit(v, k)
  {
    hide Pow2;
    WordWidth();
    var c := v / TWO32;
    assert v == Wrap(v) + c * TWO32;
    IntBitModulo(Wrap(v), c, 32, k);
    IntBitOfNat(Wrap(v), k);
  }

  lemma {:induction false} IntBitUp(v: int, n: nat, k: nat)
    ensures IntBit(v * Pow2(n), k) <==> n <= k && IntBit(v, k - n)
    decreases n
  {
    hide Pow2;
    if n == 0 {
      assert Pow2(0) == 1 by { PowZero(); }
    } else {
      Pow2Step(n);
      var q := v * Pow2(n - 1);
      assert v * (2 * Pow2(n - 1)) == 2 * q;
      if k > 0 {
        IntBitUp(v, n - 1, k - 1);
      }
    }
  }

  lemma PowZero()
    ensures Pow2(0) == 1
  {
  }

  lemma {:induction false} IntBitDown(v: int, n: nat, k: nat)
    ensures IntBit(v / Pow2(n), k) <==> IntBit(v, k + n)
    decreases n
  {
    hide Pow2;
    if n == 0 {
      PowZero();
    } else {
      Pow2Step(n);
      HalfThenDivide(v, Pow2(n - 1));
      IntBitDown(v / 2, n - 1, k);
    }
  }

  lemma HalfThenDivide(v: int, p: nat)
    requires p >= 1
    ensures v / (2 * p) == v / 2 / p
  {
    var h := v / 2;
    var q, s := h / p, h % p;
    assert h == p * q + s && 0 <= s < p;
    assert v == 2 * (p * q) + (2 * s + v % 2) && 0 <= 2 * s + v % 2 < 2 * p;
    assert 2 * (p * q) == (2 * p) * q;
    QuotientIs(v, 2 * p, q);
  }

  lemma QuotientIs(v: int, p: nat, q: int)
    requires p >= 1 && p * q <= v < p * q + p
    ensures v / p == q
  {
    var t, r := v / p, v % p;
    assert v == p * t + r && 0 <= r < p;
    assert t < q ==> p * (t + 1) <= p * q;
    assert q < t ==> p * (q + 1) <= p * t;
  }

  /** From bit 31 up, an int has only its sign. */
  lemma {:induction false} SignBits(v: int, n: nat, k: nat)
    requires 0 - Pow2(n) <= v < Pow2(n) && n <= k
    ensures IntBit(v, k) <==> v < 0
    decreases k
  {
    hide Pow2;
    if k == 0 {
      PowZero();
    } else if n == 0 {
      PowZero();
      SignBits(v / 2, 0, k - 1);
    } else {
      Pow2Step(n);
      SignBits(v / 2, n - 1, k - 1);
    }
  }

  lemma SignedBits(x: word, k: nat)
    ensures IntBit(Signed(x), k) <==> BitOf(x, if k < 32 then k else 31)
  {
    hide Pow2;
    WordWidth();
    Pow2Step(32);
    if k < 32 {
      IntBitModulo(Signed(x), if x < TWO31 then 0 else 1, 32, k);
      IntBitOfNat(x, k);
    } else {
      SignBits(Signed(x), 31, k);
      SignBits(Signed(x), 31, 31);
      SignedBits(x, 31);
    }
  }

  /** `<<` moves bits up and brings in zeros. */
  lemma ShiftLeftBits(x: word, n: nat, k: nat)
    requires k < 32
    ensures BitOf(ShiftLeft(x, n), k) <==> n <= k && BitOf(x, k - n)
  {
    hide Pow2;
    WrapBits(x * Pow2(n), k);
    IntBitUp(x, n, k);
    if n <= k {
      IntBitOfNat(x, k - n);
    }
  }

  /** `>>` of an int moves bits down and brings in copies of the sign. */
  lemma ShiftRightSignedBits(x: word, n: nat, k: nat)
    requires k < 32
    ensures BitOf(ShiftRightSigned(x, n), k) <==> BitOf(x, if k + n < 32 then k + n else 31)
  {
    hide Pow2;
    WrapBits(Signed(x) / Pow2(n), k);
    IntBitDown(Signed(x), n, k);
    SignedBits(x, k + n);
  }

  /** `>>` of an unsigned moves bits down and brings in zeros. */
  lemma ShiftRightLogicalBits(x: word, n: nat, k: nat)
    requires k < 32
    ensures BitOf(ShiftRightLogical(x, n), k) <==> k + n < 32 && BitOf(x, k + n)
  {
    hide Pow2;
    IntBitDown(x, n, k);
    IntBitOfNat(x, k + n);
    IntBitOfNat(x / Pow2(n), k);
    if 32 <= k + n {
      WordWidth();
      SignBits(x, 32, k + n);
    }
  }
}
