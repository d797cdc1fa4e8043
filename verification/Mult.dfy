/** machine/mipssim.cc, Mult: the R2000's 32 x 32 -> 64 multiplication, one bit of `a` at a time. */
module Multiply {
  import opened Words

  /** The 64-bit number held in a pair of 32-bit halves. */
  function Pair(hi: word, lo: word): nat {
    hi * TWO32 + lo
  }

  /** A double-word addition that cannot overflow, done in halves with an explicit carry. */
  method AddPair(hi0: word, lo0: word, bHi: word, bLo: word) returns (hi: word, lo: word)
    requires Pair(hi0, lo0) + Pair(bHi, bLo) < TWO32 * TWO32
    ensures Pair(hi, lo) == Pair(hi0, lo0) + Pair(bHi, bLo)
  {
    lo := AddWord(lo0, bLo);
    hi := hi0;
    if lo < bLo {
      hi := AddWord(hi, 1);
    }
    hi := AddWord(hi, bHi);
  }

  /** bHi:bLo <<= 1, with the bit that leaves bLo carried into bHi. */
  method DoublePair(bHi0: word, bLo0: word) returns (bHi: word, bLo: word)
    requires 2 * Pair(bHi0, bLo0) < TWO32 * TWO32
    ensures Pair(bHi, bLo) == 2 * Pair(bHi0, bLo0)
  {
    bHi := AddWord(bHi0, bHi0);
    if bLo0 >= TWO31 {
      bHi := AddWord(bHi, 1);
    }
    bLo := AddWord(bLo0, bLo0);
  }

  ghost function Times(x: nat, y: nat): nat {
    x * y
  }

  /** After i turns: `rem` is the part of the multiplier still to be read, of which `x` is C's signed picture, `acc` the
      sum so far and `bb` the multiplicand shifted up i places. */
  ghost predicate Partway(i: nat, x: int, rem: nat, acc: nat, bb: nat, a: int32, b: word) {
    && i <= 32
    && rem < Pow2(32 - i)
    && x == rem - (if a < 0 then Pow2(32 - i) else 0)
    && acc + Times(rem, bb) == Times(Unsigned(a), b)
    && Times(Pow2(32 - i), bb) == TWO32 * b
  }

  /** A bit of the multiplier is worth one addition now or nothing; half the multiplier with a doubled multiplicand is
      worth the rest; nothing reaches 2^64; and the early exit leaves nothing out. */
  lemma Turn(i: nat, x: int, rem: nat, acc: nat, bb: nat, a: int32, b: word)
    requires i < 32 && Partway(i, x, rem, acc, bb, a, b)
    ensures var acc2 := acc + if x % 2 == 1 then bb else 0;
            && acc2 < TWO32 * TWO32 && 2 * bb < TWO32 * TWO32
            && Partway(i + 1, x / 2, rem / 2, acc2, 2 * bb, a, b)
            && (x == 1 ==> acc2 == Times(Unsigned(a), b))
  {
    var p := Pow2(32 - i);
    Pow2Step(32 - i);
    assert x % 2 == rem % 2;
    HalvesAndDoubles(rem, bb);
    HalvesAndDoubles(p, bb);
    TimesMonotone(Unsigned(a), b, TWO32 - 1, TWO32 - 1);
    TimesMonotone(1, 2 * bb, p / 2, 2 * bb);
    TimesOneZero(2 * bb);
  }

  lemma HalvesAndDoubles(r: nat, bb: nat)
    ensures Times(r, bb) == Times(r / 2, 2 * bb) + if r % 2 == 1 then bb else 0
  {
    assert r == 2 * (r / 2) + r % 2;
  }

  lemma TimesMonotone(x: nat, y: nat, m: nat, n: nat)
    requires x <= m && y <= n
    ensures Times(x, y) <= Times(m, n)
  {
    assert x * y <= m * y;
    assert m * y <= m * n;
  }

  lemma TimesOneZero(bb: nat)
    ensures Times(1, bb) == bb && Times(0, bb) == 0
  {
  }

  lemma Start(a: int32, b: word)
    ensures Partway(0, a, Unsigned(a), 0, b, a, b)
  {
    WordWidth();
  }

  lemma Finish(x: int, rem: nat, acc: nat, bb: nat, a: int32, b: word)
    requires Partway(32, x, rem, acc, bb, a, b)
    ensures acc == Times(Unsigned(a), b)
  {
  }

  /** `x` is the multiplier as C's int, so the loop shifts it arithmetically; only its low 32 - i bits are still to
      be read. */
  method MultiplyMagnitudes(a: int32, b: word) returns (hi: word, lo: word)
    ensures Pair(hi, lo) == Times(Unsigned(a), b)
  {
    var x: int32 := a;
    var bHi: word, bLo: word := 0, b;
    hi, lo := 0, 0;
    ghost var rem := Unsigned(a);
    Start(a, b);
    assert Pair(bHi, bLo) == b && Pair(hi, lo) == 0;
    hide Times, Pair, Unsigned, Partway;
    for i := 0 to 32
      invariant Partway(i, x, rem, Pair(hi, lo), Pair(bHi, bLo), a, b)
    {
      Turn(i, x, rem, Pair(hi, lo), Pair(bHi, bLo), a, b);
      if x % 2 == 1 {
        hi, lo := AddPair(hi, lo, bHi, bLo);
        if x == 1 {
          return;
        }
      }
      bHi, bLo := DoublePair(bHi, bLo);
      x := x / 2;
      rem := rem / 2;
    }
    Finish(x, rem, Pair(hi, lo), Pair(bHi, bLo), a, b);
  }

  /** C's unary minus on an int: -2^31 is its own negation. */
  function Negated(x: int): int32 {
    Signed(Wrap(-x))
  }

  /** The whole instruction: MULT when `signedArith`, MULTU otherwise.  The pair (hi, lo) is the exact 64-bit product
      of the operands, read as two's-complement or as unsigned numbers, for every pair of operands. */
  method Mult(a: int32, b: int32, signedArith: bool) returns (hi: word, lo: word)
    ensures signedArith ==> Signed(hi) * TWO32 + lo == a * b
    ensures !signedArith ==> Pair(hi, lo) == Unsigned(a) * Unsigned(b)
  {
    hide Times, Negated;
    if a == 0 || b == 0 {
      return 0, 0;
    }
    var negative := false;
    var x, y := a, b;
    if signedArith {
      if x < 0 {
        negative := !negative;
        x := Negated(x);
      }
      if y < 0 {
        negative := !negative;
        y := Negated(y);
      }
      NegatedIsMagnitude(a);
      NegatedIsMagnitude(b);
    }
    hi, lo := MultiplyMagnitudes(x, Unsigned(y));
    if signedArith {
      SignOfProduct(a, b);
    } else {
      TimesIsProduct(Unsigned(a), Unsigned(b));
    }
    if negative {
      hi, lo := NegatePair(hi, lo);
    }
  }

  /** Read as unsigned, the negation of a negative int is its magnitude, also for -2^31. */
  lemma NegatedIsMagnitude(a: int32)
    ensures Unsigned(if a < 0 then Negated(a) else a) == Magnitude(a)
  {
  }

  /** ~hi:~lo plus one, carrying from lo into hi. */
  method NegatePair(hi0: word, lo0: word) returns (hi: word, lo: word)
    requires 0 < Pair(hi0, lo0) <= TWO31 * TWO31
    ensures Signed(hi) * TWO32 + lo == 0 - Pair(hi0, lo0)
  {
    hi := TWO32 - 1 - hi0;
    lo := TWO32 - 1 - lo0;
    lo := AddWord(lo, 1);
    if lo == 0 {
      hi := AddWord(hi, 1);
    }
  }

  function Magnitude(a: int): nat {
    if a < 0 then -a else a
  }

  lemma TimesIsProduct(x: nat, y: nat)
    ensures Times(x, y) == x * y
  {
  }

  /** The magnitudes multiply to the magnitude of the product, which fits 63 bits, so its sign is the only thing
      left. */
  lemma SignOfProduct(a: int32, b: int32)
    ensures var m := Times(Magnitude(a), Magnitude(b));
            && a * b == (if (a < 0) == (b < 0) then m else 0 - m)
            && m <= TWO31 * TWO31
            && (a != 0 && b != 0 ==> m > 0)
  {
    var x, y := Magnitude(a), Magnitude(b);
    TimesMonotone(x, y, TWO31, TWO31);
    assert a * b == (if (a < 0) == (b < 0) then Times(x, y) else 0 - Times(x, y));
    if x > 0 && y > 0 {
      TimesMonotone(1, 1, x, y);
    }
  }
}
