/** Machine arithmetic and the byte image of 32-bit words, as a little-endian 32-bit host lays them out.
    C's `int` is `int32`, C's `unsigned int` is `word`; every wrap-around is written out. */
module Words {
  const TWO31: int := 0x8000_0000
  const TWO32: int := 0x1_0000_0000

  type byte = x: int | 0 <= x < 256
  type word = x: int | 0 <= x < TWO32
  type int32 = x: int | -TWO31 <= x < TWO31

  /** Two's-complement reading of a word, and the words that hold an int and an integer modulo 2^32. */
  function Signed(w: word): int32 {
    if w < TWO31 then w else w - TWO32
  }

  function Unsigned(i: int32): word {
    if i < 0 then i + TWO32 else i
  }

  function Wrap(i: int): word {
    i % TWO32
  }

  /** Unsigned addition of two words. */
  function AddWord(x: word, y: word): (r: word)
    ensures r == if x + y < TWO32 then x + y else x + y - TWO32
  {
    Wrap(x + y)
  }

  lemma SignedUnsigned(i: int32)
    ensures Signed(Unsigned(i)) == i
  {
  }

  /** C's `/` and `%` truncate toward zero. */
  function CDiv(n: int, d: int): int
    requires d != 0
  {
    if n >= 0 then n / d else -((-n) / d)
  }

  function CMod(n: int, d: int): int
    requires d != 0
  {
    n - d * CDiv(n, d)
  }

  function DivRoundUp(n: int, s: int): int
    requires s > 0
  {
    CDiv(n, s) + if CMod(n, s) > 0 then 1 else 0
  }

  /** For the non-negative sizes a caller means, DivRoundUp is the least number of blocks of s bytes that hold n. */
  lemma DivRoundUpIsLeast(n: int, s: int)
    requires s > 0
    ensures n >= 0 ==> DivRoundUp(n, s) >= 0 && (DivRoundUp(n, s) - 1) * s < n <= DivRoundUp(n, s) * s
    ensures n <= 0 ==> DivRoundUp(n, s) <= 0
  {
    if n >= 0 {
      assert n == s * (n / s) + n % s;
    } else {
      assert -n == s * ((-n) / s) + (-n) % s;
      assert CMod(n, s) == -((-n) % s);
    }
  }

  function Pow2(k: nat): (p: nat)
    ensures p >= 1
  {
    if k == 0 then 1 else 2 * Pow2(k - 1)
  }

  lemma Pow2Step(k: nat)
    requires k > 0
    ensures Pow2(k) == 2 * Pow2(k - 1)
  {
  }

  lemma WordWidth()
    ensures Pow2(32) == TWO32
  {
    assert Pow2(8) == 0x100;
    assert Pow2(16) == 0x1_0000;
    assert Pow2(24) == 0x100_0000;
  }

  // ---- words as bytes ----

  function WordBytes(w: word): (bs: seq<byte>)
    ensures |bs| == 4
  {
    var w1 := w / 0x100;
    var w2 := w1 / 0x100;
    [w % 0x100, w1 % 0x100, w2 % 0x100, w2 / 0x100]
  }

  function WordOf(bs: seq<byte>): word
    requires |bs| == 4
  {
    var b0: int, b1: int, b2: int, b3: int := bs[0], bs[1], bs[2], bs[3];
    b0 + 0x100 * (b1 + 0x100 * (b2 + 0x100 * b3))
  }

  /** The least significant byte comes first. */
  lemma WordBytesAre(w: word)
    ensures var bs := WordBytes(w);
            w == bs[0] + 0x100 * (bs[1] as int) + 0x1_0000 * (bs[2] as int) + 0x100_0000 * (bs[3] as int)
  {
  }

  lemma WordOfIs(bs: seq<byte>)
    requires |bs| == 4
    ensures WordOf(bs) == bs[0] + 0x100 * (bs[1] as int) + 0x1_0000 * (bs[2] as int) + 0x100_0000 * (bs[3] as int)
  {
  }

  lemma WordRoundTrip(w: word)
    ensures WordOf(WordBytes(w)) == w
  {
  }

  lemma BytesOfWord(bs: seq<byte>)
    requires |bs| == 4
    ensures WordBytes(WordOf(bs)) == bs
  {
    var b0: int, b1: int, b2: int, b3: int := bs[0], bs[1], bs[2], bs[3];
    var w3 := b2 + 0x100 * b3;
    var w2 := b1 + 0x100 * w3;
    assert (b0 + 0x100 * w2) / 0x100 == w2 && (b0 + 0x100 * w2) % 0x100 == b0;
    assert (b1 + 0x100 * w3) / 0x100 == w3 && (b1 + 0x100 * w3) % 0x100 == b1;
  }

  function WordsToBytes(ws: seq<word>): (bs: seq<byte>)
    ensures |bs| == 4 * |ws|
  {
    seq(4 * |ws|, k requires 0 <= k < 4 * |ws| => WordBytes(ws[k / 4])[k % 4])
  }

  function BytesToWords(bs: seq<byte>): (ws: seq<word>)
    ensures |ws| == |bs| / 4
  {
    seq(|bs| / 4, i requires 0 <= i < |bs| / 4 => WordOf(bs[4 * i..4 * i + 4]))
  }

  lemma WordsToBytesSlice(ws: seq<word>, i: nat)
    requires i < |ws|
    ensures WordsToBytes(ws)[4 * i..4 * i + 4] == WordBytes(ws[i])
  {
    forall j | 0 <= j < 4
      ensures WordsToBytes(ws)[4 * i..4 * i + 4][j] == WordBytes(ws[i])[j]
    {
      assert (4 * i + j) / 4 == i && (4 * i + j) % 4 == j;
    }
  }

  lemma WordsRoundTrip(ws: seq<word>)
    ensures BytesToWords(WordsToBytes(ws)) == ws
  {
    var bs := WordsToBytes(ws);
    forall i | 0 <= i < |ws|
      ensures WordOf(bs[4 * i..4 * i + 4]) == ws[i]
    {
      WordsToBytesSlice(ws, i);
      WordRoundTrip(ws[i]);
    }
  }
}
