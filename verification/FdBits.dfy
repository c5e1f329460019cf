/** Descriptor bitmaps: words of `WORD_BITS` bits, read and cleared bit by bit. */
module FdBits {
  import opened Words

  /** `8 * sizeof(long)`, left open. */
  const WORD_BITS: Positive

  /** The number of bits up to the highest one set. */
  function Width(w: nat): nat
  {
    if w == 0 then 0 else 1 + Width(w / 2)
  }

  type Word = w: nat | Width(w) <= WORD_BITS witness 0

  predicate Bit(w: nat, i: nat)
  {
    if i == 0 then w % 2 == 1 else Bit(w / 2, i - 1)
  }

  lemma {:induction false} BitBelowWidth(w: nat, i: nat)
    requires Bit(w, i)
    ensures w != 0 && i < Width(w)
  {
    if i > 0 {
      BitBelowWidth(w / 2, i - 1);
    }
  }

  /** `w & ~(1 << i)` */
  function ClearBit(w: nat, i: nat): (r: nat)
    ensures r <= w
  {
    if i == 0 then w - w % 2 else 2 * ClearBit(w / 2, i - 1) + w % 2
  }

  lemma {:induction false} ClearBitMeaning(w: nat, i: nat, j: nat)
    ensures Bit(ClearBit(w, i), j) <==> j != i && Bit(w, j)
  {
    var r := ClearBit(w, i);
    if i > 0 && j > 0 {
      ClearBitMeaning(w / 2, i - 1, j - 1);
      assert r / 2 == ClearBit(w / 2, i - 1);
    } else if i == 0 && j > 0 {
      assert r / 2 == w / 2;
    }
  }

  lemma {:induction false} WidthMonotone(v: nat, w: nat)
    requires v <= w
    ensures Width(v) <= Width(w)
  {
    if v > 0 {
      WidthMonotone(v / 2, w / 2);
    }
  }

  function Cleared(w: Word, i: nat): (r: Word)
  {
    WidthMonotone(ClearBit(w, i), w);
    ClearBit(w, i)
  }

  // ---------------------------------------------------------------- bitmaps

  function WordOf(i: nat): nat
  {
    i / WORD_BITS
  }

  function PlaceOf(i: nat): (r: nat)
    ensures r < WORD_BITS
  {
    i % WORD_BITS
  }

  /** `FD_ISSET` */
  predicate IsSet(words: seq<Word>, i: nat)
  {
    WordOf(i) < |words| && Bit(words[WordOf(i)], PlaceOf(i))
  }

  lemma PositionUnique(i: nat, j: nat)
    requires WordOf(i) == WordOf(j) && PlaceOf(i) == PlaceOf(j)
    ensures i == j
  {
    DivisionFacts(i, WORD_BITS);
    DivisionFacts(j, WORD_BITS);
  }

  lemma PositionOf(w: nat, k: nat)
    requires k < WORD_BITS
    ensures WordOf(w * WORD_BITS + k) == w && PlaceOf(w * WORD_BITS + k) == k
  {
    RemainderUnique(w * WORD_BITS + k, WORD_BITS, w, k);
  }

  lemma PositionInside(i: nat, w: nat)
    ensures i < w * WORD_BITS <==> WordOf(i) < w
  {
    DivisionFacts(i, WORD_BITS);
    BelowMultiple(i, WordOf(i), i % WORD_BITS, w, WORD_BITS);
  }

  lemma Scaled(a: nat, b: nat, n: nat)
    requires a <= b
    ensures a * n <= b * n && (a + 1) * n == n * a + n && b * n == n * b
  {
    var d := b - a;
    assert b * n == a * n + d * n;
  }

  lemma BelowMultiple(i: nat, q: nat, r: nat, w: nat, n: nat)
    requires i == n * q + r && r < n
    ensures i < w * n <==> q < w
  {
    assert (q + 1) * n == n * q + n;
    if q < w {
      Scaled(q + 1, w, n);
    } else {
      Scaled(w, q, n);
    }
  }

  /** `FD_CLR` */
  function Clear(words: seq<Word>, i: nat): (r: seq<Word>)
    requires WordOf(i) < |words|
    ensures |r| == |words|
  {
    words[WordOf(i) := Cleared(words[WordOf(i)], PlaceOf(i))]
  }

  lemma ClearMeaning(words: seq<Word>, i: nat, j: nat)
    requires WordOf(i) < |words|
    ensures IsSet(Clear(words, i), j) <==> j != i && IsSet(words, j)
  {
    if WordOf(j) == WordOf(i) {
      ClearBitMeaning(words[WordOf(i)], PlaceOf(i), PlaceOf(j));
      if PlaceOf(i) == PlaceOf(j) {
        PositionUnique(i, j);
      }
    }
  }

  /** A bit in a word makes the word count. */
  lemma SetWord(words: seq<Word>, i: nat)
    requires IsSet(words, i)
    ensures words[WordOf(i)] != 0
  {
    BitBelowWidth(words[WordOf(i)], PlaceOf(i));
  }

  /** `w >> b` */
  function Shift(w: nat, b: nat): nat
  {
    if b == 0 then w else Shift(w, b - 1) / 2
  }

  lemma {:induction false} ShiftBit(w: nat, b: nat, c: nat)
    ensures Bit(w, b + c) <==> Bit(Shift(w, b), c)
    decreases b
  {
    if b > 0 {
      ShiftBit(w, b - 1, c + 1);
    }
  }

  /** Nothing is left to shift out once the word has become zero. */
  lemma ShiftedOut(w: nat, b: nat, c: nat)
    requires Shift(w, b) == 0 && b <= c
    ensures !Bit(w, c)
  {
    ShiftBit(w, b, c - b);
    if Bit(0, c - b) {
      BitBelowWidth(0, c - b);
    }
  }

  lemma {:induction false} ShiftWidth(w: nat, b: nat)
    ensures Width(Shift(w, b)) == if b <= Width(w) then Width(w) - b else 0
  {
    if b > 0 {
      ShiftWidth(w, b - 1);
    }
  }
}
