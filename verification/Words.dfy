/**
  Machine words: bit masks, page rounding and the byte layout of words.

  The kernel writes `x & (s - 1)` and `(x + s - 1) & ~(s - 1)` for a power of two `s`.
  The models write the remainder and the multiple; `MaskIsRemainder` and `AlignIsMask`
  show that for a power of two these are the same numbers.
 */
module Words {

  newtype byte = x: int | 0 <= x < 256

  /** The page size is left open; it is larger than any word. */
  const PAGE_SIZE: PageSize

  lemma Regroup<T>(a: seq<T>, b: seq<T>, c: seq<T>)
    ensures (a + b) + c == a + (b + c)
  {}

  lemma Halves<T>(a: seq<T>, b: seq<T>)
    ensures (a + b)[..|a|] == a && (a + b)[|a|..] == b
  {}

  lemma SliceSplit<T>(s: seq<T>, i: nat, j: nat, k: nat)
    requires i <= j <= k <= |s|
    ensures s[i..k] == s[i..j] + s[j..k]
  {}

  lemma PrefixSplit<T>(s: seq<T>, i: nat, j: nat)
    requires i <= j <= |s|
    ensures s[..j] == s[..i] + s[i..j]
  {}

  lemma PrefixRest<T>(p: seq<T>, s: seq<T>)
    requires p <= s
    ensures s == p + s[|p|..]
  {}

  /** Bitwise and. */
  function And(a: nat, b: nat): nat
    decreases a
  {
    if a == 0 || b == 0 then 0 else 2 * And(a / 2, b / 2) + (a % 2) * (b % 2)
  }

  predicate IsPowerOfTwo(n: nat)
  {
    n == 1 || (n > 1 && n % 2 == 0 && IsPowerOfTwo(n / 2))
  }

  type Positive = n: nat | 0 < n witness 1

  type PageSize = n: nat | 16 <= n witness 4096

  lemma DivisionFacts(x: nat, s: Positive)
    ensures x == s * (x / s) + x % s && 0 <= x % s < s && x % s <= x
  {
    assert s * (x / s) >= 0;
  }

  lemma RemainderUnique(k: int, n: int, q: int, r: int)
    requires 0 < n && 0 <= r < n && k == n * q + r
    ensures k / n == q && k % n == r
  {
    var q', r' := k / n, k % n;
    assert k == n * q' + r';
    assert n * (q - q') == r' - r;
    assert q - q' >= 1 ==> n * (q - q') >= n;
    assert q - q' <= -1 ==> n * (q - q') <= -n;
  }

  lemma RemainderFacts(k: nat, n: nat)
    requires 0 < n
    ensures k % n <= k && k % n < n
    ensures k < n ==> k % n == k
    ensures n <= k < 2 * n ==> k % n == k - n
  {
    if k < n {
      RemainderUnique(k, n, 0, k);
    } else if k < 2 * n {
      RemainderUnique(k, n, 1, k - n);
    }
  }

  lemma HalveRemainder(k: nat, m: nat)
    requires m > 0
    ensures k % (2 * m) == 2 * (k / 2 % m) + k % 2
  {
    var h := k / 2;
    var q := h / m;
    assert h == m * q + h % m;
    assert k == (2 * m) * q + (2 * (h % m) + k % 2);
    RemainderUnique(k, 2 * m, q, 2 * (h % m) + k % 2);
  }

  /** Masking with `n - 1` is the remainder by `n`. */
  lemma {:induction false} MaskIsRemainder(k: nat, n: nat)
    requires IsPowerOfTwo(n)
    ensures And(k, n - 1) == k % n
    decreases n
  {
    if n > 1 {
      MaskIsRemainder(k / 2, n / 2);
      HalveRemainder(k, n / 2);
      assert (n - 1) / 2 == n / 2 - 1 && (n - 1) % 2 == 1;
    }
  }

  /** The largest multiple of `s` up to `x`; for a power of two this is `x & ~(s - 1)`. */
  function AlignDown(x: nat, s: Positive): (r: nat)
    ensures r % s == 0 && r <= x < r + s
  {
    DivisionFacts(x, s);
    RemainderUnique(x - x % s, s, x / s, 0);
    x - x % s
  }

  /** The kernel's `PAGE_ALIGN` and `ROUND_UP`: `(x + s - 1) & ~(s - 1)`. */
  function AlignUp(x: nat, s: Positive): (r: nat)
    ensures r % s == 0 && x <= r < x + s
  {
    AlignDown(x + s - 1, s)
  }

  /** Aligning to a power of two clears exactly the bits under the mask. */
  lemma AlignIsMask(x: nat, s: Positive)
    requires IsPowerOfTwo(s)
    ensures AlignDown(x, s) == x - And(x, s - 1)
  {
    MaskIsRemainder(x, s);
  }

  lemma AlignedStays(x: nat, s: Positive)
    requires x % s == 0
    ensures AlignDown(x, s) == x == AlignUp(x, s)
  {
    DivisionFacts(x, s);
    RemainderUnique(x + s - 1, s, x / s, s - 1);
  }

  /** 256 to the power `w`: the number of values a word of `w` bytes can hold. */
  function WordValues(w: nat): (r: nat)
    ensures r >= 1
  {
    if w == 0 then 1 else 256 * WordValues(w - 1)
  }

  /** The `w` bytes that storing `v` writes, least significant first; higher bytes are lost. */
  function Encode(v: nat, w: nat): (s: seq<byte>)
    ensures |s| == w
    decreases w
  {
    if w == 0 then [] else [(v % 256) as byte] + Encode(v / 256, w - 1)
  }

  /** The value that loading the bytes of `s` yields. */
  function Decode(s: seq<byte>): nat
  {
    if s == [] then 0 else s[0] as nat + 256 * Decode(s[1..])
  }

  /** A word that fits survives a store and a load. */
  lemma {:induction false} StoreLoad(v: nat, w: nat)
    requires v < WordValues(w)
    ensures Decode(Encode(v, w)) == v
    decreases w
  {
    if w > 0 {
      StoreLoad(v / 256, w - 1);
      assert Encode(v, w)[1..] == Encode(v / 256, w - 1);
    }
  }
}
