/**
  The exec argument area as one flat array of `MAX_ARG_PAGES` pages. A cell is `None` as long as
  its page has not been allocated. The pages of `ArgPages` refine this array.
 */
module ArgImage {
  import opened Words
  import opened Memory
  import opened Options

  const MAX_ARG_PAGES: Positive

  type Image = seq<Option<byte>>

  function Total(): (n: nat)
    ensures n % PAGE_SIZE == 0 && n >= PAGE_SIZE
  {
    RemainderUnique(MAX_ARG_PAGES * PAGE_SIZE, PAGE_SIZE, MAX_ARG_PAGES, 0);
    MAX_ARG_PAGES * PAGE_SIZE
  }

  /** Where `do_execve` lets the strings end: a pointer's width below the top. */
  function Room(): (n: nat)
    ensures Total() - PAGE_SIZE < n < Total()
  {
    Total() - POINTER_SIZE
  }

  // ---------------------------------------------------------------- page rounding

  function Down(x: nat): (r: nat)
    ensures r % PAGE_SIZE == 0 && r <= x < r + PAGE_SIZE
  {
    AlignDown(x, PAGE_SIZE)
  }

  function Up(x: nat): (r: nat)
    ensures r % PAGE_SIZE == 0 && x <= r < x + PAGE_SIZE
  {
    AlignUp(x, PAGE_SIZE)
  }

  lemma PagesApart(a: nat, b: nat)
    requires a % PAGE_SIZE == 0 && b % PAGE_SIZE == 0 && a < b
    ensures a + PAGE_SIZE <= b
  {
    DivisionFacts(a, PAGE_SIZE);
    DivisionFacts(b, PAGE_SIZE);
    var apart := b / PAGE_SIZE - a / PAGE_SIZE;
    assert PAGE_SIZE * apart == b - a;
    assert apart >= 1 && PAGE_SIZE * (apart - 1) >= 0;
  }

  /** Rounding is the nearest page boundary. */
  lemma Nearest(a: nat, x: nat)
    requires a % PAGE_SIZE == 0
    ensures a <= x ==> a <= Down(x)
    ensures x <= a ==> Up(x) <= a
    ensures Down(x) < a ==> x < a
    ensures a < Up(x) ==> a < x
  {
    if Down(x) < a {
      PagesApart(Down(x), a);
    }
    if a < Up(x) {
      PagesApart(a, Up(x));
    }
  }

  lemma RoundingOrder(x: nat, y: nat)
    requires x <= y
    ensures Down(x) <= Down(y) && Up(x) <= Up(y)
  {
    Nearest(Down(x), y);
    Nearest(Up(y), x);
  }

  // ---------------------------------------------------------------- writing

  /** A cell after `s` was copied to `at`: the pages touched are allocated, zero where nothing is written. */
  function FillCell(f: Image, at: nat, s: seq<byte>, k: nat): Option<byte>
    requires k < |f|
  {
    if at <= k < at + |s| then Some(s[k - at])
    else if f[k].Some? then f[k]
    else if Down(at) <= k < Up(at + |s|) then Some(0)
    else None
  }

  function Fill(f: Image, at: nat, s: seq<byte>): (r: Image)
    ensures |r| == |f|
    ensures forall k :: 0 <= k < |f| ==> r[k] == FillCell(f, at, s, k)
  {
    seq(|f|, k requires 0 <= k < |f| => FillCell(f, at, s, k))
  }

  /** Copying piece by piece is copying at once. */
  lemma FillPieces(f: Image, at: nat, s: seq<byte>, t: seq<byte>)
    ensures Fill(Fill(f, at, s), at + |s|, t) == Fill(f, at, s + t)
  {
    var mid := at + |s|;
    RoundingOrder(at, mid);
    RoundingOrder(mid, mid + |t|);
    var g, h, r := Fill(f, at, s), Fill(Fill(f, at, s), mid, t), Fill(f, at, s + t);
    forall k | 0 <= k < |f| ensures h[k] == r[k] {
      assert h[k] == FillCell(g, mid, t, k) && g[k] == FillCell(f, at, s, k);
      if mid <= k < mid + |t| {
        assert (s + t)[k - at] == t[k - mid];
      }
    }
  }

  // ---------------------------------------------------------------- layout

  /**
    The strings `data` fill the area from `p` to `Room()`; the pages from `low` up are allocated
    and no others; the bytes above the strings are zero.
   */
  ghost predicate Laid(f: Image, low: nat, p: nat, data: seq<byte>)
  {
    && |f| == Total() && low % PAGE_SIZE == 0 && p + |data| == Room()
    && (low <= p || (low == Total() && data == []))
    && (forall k :: 0 <= k < |f| ==> f[k] == LaidCell(f, low, p, data, k))
  }

  function LaidCell(f: Image, low: nat, p: nat, data: seq<byte>, k: nat): Option<byte>
    requires k < |f|
  {
    if k < low then None
    else if k < p then Some(if f[k].Some? then f[k].value else 0)
    else if k < p + |data| then Some(data[k - p])
    else Some(0)
  }

  /** No page is allocated below the one that holds `p`, and what lies below `p` in it is zero. */
  ghost predicate Clean(f: Image, low: nat, p: nat)
  {
    (low == Down(p) || low == Total()) && forall k :: low <= k < p && k < |f| ==> f[k] == Some(0)
  }

  function LowAfter(low: nat, at: nat): (r: nat)
    ensures low % PAGE_SIZE == 0 ==> r % PAGE_SIZE == 0
  {
    if low <= at then low else Down(at)
  }

  /** Pushing a string keeps the strings contiguous, whatever lies below `p`. */
  lemma PushLaid(f: Image, low: nat, p: nat, data: seq<byte>, s: seq<byte>)
    requires Laid(f, low, p, data) && 0 < |s| <= p
    ensures Laid(Fill(f, p - |s|, s), LowAfter(low, p - |s|), p - |s|, s + data)
  {
    var at := p - |s|;
    var g, low' := Fill(f, at, s), LowAfter(low, at);
    PushBounds(low, p, at);
    forall k | 0 <= k < |g| ensures g[k] == LaidCell(g, low', at, s + data, k) {
      assert g[k] == FillCell(f, at, s, k) && f[k] == LaidCell(f, low, p, data, k);
    }
  }

  lemma TopPage()
    ensures Up(Room()) == Total()
  {
    Nearest(Total(), Room());
    if Up(Room()) < Total() {
      PagesApart(Up(Room()), Total());
    }
  }

  lemma PushBounds(low: nat, p: nat, at: nat)
    requires low % PAGE_SIZE == 0 && at < p <= Room() && (low <= p || (low == Total() && p == Room()))
    ensures LowAfter(low, at) <= Down(at) <= at
    ensures low <= at ==> low <= Down(at)
    ensures low > at ==> low <= Up(p)
    ensures Up(p) <= Total()
  {
    Nearest(low, at);
    Nearest(Total(), p);
    TopPage();
  }

  lemma PushClean(f: Image, low: nat, p: nat, data: seq<byte>, s: seq<byte>)
    requires Laid(f, low, p, data) && Clean(f, low, p) && 0 < |s| <= p
    ensures Clean(Fill(f, p - |s|, s), LowAfter(low, p - |s|), p - |s|)
  {
    var at := p - |s|;
    PushBounds(low, p, at);
    var g, low' := Fill(f, at, s), LowAfter(low, at);
    if low <= at {
      RoundingOrder(at, p);
    }
    forall k | low' <= k < at && k < |g| ensures g[k] == Some(0) {
      assert g[k] == FillCell(f, at, s, k) && f[k] == LaidCell(f, low, p, data, k);
    }
  }

  /** Laid out, and clean if asked for. */
  ghost predicate Stands(f: Image, low: nat, p: nat, data: seq<byte>, clean: bool)
  {
    Laid(f, low, p, data) && (clean ==> Clean(f, low, p))
  }

  lemma PushStands(f: Image, low: nat, p: nat, data: seq<byte>, clean: bool, s: seq<byte>)
    requires Stands(f, low, p, data, clean) && 0 < |s| <= p
    ensures Stands(Fill(f, p - |s|, s), LowAfter(low, p - |s|), p - |s|, s + data, clean)
  {
    PushLaid(f, low, p, data, s);
    if clean {
      PushClean(f, low, p, data, s);
    }
  }

  /** Dropping the front of the strings only moves `p`. */
  lemma DropLaid(f: Image, low: nat, p: nat, s: seq<byte>, data: seq<byte>)
    requires Laid(f, low, p, s + data)
    ensures Laid(f, low, p + |s|, data)
  {
    forall k | 0 <= k < |f| ensures f[k] == LaidCell(f, low, p + |s|, data, k) {
      assert f[k] == LaidCell(f, low, p, s + data, k);
    }
  }

  /** The pages that hold the strings are allocated, and in a clean image they are the only ones. */
  lemma PagesOfStrings(f: Image, low: nat, p: nat, data: seq<byte>)
    requires Laid(f, low, p, data) && data != []
    ensures forall k :: 0 <= k < |f| && Down(p) <= k ==> f[k].Some?
    ensures Clean(f, low, p) ==> forall k :: 0 <= k < |f| ==> (f[k].Some? <==> Down(p) <= k)
    ensures Clean(f, low, p) ==> forall k :: 0 <= k < |f| && f[k].Some? && !(p <= k < Room()) ==> f[k] == Some(0)
  {
    Nearest(low, p);
    assert forall k :: 0 <= k < |f| ==> f[k] == LaidCell(f, low, p, data, k);
  }
}
