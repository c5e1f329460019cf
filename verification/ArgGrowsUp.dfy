/** The branch of `setup_arg_pages` for stacks that grow up: the strings move to the bottom of the stack. */
module ArgGrowsUp {
  import opened Words
  import opened Memory
  import opened ArgImage
  import opened Options
  import opened ArgVectors
  import opened ArgPages
  import opened ArgPlacement

  // ---------------------------------------------------------------- the image moved

  /** The image from `low + off` on, at the bottom; the last page keeps its last `off` bytes. */
  ghost function Slid(f: Image, low: nat, off: nat): (r: Image)
    requires low + off <= |f|
    ensures |r| == |f|
    ensures forall k :: 0 <= k < |f| - low - off ==> r[k] == f[low + off + k]
    ensures forall k :: |f| - low - off <= k < |f| - low ==> r[k] == f[low + k]
    ensures forall k :: |f| - low <= k < |f| ==> r[k] == None
  {
    f[low + off..] + f[|f| - off..] + seq(low, _ => None)
  }

  /** What page `k` of `cs` holds after the move within the pages. */
  function SlidPage(cs: seq<seq<byte>>, k: nat, off: nat): (r: seq<byte>)
    requires k < |cs| && (forall i :: 0 <= i < |cs| ==> |cs[i]| == PAGE_SIZE) && off <= PAGE_SIZE
    ensures |r| == PAGE_SIZE
  {
    cs[k][off..] + if k + 1 < |cs| then cs[k + 1][..off] else cs[k][PAGE_SIZE - off..]
  }

  lemma BaseAdds(a: nat, k: nat)
    ensures Base(a + k) == Base(a) + Base(k) && Base(k + 1) == Base(k) + PAGE_SIZE
  {}

  /** Moving within the pages is moving the image. */
  lemma SlidPresent(f: Image, a: nat, cs: seq<seq<byte>>, k: nat, off: nat)
    requires |f| == Total() && a + |cs| == MAX_ARG_PAGES && k < |cs| && off < PAGE_SIZE
    requires forall i :: 0 <= i < |cs| ==> |cs[i]| == PAGE_SIZE
    requires Present(f, a + k, cs[k]) && (k + 1 < |cs| ==> Present(f, a + k + 1, cs[k + 1]))
    requires Base(a) + off <= |f|
    ensures Present(Slid(f, Base(a), off), k, SlidPage(cs, k, off))
  {
    var g, d := Slid(f, Base(a), off), SlidPage(cs, k, off);
    BaseAdds(a, k);
    BaseAdds(a, k + 1);
    assert k + 1 == |cs| ==> Base(a + k) + PAGE_SIZE == Total();
    forall m | Base(k) <= m < Base(k) + PAGE_SIZE && m < |g| ensures g[m] == Some(d[m - Base(k)]) {
      var o := m - Base(k);
      if o < PAGE_SIZE - off {
        assert f[Base(a) + off + m] == Some(cs[k][off + o]);
      } else if k + 1 < |cs| {
        assert f[Base(a) + off + m] == Some(cs[k + 1][o - (PAGE_SIZE - off)]);
      } else {
        assert f[Base(a) + m] == Some(cs[k][o]);
      }
    }
  }

  // ---------------------------------------------------------------- the move

  /** The allocated pages, from slot `a` on, move to the first slots. */
  method Compact(page: array<array?<byte>>, ghost a: nat) returns (n: nat)
    requires a <= page.Length && forall k :: 0 <= k < page.Length ==> (page[k] == null <==> k < a)
    modifies page
    ensures n == page.Length - a
    ensures forall k :: 0 <= k < n ==> page[k] == old(page[a + k])
  {
    n := 0;
    for j := 0 to page.Length
      invariant n == (if j < a then 0 else j - a)
      invariant forall k :: 0 <= k < n ==> page[k] == old(page[a + k])
      invariant forall k :: j <= k < page.Length ==> page[k] == old(page[k])
    {
      if page[j] != null {
        page[n] := page[j];
        n := n + 1;
      }
    }
  }

  /** `memmove` down by `off`, then the first `off` bytes of the next page behind. */
  method SlideInto(to: array<byte>, from: array<byte>, off: nat)
    requires to.Length == from.Length == PAGE_SIZE && off < PAGE_SIZE && to != from
    modifies to
    ensures to[..] == old(to[off..]) + old(from[..off])
  {
    forall k | 0 <= k < PAGE_SIZE - off {
      to[k] := to[k + off];
    }
    forall k | PAGE_SIZE - off <= k < PAGE_SIZE {
      to[k] := from[k - (PAGE_SIZE - off)];
    }
  }

  method SlideLast(to: array<byte>, off: nat)
    requires to.Length == PAGE_SIZE && off < PAGE_SIZE
    modifies to
    ensures to[..] == old(to[off..]) + old(to[PAGE_SIZE - off..])
  {
    forall k | 0 <= k < PAGE_SIZE - off {
      to[k] := to[k + off];
    }
  }

  /** The slot holds a page of its own with the given bytes. */
  ghost predicate SlotHas(page: array<array?<byte>>, frames: set<array<byte>>, k: nat, d: seq<byte>)
    requires k < page.Length
    reads page, frames
  {
    page[k] != null && page[k] in frames && page[k].Length == PAGE_SIZE && page[k][..] == d
  }

  ghost predicate Apart(page: array<array?<byte>>, n: nat)
    requires n <= page.Length
    reads page
  {
    forall i, j :: 0 <= i < j < n ==> page[i] != page[j]
  }

  /** Moves the contents of the first pages down by `off` bytes across page borders. */
  method SlideAll(page: array<array?<byte>>, n: nat, off: nat, ghost frames: set<array<byte>>, ghost cs: seq<seq<byte>>)
    requires 0 < n == |cs| <= page.Length && off < PAGE_SIZE && Apart(page, n)
    requires forall k :: 0 <= k < n ==> |cs[k]| == PAGE_SIZE && SlotHas(page, frames, k, cs[k])
    modifies frames
    ensures forall k :: 0 <= k < n ==> SlotHas(page, frames, k, SlidPage(cs, k, off))
  {
    var j := 1;
    assert SlotHas(page, frames, 0, cs[0]);
    var to: array<byte> := page[0];
    while j < n
      invariant 1 <= j <= n && to == page[j - 1]
      invariant forall k :: 0 <= k < j - 1 ==> SlotHas(page, frames, k, SlidPage(cs, k, off))
      invariant forall k :: j - 1 <= k < n ==> SlotHas(page, frames, k, cs[k])
    {
      assert SlotHas(page, frames, j, cs[j]) && SlotHas(page, frames, j - 1, cs[j - 1]);
      var from: array<byte> := page[j];
      SlideInto(to, from, off);
      to := from;
      j := j + 1;
    }
    assert SlotHas(page, frames, n - 1, cs[n - 1]);
    SlideLast(to, off);
  }

  method ClearTail(page: array<array?<byte>>, n: nat)
    requires n <= page.Length
    modifies page
    ensures forall k :: 0 <= k < page.Length ==> page[k] == if k < n then old(page[k]) else null
  {
    for i := n to page.Length
      invariant forall k :: 0 <= k < page.Length ==> page[k] == if k < n || k >= i then old(page[k]) else null
    {
      page[i] := null;
    }
  }

  ghost predicate FilledSlot(page: array<array?<byte>>, frames: set<array<byte>>, a: nat, cs: seq<seq<byte>>, k: nat)
    requires a + |cs| == page.Length && a <= k < page.Length
    reads page, frames
  {
    |cs[k - a]| == PAGE_SIZE && SlotHas(page, frames, k, cs[k - a])
  }

  /** The slots from `a` on, and no others, hold pages; they hold `cs`, each its own. */
  ghost predicate Filled(page: array<array?<byte>>, frames: set<array<byte>>, a: nat, cs: seq<seq<byte>>)
    requires a + |cs| == page.Length
    reads page, frames
  {
    && (forall k :: 0 <= k < a ==> page[k] == null)
    && (forall k :: a <= k < page.Length ==> FilledSlot(page, frames, a, cs, k))
    && (forall i, j :: a <= i < j < page.Length ==> page[i] != page[j])
  }

  method MovePages(page: array<array?<byte>>, off: nat, ghost frames: set<array<byte>>, ghost a: nat, ghost cs: seq<seq<byte>>)
    returns (n: nat)
    requires off < PAGE_SIZE && cs != [] && a + |cs| == page.Length && Filled(page, frames, a, cs)
    modifies page, frames
    ensures n == |cs| && forall k :: 0 <= k < n ==> |cs[k]| == PAGE_SIZE
    ensures forall k :: 0 <= k < n ==> SlotHas(page, frames, k, SlidPage(cs, k, off))
    ensures forall k :: n <= k < page.Length ==> page[k] == null
    ensures Apart(page, n)
  {
    forall k | 0 <= k < page.Length ensures page[k] == null <==> k < a {
      assert k >= a ==> FilledSlot(page, frames, a, cs, k);
    }
    n := Compact(page, a);
    forall k | 0 <= k < n ensures |cs[k]| == PAGE_SIZE && SlotHas(page, frames, k, cs[k]) {
      assert old(FilledSlot(page, frames, a, cs, a + k));
    }
    SlideAll(page, n, off, frames, cs);
    ClearTail(page, n);
  }

  lemma LowSlot(low: nat)
    requires low % PAGE_SIZE == 0 && low < Total()
    ensures Base(low / PAGE_SIZE) == low && low / PAGE_SIZE < MAX_ARG_PAGES
  {
    PageOfPosition(low);
    AlignedStays(low, PAGE_SIZE);
  }

  /** In a laid-out image the slots below `low` are the empty ones. */
  lemma SlotOf(b: Binprm, low: nat, data: seq<byte>, a: nat, k: nat)
    requires b.Valid() && Laid(b.flat, low, b.p, data) && k < MAX_ARG_PAGES && low == Base(a)
    ensures k < a ==> b.page[k] == null
    ensures k >= a ==> b.page[k] != null && Present(b.flat, k, b.page[k][..]) && SlotHas(b.page, b.frames, k, b.page[k][..])
  {
    assert b.Holds(k);
    assert b.flat[Base(k)] == LaidCell(b.flat, low, b.p, data, Base(k));
    if k < a {
      BasesApart(k, a);
    } else if k > a {
      BasesApart(a, k);
    }
  }

  /** The contents of the allocated pages, lowest first. */
  lemma Contents(b: Binprm, low: nat, data: seq<byte>, a: nat) returns (cs: seq<seq<byte>>)
    requires b.Valid() && Laid(b.flat, low, b.p, data) && low == Base(a) && a < MAX_ARG_PAGES
    ensures a + |cs| == MAX_ARG_PAGES && Filled(b.page, b.frames, a, cs)
    ensures forall k :: 0 <= k < |cs| ==> Present(b.flat, a + k, cs[k])
  {
    forall k | 0 <= k < MAX_ARG_PAGES
      ensures k < a ==> b.page[k] == null
      ensures k >= a ==> b.page[k] != null && Present(b.flat, k, b.page[k][..]) && SlotHas(b.page, b.frames, k, b.page[k][..])
    {
      SlotOf(b, low, data, a, k);
    }
    cs := [];
    while |cs| < MAX_ARG_PAGES - a
      invariant |cs| <= MAX_ARG_PAGES - a
      invariant forall k :: 0 <= k < |cs| ==> b.page[a + k] != null && cs[k] == b.page[a + k][..]
    {
      cs := cs + [b.page[a + |cs|][..]];
    }
    forall k | a <= k < MAX_ARG_PAGES ensures FilledSlot(b.page, b.frames, a, cs, k) {
      assert cs[k - a] == b.page[a + (k - a)][..];
    }
  }

  /** The slots of the moved pages show the moved image. */
  lemma Rebuilt(b: Binprm, f: Image, a: nat, cs: seq<seq<byte>>, off: nat, k: nat)
    requires |f| == Total() && b.page.Length == MAX_ARG_PAGES == a + |cs| && off < PAGE_SIZE && k < MAX_ARG_PAGES
    requires forall i :: 0 <= i < |cs| ==> |cs[i]| == PAGE_SIZE && Present(f, a + i, cs[i])
    requires Base(a) + off <= |f| && b.flat == Slid(f, Base(a), off)
    requires if k < |cs| then SlotHas(b.page, b.frames, k, SlidPage(cs, k, off)) else b.page[k] == null
    ensures b.Holds(k)
  {
    if k < |cs| {
      assert k + 1 < |cs| ==> Present(f, a + (k + 1), cs[k + 1]);
      SlidPresent(f, a, cs, k, off);
    } else {
      BaseAdds(a, |cs|);
      if k > |cs| {
        BasesApart(|cs|, k);
      }
    }
  }

  /** The pages go to the first slots and their bytes down by `p mod PAGE_SIZE`: the image slides. */
  method ShiftDown(b: Binprm, ghost low: nat, ghost data: seq<byte>) returns (n: nat)
    requires b.Valid() && Laid(b.flat, low, b.p, data) && data != []
    modifies b`flat, b.page, b.frames
    ensures b.Valid() && low + Base(n) == Total()
    ensures low + b.p % PAGE_SIZE <= Total() && b.flat == Slid(old(b.flat), low, b.p % PAGE_SIZE)
  {
    LowSlot(low);
    ghost var a := low / PAGE_SIZE;
    ghost var cs := Contents(b, low, data, a);
    var off := b.p % PAGE_SIZE;
    n := MovePages(b.page, off, b.frames, a, cs);
    BaseAdds(a, n);
    b.flat := Slid(b.flat, low, off);
    forall k | 0 <= k < MAX_ARG_PAGES ensures b.Holds(k) {
      Rebuilt(b, old(b.flat), a, cs, off, k);
    }
  }

  /** Where stacks grow up. The strings go to the bottom of the stack and `p` to the end of their pages. */
  method SetupGrowsUp(b: Binprm, stackTop: nat, stackLimit: nat, noVma: bool, ghost low: nat, ghost data: seq<byte>)
    returns (r: Status, base: nat, vmEnd: nat, mem: Space)
    requires b.Valid() && Laid(b.flat, low, b.p, data) && data != []
    requires stackLimit <= stackTop || 0x4000_0000 <= stackTop
    modifies b`p, b`exec, b`flat, b.page, b.frames
    ensures base % PAGE_SIZE == 0 && low + old(b.p) % PAGE_SIZE <= Total()
    ensures b.p == base + (Total() - low - old(b.p) % PAGE_SIZE) && b.exec == old(b.exec) + base
    ensures vmEnd == base + (Total() - low) + EXTRA_STACK_VM_PAGES * PAGE_SIZE
    ensures r == if noVma then Enomem else Ok
    ensures r == Ok ==> b.Valid() && Shown(mem, base, Slid(old(b.flat), low, old(b.p) % PAGE_SIZE))
  {
    var off := b.p % PAGE_SIZE;
    var n := ShiftDown(b, low, data);
    var size := if stackLimit > 0x4000_0000 then 0x4000_0000 else stackLimit;
    base := Up(stackTop - size);
    b.p := base + Base(n) - off;
    b.exec := b.exec + base;
    vmEnd, mem := base + Base(n) + EXTRA_STACK_VM_PAGES * PAGE_SIZE, map[];
    r := if noVma then Enomem else Ok;
    if r == Ok {
      mem := InstallPages(b, base);
    }
  }

  /** Every byte from `low + p mod PAGE_SIZE` to the top is there, in order, from the new bottom on. */
  lemma NothingLost(mem: Space, base: nat, f: Image, low: nat, p: nat, data: seq<byte>, k: nat)
    requires Laid(f, low, p, data) && data != [] && low + p % PAGE_SIZE <= |f|
    requires Shown(mem, base, Slid(f, low, p % PAGE_SIZE)) && k < |f| - low - p % PAGE_SIZE
    ensures base + k in mem && f[low + p % PAGE_SIZE + k] == Some(mem[base + k])
  {
    var off := p % PAGE_SIZE;
    var g := Slid(f, low, off);
    assert g[k] == f[low + off + k];
    assert CellShown(mem, base, g, k);
    assert f[low + off + k] == LaidCell(f, low, p, data, low + off + k);
  }

  /** The strings lie as many bytes above the bottom as there are allocated pages below theirs. */
  lemma StringsAboveBottom(mem: Space, base: nat, f: Image, low: nat, p: nat, data: seq<byte>)
    requires Laid(f, low, p, data) && data != [] && low + p % PAGE_SIZE <= |f|
    requires Shown(mem, base, Slid(f, low, p % PAGE_SIZE))
    ensures low <= Down(p) && Has(mem, base + (Down(p) - low), data)
  {
    Nearest(low, p);
    DivisionFacts(p, PAGE_SIZE);
    var start := base + (Down(p) - low);
    forall a | start <= a < start + |data| ensures a in mem && mem[a] == data[a - start] {
      var k := a - base;
      NothingLost(mem, base, f, low, p, data, k);
      assert f[low + p % PAGE_SIZE + k] == LaidCell(f, low, p, data, low + p % PAGE_SIZE + k);
    }
  }

  ghost predicate ImageHas(f: Image, at: nat, data: seq<byte>)
  {
    at + |data| <= |f| && forall k :: at <= k < at + |data| ==> f[k] == Some(data[k - at])
  }

  ghost predicate MappedCell(mem: Space, base: nat, f: Image, start: nat, k: nat)
    requires start <= k < |f|
  {
    base + (k - start) in mem && f[k] == Some(mem[base + (k - start)])
  }

  /** What is mapped from `base` on is what the image holds from `start` on. */
  lemma MappedIsImage(mem: Space, base: nat, f: Image, start: nat, data: seq<byte>)
    requires start + |data| <= |f|
    requires forall k :: start <= k < start + |data| ==> MappedCell(mem, base, f, start, k)
    ensures Has(mem, base, data) <==> ImageHas(f, start, data)
  {
    if Has(mem, base, data) {
      forall k | start <= k < start + |data| ensures f[k] == Some(data[k - start]) {
        assert MappedCell(mem, base, f, start, k);
      }
    }
    if ImageHas(f, start, data) {
      forall a | base <= a < base + |data| ensures a in mem && mem[a] == data[a - base] {
        assert MappedCell(mem, base, f, start, start + (a - base));
        assert f[start + (a - base)] == Some(data[a - base]);
      }
    }
  }

  /**
    `arg_start` is set to the bottom of the stack. The strings are there if and only if the image
    already holds them at `low + p mod PAGE_SIZE`; without stale pages below `p` that is `p` itself.
   */
  lemma StringsAtArgStart(mem: Space, base: nat, f: Image, low: nat, p: nat, data: seq<byte>)
    requires Laid(f, low, p, data) && data != [] && low + p % PAGE_SIZE <= |f|
    requires Shown(mem, base, Slid(f, low, p % PAGE_SIZE))
    ensures Has(mem, base, data) <==> ImageHas(f, low + p % PAGE_SIZE, data)
    ensures low == Down(p) ==> Has(mem, base, data)
  {
    var start := StartBelow(low, p);
    forall k | start <= k < start + |data| ensures MappedCell(mem, base, f, start, k) {
      NothingLost(mem, base, f, low, p, data, k - start);
    }
    MappedIsImage(mem, base, f, start, data);
    StringsAboveBottom(mem, base, f, low, p, data);
  }

  lemma StartBelow(low: nat, p: nat) returns (start: nat)
    requires low % PAGE_SIZE == 0 && low <= p
    ensures start == low + p % PAGE_SIZE && low <= start <= p
  {
    Nearest(low, p);
    DivisionFacts(p, PAGE_SIZE);
    start := low + p % PAGE_SIZE;
  }

  /** A first argument over all pages below the last bytes. */
  function LongString(n: nat): (s: seq<byte>)
    requires n > 0
    ensures |s| == n && IsCString(s) && forall k :: 0 <= k < n - 1 ==> s[k] == 1
  {
    seq(n, k => if k == n - 1 then 0 else 1)
  }

  function LongImage(p: nat): (f: Image)
    requires 0 < p
    ensures |f| == Total()
    ensures forall k :: 0 <= k < Total() ==> f[k] == Some(if k < p then LongString(p)[k] else if k == p then 7 else 0)
  {
    seq(Total(), k requires 0 <= k => Some(if k < p then LongString(p)[k] else if k == p then 7 else 0))
  }

  lemma LongLaid(p: nat)
    requires p == Room() - 2
    ensures Laid(LongImage(p), 0, 0, LongString(p) + [7, 0]) && Clean(LongImage(p), 0, 0)
  {
    var f, data := LongImage(p), LongString(p) + [7, 0];
    AlignedStays(0, PAGE_SIZE);
    forall k | 0 <= k < |f| ensures f[k] == LaidCell(f, 0, 0, data, k) {
      assert f[k].Some?;
    }
  }

  lemma TwoPages(p: nat)
    requires MAX_ARG_PAGES >= 2 && p == Room() - 2
    ensures p % PAGE_SIZE < p - 1
  {
    assert (MAX_ARG_PAGES - 2) * PAGE_SIZE >= 0;
  }

  /**
    Removing an argument that spans a page leaves its pages allocated, and then the remaining
    strings are not at `arg_start`.
   */
  lemma StalePagesMisplace(mem: Space, base: nat, p: nat)
    requires MAX_ARG_PAGES >= 2 && p == Room() - 2
    requires Shown(mem, base, Slid(LongImage(p), 0, p % PAGE_SIZE))
    ensures Laid(LongImage(p), 0, 0, LongString(p) + [7, 0]) && Clean(LongImage(p), 0, 0)
    ensures Laid(LongImage(p), 0, p, [7, 0]) && !Has(mem, base, [7, 0])
  {
    var f, off := LongImage(p), p % PAGE_SIZE;
    TwoPages(p);
    assert f[off] == Some(1);
    assert !ImageHas(f, off, [7, 0]);
    LongLaid(p);
    DropLaid(f, 0, 0, LongString(p), [7, 0]);
    StringsAtArgStart(mem, base, f, 0, p, [7, 0]);
  }

  /** With as many pages, the grows-down branch installs pages below the stack area. */
  lemma StalePagesOutside(mem: Space, base: nat, p: nat, vmStart: nat)
    requires MAX_ARG_PAGES >= EXTRA_STACK_VM_PAGES + 2 && p == Room() - 2
    requires Shown(mem, base, LongImage(p)) && vmStart + EXTRA_STACK_VM_PAGES * PAGE_SIZE == base + Down(p)
    ensures Laid(LongImage(p), 0, p, [7, 0]) && !(forall a :: a in mem ==> vmStart <= a < base + Total())
  {
    var f := LongImage(p);
    LongLaid(p);
    DropLaid(f, 0, 0, LongString(p), [7, 0]);
    ManyPages(p);
    PagesInStackArea(mem, base, f, 0, p, [7, 0], vmStart);
  }

  lemma ManyPages(p: nat)
    requires MAX_ARG_PAGES >= EXTRA_STACK_VM_PAGES + 2 && p == Room() - 2
    ensures Down(p) > EXTRA_STACK_VM_PAGES * PAGE_SIZE
  {
    AtLeast(MAX_ARG_PAGES, EXTRA_STACK_VM_PAGES + 2, PAGE_SIZE);
    assert p < Down(p) + PAGE_SIZE;
  }

  lemma AtLeast(m: nat, k: nat, n: nat)
    requires m >= k
    ensures m * n >= k * n
  {
    assert (m - k) * n >= 0;
  }

  // ---------------------------------------------------------------- the file name

  /** A cell where the file name would have to be, and is not. */
  lemma NameElsewhere(f: Image, low: nat, off: nat, name: seq<byte>, at: nat) returns (j: nat)
    requires IsCString(name) && 2 <= |name| && at + |name| < |f| && low + off <= |f|
    requires forall k :: at + |name| - 1 <= k < |f| ==> f[k] == Some(0)
    requires low + off > 0 && (low > 0 || at < |f| - off)
    ensures j < |name| && Slid(f, low, off)[at + j] != Some(name[j])
  {
    j := |name| - 2;
    var g, k := Slid(f, low, off), at + j;
    if low == 0 && k >= |f| - off {
      j := |f| - off - 1 - at;
      assert g[at + j] == f[low + off + (at + j)];
    } else if k < |f| - low - off {
      assert g[k] == f[low + off + k];
    } else if k < |f| - low {
      assert g[k] == f[low + k];
    }
  }

  /** From the NUL of the file name on there are only zero bytes. */
  lemma ZeroBehind(f: Image, low: nat, p: nat, data: seq<byte>, name: seq<byte>, k: nat)
    requires Laid(f, low, p, data) && IsCString(name) && |name| <= |data| && data[|data| - |name|..] == name && Room() - 1 <= k < Total()
    requires data != [] ==> low <= p
    ensures f[k] == Some(0)
  {
    assert f[k] == LaidCell(f, low, p, data, k);
    assert data[|data| - 1] == data[|data| - |name|..][|name| - 1];
  }

  /**
    `exec` is moved up by `base` only, while the image moves down as well. It leads to the file name if and only
    if nothing moved, or no page is missing and the name is in the last bytes, which moving leaves behind.
   */
  lemma FileNameAtExec(mem: Space, base: nat, f: Image, low: nat, p: nat, data: seq<byte>, name: seq<byte>, exec: nat)
    requires Laid(f, low, p, data) && IsCString(name) && 2 <= |name| <= |data| && data[|data| - |name|..] == name
    requires exec + |name| == Room() && low + p % PAGE_SIZE <= |f| && Shown(mem, base, Slid(f, low, p % PAGE_SIZE))
    ensures Has(mem, base + exec, name) <==> low + p % PAGE_SIZE == 0 || (low == 0 && Total() - p % PAGE_SIZE <= exec)
  {
    var off := p % PAGE_SIZE;
    var g := Slid(f, low, off);
    if low + off == 0 || (low == 0 && Total() - off <= exec) {
      forall a | base + exec <= a < base + exec + |name| ensures a in mem && mem[a] == name[a - (base + exec)] {
        var k := a - base;
        assert g[k] == f[k] == LaidCell(f, low, p, data, k);
        assert data[k - p] == data[|data| - |name|..][k - exec];
        assert CellShown(mem, base, g, k);
      }
    } else {
      forall k | exec + |name| - 1 <= k < |f| ensures f[k] == Some(0) {
        ZeroBehind(f, low, p, data, name, k);
      }
      var j := NameElsewhere(f, low, off, name, exec);
      assert CellShown(mem, base, g, exec + j);
      assert base + exec + j == base + (exec + j);
    }
  }
}
