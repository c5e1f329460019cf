/** `setup_arg_pages`: the argument pages become the top of the new stack, in both stack directions. */
module ArgPlacement {
  import opened Words
  import opened Memory
  import opened ArgImage
  import opened Options
  import opened ArgVectors
  import opened ArgPages

  const EXTRA_STACK_VM_PAGES := 20

  // ---------------------------------------------------------------- installing the pages

  ghost predicate CellShown(mem: Space, base: nat, f: Image, k: nat)
    requires k < |f|
  {
    if f[k].None? then base + k !in mem else base + k in mem && mem[base + k] == f[k].value
  }

  /** The first `n` cells of the image, and nothing else, are mapped from `base` on. */
  ghost predicate ShownUpTo(mem: Space, base: nat, f: Image, n: nat)
    requires n <= |f|
  {
    && (forall k :: 0 <= k < n ==> CellShown(mem, base, f, k))
    && (forall a :: a in mem ==> base <= a < base + n)
  }

  ghost predicate Shown(mem: Space, base: nat, f: Image)
  {
    ShownUpTo(mem, base, f, |f|)
  }

  lemma ShowAbsent(mem: Space, base: nat, f: Image, i: nat)
    requires |f| == Total() && i < MAX_ARG_PAGES && Absent(f, i) && ShownUpTo(mem, base, f, Base(i))
    ensures ShownUpTo(mem, base, f, Base(i) + PAGE_SIZE)
  {
    forall k | Base(i) <= k < Base(i) + PAGE_SIZE ensures CellShown(mem, base, f, k) {
      assert f[k] == None;
    }
  }

  lemma ShowPresent(mem: Space, base: nat, f: Image, i: nat, d: seq<byte>)
    requires |f| == Total() && i < MAX_ARG_PAGES && Present(f, i, d) && ShownUpTo(mem, base, f, Base(i))
    ensures ShownUpTo(StoreBytes(mem, base + Base(i), d), base, f, Base(i) + PAGE_SIZE)
  {
    var mem' := StoreBytes(mem, base + Base(i), d);
    forall k | 0 <= k < Base(i) + PAGE_SIZE ensures CellShown(mem', base, f, k) {
      if k < Base(i) {
        assert CellShown(mem, base, f, k);
      } else {
        assert f[k] == Some(d[k - Base(i)]);
      }
    }
  }

  /** The strings can be read where the pages were put. */
  lemma ShownStrings(mem: Space, base: nat, f: Image, low: nat, p: nat, data: seq<byte>)
    requires Shown(mem, base, f) && Laid(f, low, p, data)
    ensures Has(mem, base + p, data)
  {
    forall a | base + p <= a < base + p + |data| ensures a in mem && mem[a] == data[a - (base + p)] {
      var k := a - base;
      assert f[k] == LaidCell(f, low, p, data, k);
      assert CellShown(mem, base, f, k);
    }
  }

  method InstallPages(b: Binprm, base: nat) returns (mem: Space)
    requires b.Valid()
    modifies b.page, b`flat
    ensures Shown(mem, base, old(b.flat))
    ensures b.Valid() && forall i :: 0 <= i < b.page.Length ==> b.page[i] == null
  {
    mem := map[];
    var i := 0;
    assert Base(0) == 0;
    while i < MAX_ARG_PAGES
      invariant i <= MAX_ARG_PAGES && b.flat == old(b.flat)
      invariant ShownUpTo(mem, base, b.flat, Base(i))
      invariant forall j :: i <= j < b.page.Length ==> b.page[j] == old(b.page[j]) && b.Holds(j)
      invariant forall j :: 0 <= j < i ==> b.page[j] == null
    {
      assert Base(i + 1) == Base(i) + PAGE_SIZE;
      assert b.Holds(i);
      if b.page[i] != null {
        var pg: array<byte> := b.page[i];
        ShowPresent(mem, base, b.flat, i, pg[..]);
        mem := StoreBytes(mem, base + Base(i), pg[..]);
        b.page[i] := null;
      } else {
        ShowAbsent(mem, base, b.flat, i);
      }
      i := i + 1;
    }
    assert Base(MAX_ARG_PAGES) == Total();
    b.flat := seq(Total(), _ => None);
  }

  // ---------------------------------------------------------------- stack grows down

  lemma DownAbove(base: nat, p: nat)
    requires base % PAGE_SIZE == 0
    ensures Down(base + p) == base + Down(p)
  {
    DivisionFacts(base, PAGE_SIZE);
    DivisionFacts(p, PAGE_SIZE);
    RemainderUnique(base + p, PAGE_SIZE, base / PAGE_SIZE + p / PAGE_SIZE, p % PAGE_SIZE);
  }

  /**
    Where stacks grow down. `shift` is what `arch_align_stack` takes off its argument and `noVma`
    says that the stack area cannot be had.
   */
  method SetupGrowsDown(b: Binprm, stackTop: nat, shift: nat, noVma: bool)
    returns (r: Status, base: nat, vmStart: nat, vmEnd: nat, mem: Space)
    requires b.Valid() && b.p <= Total() && stackTop % PAGE_SIZE == 0
    requires Total() + shift + EXTRA_STACK_VM_PAGES * PAGE_SIZE <= stackTop
    modifies b`p, b`exec, b.page, b`flat
    ensures stackTop - shift <= base + Total() <= stackTop
    ensures base % PAGE_SIZE == 0 && b.p == old(b.p) + base && b.exec == old(b.exec) + base
    ensures r == if noVma then Enomem else Ok
    ensures r == Ok ==> b.Valid() && Shown(mem, base, old(b.flat))
    ensures vmEnd == stackTop && vmStart + EXTRA_STACK_VM_PAGES * PAGE_SIZE == base + Down(old(b.p))
  {
    base := Up(stackTop - Total() - shift);
    TotalBelow(stackTop);
    Nearest(stackTop - Total(), stackTop - Total() - shift);
    DownAbove(base, b.p);
    b.p := b.p + base;
    var argSize := stackTop - Down(b.p) + EXTRA_STACK_VM_PAGES * PAGE_SIZE;
    b.exec := b.exec + base;
    vmEnd, mem := stackTop, map[];
    vmStart := vmEnd - argSize;
    r := if noVma then Enomem else Ok;
    if r == Ok {
      mem := InstallPages(b, base);
    }
  }

  lemma TotalBelow(top: nat)
    requires top % PAGE_SIZE == 0 && Total() <= top
    ensures (top - Total()) % PAGE_SIZE == 0
  {
    DivisionFacts(top, PAGE_SIZE);
    RemainderUnique(top - Total(), PAGE_SIZE, top / PAGE_SIZE - MAX_ARG_PAGES, 0);
  }

  /**
    Every installed page lies in the stack area if and only if no more than
    `EXTRA_STACK_VM_PAGES` pages stayed allocated below the strings.
   */
  lemma PagesInStackArea(mem: Space, base: nat, f: Image, low: nat, p: nat, data: seq<byte>, vmStart: nat)
    requires Shown(mem, base, f) && Laid(f, low, p, data) && data != []
    requires vmStart + EXTRA_STACK_VM_PAGES * PAGE_SIZE == base + Down(p)
    ensures (forall a :: a in mem ==> vmStart <= a < base + Total()) <==>
            Down(p) - low <= EXTRA_STACK_VM_PAGES * PAGE_SIZE
  {
    assert f[low] == LaidCell(f, low, p, data, low);
    assert CellShown(mem, base, f, low);
    forall a | a in mem ensures base + low <= a < base + Total() {
      assert CellShown(mem, base, f, a - base);
      assert f[a - base] == LaidCell(f, low, p, data, a - base);
    }
  }
}
