/** Placing the segments of an x.out program (the build with segment support). */
module XoutPlacement {
  import opened Words

  datatype Kind = Text | Data | OtherKind

  /** `struct xseg`; `wide` is XS_A32BIT and `memory` XS_AMEM. */
  datatype Segment = Segment(kind: Kind, wide: bool, memory: bool, number: nat, psize: nat, vsize: nat, rbase: nat)
  {
    function End(): nat
    {
      rbase + vsize
    }

    /** Where the part that comes from the file ends. */
    function FileEnd(): nat
    {
      rbase + psize
    }
  }

  /** What the headers say; `entry` is the code selector, which stays in `ebx`. */
  datatype Program = Program(is386: bool, impure: bool, entry: nat)
  {
    /** In an impure program segments from this selector on are placed once more as text. */
    predicate Mirrors(number: nat)
    {
      impure && number >= MIRRORED_FROM
    }
  }

  const MIRRORED_FROM := 0x47

  /** The size given to the first data segment of a 286 program, which holds the stack, too. */
  const STACK_SEGMENT := 0x10000

  datatype Outcome = Placed | Failed | Endless

  // ---------------------------------------------------------------- pages

  /** On a page boundary. */
  predicate OnPage(x: nat)
  {
    x == 0 || (x >= PAGE_SIZE && OnPage(x - PAGE_SIZE))
  }

  lemma {:induction false} OnPageMeaning(x: nat)
    ensures OnPage(x) <==> x % PAGE_SIZE == 0
  {
    DivisionFacts(x, PAGE_SIZE);
    if x >= PAGE_SIZE {
      OnPageMeaning(x - PAGE_SIZE);
      RemainderUnique(x - PAGE_SIZE, PAGE_SIZE, x / PAGE_SIZE - 1, x % PAGE_SIZE);
    } else {
      RemainderUnique(x, PAGE_SIZE, 0, x);
    }
  }

  /** `PAGE_ALIGN` */
  function PageUp(x: nat): (r: nat)
    ensures OnPage(r) && x <= r < x + PAGE_SIZE
  {
    if x == 0 then 0 else if x <= PAGE_SIZE then PAGE_SIZE else PAGE_SIZE + PageUp(x - PAGE_SIZE)
  }

  lemma SameMultiple(n: int, q: int, r: int)
    requires -n < n * q - n * r < n
    ensures q == r
  {
    assert n * (q - r) == n * q - n * r;
    assert q - r >= 1 ==> n * (q - r) >= n;
    assert q - r <= -1 ==> n * (q - r) <= -n;
  }

  lemma PageUpIsAlignUp(x: nat)
    ensures PageUp(x) == AlignUp(x, PAGE_SIZE)
  {
    var a, b := PageUp(x), AlignUp(x, PAGE_SIZE);
    OnPageMeaning(a);
    DivisionFacts(a, PAGE_SIZE);
    DivisionFacts(b, PAGE_SIZE);
    SameMultiple(PAGE_SIZE, a / PAGE_SIZE, b / PAGE_SIZE);
  }

  // ---------------------------------------------------------------- one segment

  /** The next free address and the registers that a data segment sets. */
  datatype Cursor = Cursor(addr: nat, ecx: nat, edx: nat)

  /** A data segment of a 286 program while code and data selector are still the same. */
  predicate TakesStack(p: Program, c: Cursor, s: Segment)
  {
    s.kind == Data && !p.is386 && p.entry == c.ecx
  }

  /** A segment as it is placed: a 16-bit one at the free address, the first data segment with the stack. */
  function PlacedAs(p: Program, c: Cursor, s: Segment): Segment
  {
    s.(rbase := if s.wide then s.rbase else c.addr, vsize := if TakesStack(p, c, s) then STACK_SEGMENT else s.vsize)
  }

  /** The same with mirroring. */
  function LoadedAs(p: Program, c: Cursor, s: Segment, again: bool): Segment
  {
    var t := PlacedAs(p, c, s);
    if again then t.(number := p.entry, kind := Text) else t
  }

  /** A 32-bit segment has no place of its own, yet mirroring and the stack rule move the free address. */
  predicate Strays(p: Program, c: Cursor, s: Segment)
  {
    s.wide && (p.Mirrors(s.number) || TakesStack(p, c, s))
  }

  /** Where a straying segment moves the free address. */
  function Target(p: Program, s: Segment): nat
  {
    if p.Mirrors(s.number) then s.rbase else PageUp(STACK_SEGMENT)
  }

  /** What is free behind a segment. */
  function Behind(p: Program, c: Cursor, s: Segment, again: bool): Cursor
  {
    var stack := TakesStack(p, c, s);
    Cursor(if !s.wide then PageUp(PlacedAs(p, c, s).End())
           else if again then s.rbase
           else if stack then PageUp(STACK_SEGMENT)
           else c.addr,
           if stack then s.number else c.ecx,
           if stack then s.vsize else c.edx)
  }

  /** A marker that goes up to `end` if it concerns it. */
  function Raised(marker: nat, concerned: bool, end: nat): nat
  {
    if concerned && end > marker then end else marker
  }

  function BrkAbove(brk: nat, end: nat): nat
  {
    if end > brk then PageUp(end) else brk
  }

  /** How placing one segment ends, given what mapping it and its mirror returns. */
  function Result(p: Program, s: Segment, mapped: int, mirror: int): Outcome
  {
    if !s.memory then Placed
    else if mapped < 0 then Failed
    else if !p.Mirrors(s.number) then Placed
    else if mirror < 0 then Failed
    else if p.Mirrors(p.entry) then Endless
    else Placed
  }

  /** The loader's part of `mm_struct` and of the registers. */
  class Loader {
    const p: Program
    var cursor: Cursor
    var endCode: nat
    var endData: nat
    var startBrk: nat
    var brk: nat

    constructor (start: nat, p: Program)
      ensures this.p == p && cursor == Cursor(start, p.entry, 0)
      ensures endCode == endData == startBrk == brk == 0
    {
      this.p, cursor := p, Cursor(start, p.entry, 0);
      endCode, endData, startBrk, brk := 0, 0, 0, 0;
    }

    /** Gives a 16-bit segment the next free pages, and a first data segment the stack on top. */
    method TakePlace(s: Segment) returns (t: Segment)
      modifies `cursor
      ensures t == PlacedAs(p, old(cursor), s) && cursor == Behind(p, old(cursor), s, false)
    {
      t := s;
      var base := 0;
      if !s.wide {
        base := cursor.addr;
        cursor := cursor.(addr := PageUp(cursor.addr + s.vsize));
        t := t.(rbase := base);
      }
      if s.kind == Data && !p.is386 && p.entry == cursor.ecx {
        t := t.(vsize := STACK_SEGMENT);
        cursor := Cursor(PageUp(base + STACK_SEGMENT), s.number, s.vsize);
      }
    }

    /** The placement part of `xout_amen`, once. */
    method PlaceOnce(s: Segment) returns (t: Segment)
      requires startBrk == brk
      modifies this
      ensures t == PlacedAs(p, old(cursor), s) && cursor == Behind(p, old(cursor), s, false)
      ensures endCode == Raised(old(endCode), s.kind == Text, t.FileEnd())
      ensures endData == Raised(old(endData), s.kind == Data, t.FileEnd())
      ensures startBrk == brk == BrkAbove(old(brk), t.End())
    {
      t := TakePlace(s);
      if s.kind == Text {
        if t.FileEnd() > endCode {
          endCode := t.FileEnd();
        }
      } else if s.kind == Data {
        if t.FileEnd() > endData {
          endData := t.FileEnd();
        }
      }
      if t.End() > brk {
        brk := PageUp(t.End());
        startBrk := brk;
      }
    }

    /**
      `xout_amen`: places a segment and, in an impure program, once more as text. `mapped` and `mirror`
      are what mapping it returns. `Endless` if the text selector is one to mirror, too.
     */
    method XoutAmen(s: Segment, mapped: int, mirror: int) returns (r: Outcome, t: Segment)
      requires startBrk == brk && s.memory
      modifies this
      ensures var again := mapped >= 0 && p.Mirrors(s.number);
              && t == LoadedAs(p, old(cursor), s, again) && cursor == Behind(p, old(cursor), s, again)
              && endCode == Raised(old(endCode), s.kind == Text || again, t.FileEnd())
              && endData == Raised(old(endData), s.kind == Data, t.FileEnd())
              && startBrk == brk == BrkAbove(old(brk), t.End())
      ensures r == Result(p, s, mapped, mirror)
    {
      t := PlaceOnce(s);
      r := if mapped < 0 then Failed else Placed;
      if r == Placed && p.Mirrors(t.number) {
        cursor := cursor.(addr := t.rbase);
        t := t.(number := p.entry, kind := Text);
        t := PlaceOnce(t);
        r := if mirror < 0 then Failed else if p.Mirrors(t.number) then Endless else Placed;
      }
    }
  }

  // ---------------------------------------------------------------- the table as a whole

  /** The cursor before segment `i` when all before it were placed. */
  function CursorAt(p: Program, segs: seq<Segment>, c: Cursor, i: nat): Cursor
    requires i <= |segs|
  {
    if i == 0 then c
    else
      var before, s := CursorAt(p, segs, c, i - 1), segs[i - 1];
      if s.memory then Behind(p, before, s, p.Mirrors(s.number)) else before
  }

  /** What becomes of segment `i`. */
  function LoadedAt(p: Program, segs: seq<Segment>, c: Cursor, i: nat): (t: Segment)
    requires i < |segs|
    ensures t.memory == segs[i].memory && t.wide == segs[i].wide && t.psize == segs[i].psize
    ensures t.vsize == segs[i].vsize || t.vsize == STACK_SEGMENT
  {
    var s := segs[i];
    if s.memory then LoadedAs(p, CursorAt(p, segs, c, i), s, p.Mirrors(s.number)) else s
  }

  /** The table once all segments are placed. */
  function Loaded(p: Program, segs: seq<Segment>, c: Cursor): (now: seq<Segment>)
    ensures |now| == |segs|
  {
    seq(|segs|, i requires 0 <= i < |segs| => LoadedAt(p, segs, c, i))
  }

  predicate Sixteen(s: Segment)
  {
    s.memory && !s.wide
  }

  /** 16-bit segments start on pages from `start` on, each above the ends of those before it. */
  ghost predicate Placement(now: seq<Segment>, start: nat)
  {
    forall i :: 0 <= i < |now| ==> WellPlaced(now, start, i)
  }

  ghost predicate WellPlaced(now: seq<Segment>, start: nat, i: nat)
    requires i < |now|
  {
    Sixteen(now[i]) ==> AboveAll(now, start, i, now[i].rbase)
  }

  /** `a` is on a page from `start` on, above the 16-bit segments before segment `i`. */
  ghost predicate AboveAll(now: seq<Segment>, start: nat, i: nat, a: nat)
    requires i <= |now|
  {
    OnPage(a) && start <= a && forall j :: 0 <= j < i && Sixteen(now[j]) ==> now[j].End() <= a
  }

  /** Placed 16-bit segments share no byte, start on pages and lie above `start`. */
  lemma Disjoint(now: seq<Segment>, start: nat, i: nat, j: nat)
    requires Placement(now, start) && i < |now| && j < |now| && i != j && Sixteen(now[i]) && Sixteen(now[j])
    ensures now[i].rbase % PAGE_SIZE == 0 && start <= now[i].rbase
    ensures now[i].End() <= now[j].rbase || now[j].End() <= now[i].rbase
  {
    assert WellPlaced(now, start, i) && WellPlaced(now, start, j);
    OnPageMeaning(now[i].rbase);
  }

  // ---------------------------------------------------------------- when segments are well placed

  /** Segment `i` determines the free address behind it. */
  predicate SetsAddress(p: Program, segs: seq<Segment>, c: Cursor, i: nat)
    requires i < |segs|
  {
    segs[i].memory && (!segs[i].wide || Strays(p, CursorAt(p, segs, c, i), segs[i]))
  }

  /** The last segment before `i` that determines the free address, -1 if there is none. */
  function LastSetter(p: Program, segs: seq<Segment>, c: Cursor, i: nat): (k: int)
    requires i <= |segs|
    ensures -1 <= k < i && (k >= 0 ==> SetsAddress(p, segs, c, k))
    ensures forall j :: k < j < i ==> !SetsAddress(p, segs, c, j)
  {
    if i == 0 then -1 else if SetsAddress(p, segs, c, i - 1) then i - 1 else LastSetter(p, segs, c, i - 1)
  }

  /** Every segment finds the address that the last one to determine it left. */
  lemma {:induction false} FreeAddress(p: Program, segs: seq<Segment>, c: Cursor, i: nat)
    requires i <= |segs|
    ensures var k := LastSetter(p, segs, c, i);
            CursorAt(p, segs, c, i).addr
            == if k < 0 then c.addr else if segs[k].wide then Target(p, segs[k]) else PageUp(LoadedAt(p, segs, c, k).End())
  {
    if i > 0 && !SetsAddress(p, segs, c, i - 1) {
      FreeAddress(p, segs, c, i - 1);
    }
  }

  /** Each 16-bit segment that comes behind a straying one is led to a page above all 16-bit segments before. */
  ghost predicate StraysFit(p: Program, segs: seq<Segment>, c: Cursor)
  {
    forall i :: 0 <= i < |segs| && Sixteen(segs[i]) ==> StrayFits(p, segs, c, LastSetter(p, segs, c, i))
  }

  ghost predicate StrayFits(p: Program, segs: seq<Segment>, c: Cursor, k: int)
    requires -1 <= k < |segs|
  {
    k >= 0 && segs[k].wide ==> AboveAll(Loaded(p, segs, c), c.addr, k, Target(p, segs[k]))
  }

  /** A 16-bit segment is well placed if those before it are and the last straying one fits. */
  lemma PlacedNext(p: Program, segs: seq<Segment>, c: Cursor, i: nat)
    requires OnPage(c.addr) && i < |segs| && Sixteen(segs[i]) && StrayFits(p, segs, c, LastSetter(p, segs, c, i))
    requires forall j :: 0 <= j < i ==> WellPlaced(Loaded(p, segs, c), c.addr, j)
    ensures WellPlaced(Loaded(p, segs, c), c.addr, i)
  {
    var now, k, a := Loaded(p, segs, c), LastSetter(p, segs, c, i), CursorAt(p, segs, c, i).addr;
    FreeAddress(p, segs, c, i);
    assert now[i].rbase == a;
    assert k >= 0 ==> WellPlaced(now, c.addr, k);
    forall j | 0 <= j < i && Sixteen(now[j]) ensures now[j].End() <= a {
      assert SetsAddress(p, segs, c, j);
    }
  }

  lemma {:induction false} PlacedAll(p: Program, segs: seq<Segment>, c: Cursor, n: nat)
    requires OnPage(c.addr) && StraysFit(p, segs, c) && n <= |segs|
    ensures forall i :: 0 <= i < n ==> WellPlaced(Loaded(p, segs, c), c.addr, i)
  {
    if n > 0 {
      PlacedAll(p, segs, c, n - 1);
      if Sixteen(segs[n - 1]) {
        PlacedNext(p, segs, c, n - 1);
      }
    }
  }

  lemma PlacedFits(p: Program, segs: seq<Segment>, c: Cursor, i: nat)
    requires i < |segs| && Sixteen(segs[i]) && WellPlaced(Loaded(p, segs, c), c.addr, i)
    ensures StrayFits(p, segs, c, LastSetter(p, segs, c, i))
  {
    FreeAddress(p, segs, c, i);
  }

  /**
    The 16-bit segments are placed one above the other if and only if each straying segment with a 16-bit
    one behind it moves the free address to a page at or above the start and above the 16-bit ends before.
   */
  lemma PlacementIff(p: Program, segs: seq<Segment>, c: Cursor)
    requires OnPage(c.addr)
    ensures Placement(Loaded(p, segs, c), c.addr) <==> StraysFit(p, segs, c)
  {
    var now := Loaded(p, segs, c);
    if StraysFit(p, segs, c) {
      PlacedAll(p, segs, c, |segs|);
    }
    if Placement(now, c.addr) {
      forall i | 0 <= i < |segs| && Sixteen(segs[i]) ensures StrayFits(p, segs, c, LastSetter(p, segs, c, i)) {
        assert WellPlaced(now, c.addr, i);
        PlacedFits(p, segs, c, i);
      }
    }
  }

  /** Without 32-bit segments in memory there is nothing that strays. */
  lemma NarrowFits(p: Program, segs: seq<Segment>, c: Cursor)
    requires OnPage(c.addr) && forall i :: 0 <= i < |segs| ==> !(segs[i].memory && segs[i].wide)
    ensures Placement(Loaded(p, segs, c), c.addr)
  {
    PlacementIff(p, segs, c);
  }

  // ---------------------------------------------------------------- end markers and break

  /** A segment in memory of the kind, or one mirrored as text. */
  predicate CountsAs(p: Program, s: Segment, kind: Kind)
  {
    s.memory && (s.kind == kind || (kind == Text && p.Mirrors(s.number)))
  }

  /** The end marker for a kind, from `low` on; `was` is the table given and `now` the one placed. */
  function MarkerOf(p: Program, was: seq<Segment>, now: seq<Segment>, kind: Kind, low: nat): nat
    requires |was| == |now|
    decreases |was|
  {
    if was == [] then low
    else
      var n := |was| - 1;
      Raised(MarkerOf(p, was[..n], now[..n], kind, low), CountsAs(p, was[n], kind), now[n].FileEnd())
  }

  /** `end` is passed by no segment of the kind and, unless it is `low`, reached by one. */
  ghost predicate IsMaxEnd(p: Program, was: seq<Segment>, now: seq<Segment>, kind: Kind, low: nat, end: nat)
    requires |was| == |now|
  {
    && low <= end
    && (forall i :: 0 <= i < |was| && CountsAs(p, was[i], kind) ==> now[i].FileEnd() <= end)
    && (end == low || exists i :: 0 <= i < |was| && CountsAs(p, was[i], kind) && now[i].FileEnd() == end)
  }

  /** The end markers are the maxima over the segments of their kind. */
  lemma {:induction false} EndsAreMaxima(p: Program, was: seq<Segment>, now: seq<Segment>, kind: Kind, low: nat)
    requires |was| == |now|
    ensures IsMaxEnd(p, was, now, kind, low, MarkerOf(p, was, now, kind, low))
    decreases |was|
  {
    if was != [] {
      var n := |was| - 1;
      var was', now' := was[..n], now[..n];
      EndsAreMaxima(p, was', now', kind, low);
      var r, end := MarkerOf(p, was', now', kind, low), MarkerOf(p, was, now, kind, low);
      forall i | 0 <= i < |was| && CountsAs(p, was[i], kind) ensures now[i].FileEnd() <= end {
        assert i < n ==> was'[i] == was[i] && now'[i] == now[i];
      }
      if end == r && r != low {
        var i :| 0 <= i < n && CountsAs(p, was'[i], kind) && now'[i].FileEnd() == r;
        assert was[i] == was'[i] && now[i] == now'[i];
      }
    }
  }

  /** The break after the segments `now`. */
  function BrkOf(now: seq<Segment>, brk: nat): nat
    decreases |now|
  {
    if now == [] then brk
    else
      var n := |now| - 1;
      var before := BrkOf(now[..n], brk);
      if now[n].memory then BrkAbove(before, now[n].End()) else before
  }

  /** It is below no segment's end, and on the page behind one of them unless it did not move. */
  lemma {:induction false} BrkMeaning(now: seq<Segment>, brk: nat)
    ensures forall i :: 0 <= i < |now| && now[i].memory ==> now[i].End() <= BrkOf(now, brk)
    ensures brk <= BrkOf(now, brk)
    ensures BrkOf(now, brk) == brk
         || exists i :: 0 <= i < |now| && now[i].memory && BrkOf(now, brk) == PageUp(now[i].End())
    decreases |now|
  {
    if now != [] {
      var n := |now| - 1;
      var now' := now[..n];
      BrkMeaning(now', brk);
      var r, end := BrkOf(now', brk), BrkOf(now, brk);
      forall i | 0 <= i < |now| && now[i].memory ensures now[i].End() <= end {
        assert i < n ==> now'[i] == now[i];
      }
      if end == r && r != brk {
        var i :| 0 <= i < n && now'[i].memory && r == PageUp(now'[i].End());
        assert now[i] == now'[i];
      }
    }
  }

  // ---------------------------------------------------------------- the segment loop

  const X286_MAP_ADDR := 0x4000000

  /** Where placing begins: above the headers that are kept for the 286 emulator. */
  method FirstFree(is386: bool, headers: nat) returns (start: nat)
    requires OnPage(X286_MAP_ADDR)
    ensures OnPage(start) && start >= X286_MAP_ADDR + (if is386 then 0 else headers)
    ensures start < X286_MAP_ADDR + (if is386 then 1 else headers + PAGE_SIZE)
  {
    start := X286_MAP_ADDR;
    if !is386 {
      start := PageUp(start + headers);
    }
  }

  /** The first `n` segments have been placed, the others are as they were. */
  ghost predicate LoadedTo(p: Program, was: seq<Segment>, now: seq<Segment>, c: Cursor, n: nat)
  {
    |now| == |was| && n <= |was| && forall i :: 0 <= i < |was| ==> now[i] == if i < n then LoadedAt(p, was, c, i) else was[i]
  }

  /** Cursor, markers and break after the first `n` segments. */
  ghost predicate LoaderAt(l: Loader, was: seq<Segment>, now: seq<Segment>, c: Cursor, n: nat, code: nat, data: nat, brk: nat)
    requires n <= |was| == |now|
    reads l
  {
    && l.cursor == CursorAt(l.p, was, c, n)
    && l.endCode == MarkerOf(l.p, was[..n], now[..n], Text, code)
    && l.endData == MarkerOf(l.p, was[..n], now[..n], Data, data)
    && l.startBrk == l.brk == BrkOf(now[..n], brk)
  }

  /** The first segment that is not placed ends the loop. */
  ghost predicate Stopped(p: Program, was: seq<Segment>, mapped: nat -> int, mirror: nat -> int, r: Outcome, n: nat)
  {
    && n <= |was| && (r == Placed ==> n == |was|) && (r != Placed ==> 0 < n && r == Result(p, was[n - 1], mapped(n - 1), mirror(n - 1)))
    && forall i :: 0 <= i < n && (r == Placed || i < n - 1) ==> Result(p, was[i], mapped(i), mirror(i)) == Placed
  }

  lemma {:induction false} NextSegment(p: Program, was: seq<Segment>, now: seq<Segment>, n: nat, code: nat, data: nat, brk: nat, t: Segment)
    requires n < |was| == |now|
    ensures var after := now[n := t];
            && MarkerOf(p, was[..n + 1], after[..n + 1], Text, code)
               == Raised(MarkerOf(p, was[..n], now[..n], Text, code), CountsAs(p, was[n], Text), t.FileEnd())
            && MarkerOf(p, was[..n + 1], after[..n + 1], Data, data)
               == Raised(MarkerOf(p, was[..n], now[..n], Data, data), CountsAs(p, was[n], Data), t.FileEnd())
            && BrkOf(after[..n + 1], brk) == if t.memory then BrkAbove(BrkOf(now[..n], brk), t.End()) else BrkOf(now[..n], brk)
  {
    var after := now[n := t];
    assert was[..n + 1][..n] == was[..n] && after[..n + 1][..n] == now[..n];
  }

  /** One round of the segment loop. */
  method LoadSegment(l: Loader, segs: array<Segment>, n: nat, mapped: int, mirror: int,
                     ghost was: seq<Segment>, ghost c: Cursor, ghost code: nat, ghost data: nat, ghost brk: nat)
    returns (r: Outcome)
    requires n < segs.Length && LoadedTo(l.p, was, segs[..], c, n) && LoaderAt(l, was, segs[..], c, n, code, data, brk)
    modifies l, segs
    ensures r == Result(l.p, was[n], mapped, mirror) && segs[..n] == old(segs[..n]) && segs[n + 1..] == old(segs[n + 1..])
    ensures r != Failed ==> LoadedTo(l.p, was, segs[..], c, n + 1) && LoaderAt(l, was, segs[..], c, n + 1, code, data, brk)
    ensures r == Failed ==>
      segs[n] == LoadedAs(l.p, CursorAt(l.p, was, c, n), was[n], mapped >= 0 && l.p.Mirrors(was[n].number))
  {
    var s := segs[n];
    assert s == was[n];
    var t := s;
    ghost var before := segs[..];
    r := Placed;
    if s.memory {
      r, t := l.XoutAmen(s, mapped, mirror);
    }
    NextSegment(l.p, was, before, n, code, data, brk, t);
    segs[n] := t;
    assert segs[..] == before[n := t];
  }

  /** The segment loop of `xout_load_object`: `n` segments of the table have been gone through. */
  method LoadSegments(l: Loader, segs: array<Segment>, mapped: nat -> int, mirror: nat -> int)
    returns (r: Outcome, n: nat)
    requires l.startBrk == l.brk
    modifies l, segs
    ensures Stopped(l.p, old(segs[..]), mapped, mirror, r, n)
    ensures r == Placed ==> segs[..] == Loaded(l.p, old(segs[..]), old(l.cursor))
    ensures r != Failed ==>
      && LoadedTo(l.p, old(segs[..]), segs[..], old(l.cursor), n)
      && LoaderAt(l, old(segs[..]), segs[..], old(l.cursor), n, old(l.endCode), old(l.endData), old(l.brk))
    ensures r == Failed ==>
      var was := old(segs[..]);
      && LoadedTo(l.p, was, segs[..][n - 1 := was[n - 1]], old(l.cursor), n - 1)
      && segs[n - 1] == LoadedAs(l.p, CursorAt(l.p, was, old(l.cursor), n - 1), was[n - 1],
                                 mapped(n - 1) >= 0 && l.p.Mirrors(was[n - 1].number))
  {
    ghost var was, c, code, data, brk := segs[..], l.cursor, l.endCode, l.endData, l.brk;
    r, n := Placed, 0;
    assert was[..0] == [];
    while r == Placed && n < segs.Length
      invariant n <= segs.Length == |was| && (r != Placed ==> 0 < n)
      invariant forall i :: 0 <= i < n && (r == Placed || i < n - 1) ==> Result(l.p, was[i], mapped(i), mirror(i)) == Placed
      invariant r != Placed ==> r == Result(l.p, was[n - 1], mapped(n - 1), mirror(n - 1))
      invariant r != Failed ==> LoadedTo(l.p, was, segs[..], c, n) && LoaderAt(l, was, segs[..], c, n, code, data, brk)
      invariant r == Failed ==>
        && LoadedTo(l.p, was, segs[..][n - 1 := was[n - 1]], c, n - 1)
        && segs[n - 1] == LoadedAs(l.p, CursorAt(l.p, was, c, n - 1), was[n - 1], mapped(n - 1) >= 0 && l.p.Mirrors(was[n - 1].number))
      decreases segs.Length - n
    {
      ghost var before := segs[..];
      r := LoadSegment(l, segs, n, mapped(n), mirror(n), was, c, code, data, brk);
      assert segs[..][n := was[n]] == before by {
        assert segs[..] == segs[..n] + [segs[n]] + segs[n + 1..];
      }
      n := n + 1;
    }
  }

  // ---------------------------------------------------------------- an input that overlaps

  function CountKind(segs: seq<Segment>, kind: Kind): nat
  {
    if segs == [] then 0 else (if segs[0].kind == kind then 1 else 0) + CountKind(segs[1..], kind)
  }

  /** One data segment and, behind it, two 32-bit segments for one address, each followed by a 16-bit one. */
  function OverlappingTable(base: nat): seq<Segment>
  {
    var wide := Segment(OtherKind, true, true, MIRRORED_FROM, 0, 0, base);
    var small := Segment(OtherKind, false, true, 0, 0, 1, 0);
    [small.(kind := Data), wide, small, wide, small]
  }

  lemma CountFrom(segs: seq<Segment>, k: nat, kind: Kind)
    requires k < |segs|
    ensures CountKind(segs[k..], kind) == (if segs[k].kind == kind then 1 else 0) + CountKind(segs[k + 1..], kind)
  {
    assert segs[k..][1..] == segs[k + 1..];
  }

  lemma OverlappingIsImpure(base: nat, kind: Kind)
    ensures CountKind(OverlappingTable(base), kind) == match kind case Text => 0 case Data => 1 case OtherKind => 4
  {
    var segs := OverlappingTable(base);
    assert segs[0..] == segs;
    CountFrom(segs, 0, kind);
    CountFrom(segs, 1, kind);
    CountFrom(segs, 2, kind);
    CountFrom(segs, 3, kind);
    CountFrom(segs, 4, kind);
  }

  /** In this impure program two 16-bit segments get the same byte. */
  lemma StrayOverlap(p: Program, base: nat, c: Cursor)
    requires p.impure && p.entry < MIRRORED_FROM
    ensures var segs := OverlappingTable(base);
            var now := Loaded(p, segs, c);
            && CountKind(segs, Text) == 0 && CountKind(segs, Data) == 1
            && (forall i :: 0 <= i < |segs| ==> Result(p, segs[i], 0, 0) == Placed)
            && Sixteen(now[2]) && Sixteen(now[4]) && now[2].rbase == now[4].rbase == base < now[2].End() && !Placement(now, c.addr)
  {
    var segs := OverlappingTable(base);
    var now := Loaded(p, segs, c);
    OverlappingIsImpure(base, Text);
    OverlappingIsImpure(base, Data);
    FreeAddress(p, segs, c, 2);
    FreeAddress(p, segs, c, 4);
    assert SetsAddress(p, segs, c, 1) && SetsAddress(p, segs, c, 3);
    assert Sixteen(now[2]) && now[2].End() == base + 1 > now[4].rbase;
    assert !WellPlaced(now, c.addr, 4);
  }
}
