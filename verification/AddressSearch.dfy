/**
  The search for an unmapped address range, sped up by `free_area_cache` and
  `cached_hole_size`.
 */
module AddressSearch {
  import opened Words
  import opened Options

  /** One more than the largest `unsigned long`. */
  const WORD: nat := 0x1_0000_0000_0000_0000

  datatype Vma = Vma(start: nat, end: nat)

  /** A mapped area list: nonempty, disjoint and in order. */
  ghost predicate Sorted(vmas: seq<Vma>)
  {
    && (forall i :: 0 <= i < |vmas| ==> vmas[i].start < vmas[i].end)
    && (forall i, j :: 0 <= i < j < |vmas| ==> vmas[i].end <= vmas[j].start)
  }

  ghost predicate Apart(v: Vma, a: nat, len: nat)
  {
    v.end <= a || a + len <= v.start
  }

  /** No mapping reaches into `[a, a + len)`. */
  ghost predicate Free(vmas: seq<Vma>, a: nat, len: nat)
  {
    forall i :: 0 <= i < |vmas| ==> Apart(vmas[i], a, len)
  }

  ghost predicate Fits(vmas: seq<Vma>, a: nat, len: nat, begin: nat, end: nat)
  {
    begin <= a && a + len <= end && Free(vmas, a, len)
  }

  /** The address plain first-fit from `begin` returns. */
  ghost predicate LeastFit(vmas: seq<Vma>, a: nat, len: nat, begin: nat, end: nat)
  {
    Fits(vmas, a, len, begin, end) && forall b :: Fits(vmas, b, len, begin, end) ==> a <= b
  }

  ghost predicate NoFit(vmas: seq<Vma>, len: nat, begin: nat, end: nat)
  {
    forall b :: !Fits(vmas, b, len, begin, end)
  }

  /** `find_vma`: the first area that ends behind `addr`. */
  function FindVma(vmas: seq<Vma>, addr: nat): (i: nat)
    ensures i <= |vmas|
    ensures i < |vmas| ==> addr < vmas[i].end
    ensures forall k :: 0 <= k < i ==> vmas[k].end <= addr
  {
    if vmas == [] || addr < vmas[0].end then 0
    else
      var i := FindVma(vmas[1..], addr);
      assert forall k :: 0 < k < i + 1 ==> vmas[k] == vmas[1..][k - 1];
      i + 1
  }

  /** The loop remembers the largest hole it has passed over, in `unsigned long` arithmetic. */
  function Grow(hole: nat, addr: nat, start: nat): nat
  {
    if (addr + hole) % WORD < start then (start - addr) % WORD else hole
  }

  datatype Scanned = Found(addr: nat, hole: nat) | Exhausted(hole: nat)

  /** The search loop, standing before area `i` with `addr` as the candidate. */
  function Scan(vmas: seq<Vma>, i: nat, addr: nat, len: nat, end: nat, hole: nat): Scanned
    requires i <= |vmas| && len <= end
    decreases |vmas| - i
  {
    if end - len < addr then Exhausted(hole)
    else if i == |vmas| || addr + len <= vmas[i].start then Found(addr, hole)
    else Scan(vmas, i + 1, vmas[i].end, len, end, Grow(hole, addr, vmas[i].start))
  }

  /** `addr` is the lowest address that can still be tried: everything before area `i` is behind it. */
  ghost predicate Standing(vmas: seq<Vma>, i: nat, addr: nat)
  {
    && i <= |vmas| && (i < |vmas| ==> addr < vmas[i].end)
    && forall k :: 0 <= k < i ==> vmas[k].end <= addr
  }

  lemma {:induction false} ScanIsFirstFit(vmas: seq<Vma>, i: nat, addr: nat, len: nat, end: nat, hole: nat)
    requires Sorted(vmas) && Standing(vmas, i, addr) && len <= end
    ensures match Scan(vmas, i, addr, len, end, hole)
            case Found(a, _) => LeastFit(vmas, a, len, addr, end)
            case Exhausted(_) => NoFit(vmas, len, addr, end)
    decreases |vmas| - i
  {
    if addr <= end - len {
      if i == |vmas| || addr + len <= vmas[i].start {
        forall k | 0 <= k < |vmas| ensures Apart(vmas[k], addr, len) {}
      } else {
        var next := vmas[i].end;
        ScanIsFirstFit(vmas, i + 1, next, len, end, Grow(hole, addr, vmas[i].start));
        forall b | Fits(vmas, b, len, addr, end) ensures Fits(vmas, b, len, next, end) {
          assert Apart(vmas[i], b, len);
        }
        forall b | Fits(vmas, b, len, next, end) ensures Fits(vmas, b, len, addr, end) {}
      }
    }
  }

  /** What a search returns and leaves in the two cache fields. */
  datatype Outcome = Outcome(addr: Option<nat>, cache: nat, hole: nat)

  function Ended(r: Scanned, len: nat, cache: nat): Outcome
  {
    match r
    case Found(a, h) => Outcome(Some(a), a + len, h)
    case Exhausted(h) => Outcome(None, cache, h)
  }

  function ScanFrom(vmas: seq<Vma>, addr: nat, len: nat, end: nat, hole: nat): Scanned
    requires len <= end
  {
    Scan(vmas, FindVma(vmas, addr), addr, len, end, hole)
  }

  /**
    `arch_get_unmapped_area` behind the hint: `low` says that the request is for 32-bit addresses,
    which is when the hole size is consulted.
   */
  function Search(vmas: seq<Vma>, begin: nat, end: nat, len: nat, low: bool, cache: nat, hole: nat): Outcome
    requires len <= end
  {
    var reset := low && len <= hole;
    var cache0, hole0 := if reset then begin else cache, if reset then 0 else hole;
    var start := if cache0 < begin then begin else cache0;
    var r := ScanFrom(vmas, start, len, end, hole0);
    if r.Exhausted? && start != begin then Ended(ScanFrom(vmas, begin, len, end, 0), len, cache0)
    else Ended(r, len, cache0)
  }

  /**
    Whatever the cache fields hold, the range returned lies in the window and meets no mapping,
    and the search fails exactly if there is no such range.
   */
  lemma SearchIsSound(vmas: seq<Vma>, begin: nat, end: nat, len: nat, low: bool, cache: nat, hole: nat)
    requires Sorted(vmas) && len <= end
    ensures var r := Search(vmas, begin, end, len, low, cache, hole);
            && (r.addr.Some? ==> Fits(vmas, r.addr.value, len, begin, end))
            && (r.addr.None? <==> NoFit(vmas, len, begin, end))
  {
    var reset := low && len <= hole;
    var cache0, hole0 := if reset then begin else cache, if reset then 0 else hole;
    var start := if cache0 < begin then begin else cache0;
    ScanIsFirstFit(vmas, FindVma(vmas, start), start, len, end, hole0);
    ScanIsFirstFit(vmas, FindVma(vmas, begin), begin, len, end, 0);
    forall b | Fits(vmas, b, len, start, end) ensures Fits(vmas, b, len, begin, end) {}
  }

  // ---------------------------------------------------------------- the cache never changes the answer

  /** `hole` bounds every free range that starts below the cached address. */
  ghost predicate HolesBounded(vmas: seq<Vma>, begin: nat, cache: nat, hole: nat)
  {
    forall a, n: nat :: begin <= a < cache && Free(vmas, a, n) ==> n <= hole
  }

  lemma GrowIsMax(hole: nat, addr: nat, start: nat)
    requires addr + hole < WORD && start < WORD
    ensures Grow(hole, addr, start) == if addr + hole < start then start - addr else hole
  {}

  /** The holes a scan passes over are accounted for. */
  lemma {:induction false} ScanBoundsHoles(vmas: seq<Vma>, i: nat, addr: nat, len: nat, end: nat, hole: nat, begin: nat)
    requires Sorted(vmas) && Standing(vmas, i, addr) && len <= end && 2 * end < WORD
    requires begin <= addr && hole <= end && HolesBounded(vmas, begin, addr, hole)
    ensures match Scan(vmas, i, addr, len, end, hole)
            case Found(a, h) => hole <= h <= end && HolesBounded(vmas, begin, a, h)
            case Exhausted(_) => true
    decreases |vmas| - i
  {
    if addr <= end - len && i < |vmas| && vmas[i].start < addr + len {
      GrowIsMax(hole, addr, vmas[i].start);
      var h, next := Grow(hole, addr, vmas[i].start), vmas[i].end;
      forall a, n: nat | begin <= a < next && Free(vmas, a, n) ensures n <= h {
        if addr <= a { assert Apart(vmas[i], a, n); }
      }
      ScanBoundsHoles(vmas, i + 1, next, len, end, h, begin);
    }
  }

  /** Between searches: the cache bounds the holes below it, or no search has been made yet. */
  ghost predicate CacheOk(vmas: seq<Vma>, begin: nat, end: nat, cache: nat, hole: nat)
  {
    || (begin <= cache && hole <= end && HolesBounded(vmas, begin, cache, hole))
    || (cache == begin && hole == WORD - 1)
  }

  /** With a good cache a low search returns what plain first-fit would, and bounds the holes it passed. */
  lemma CachedSearchIsFirstFit(vmas: seq<Vma>, begin: nat, end: nat, len: nat, cache: nat, hole: nat)
    requires Sorted(vmas) && len <= end && 2 * end < WORD && CacheOk(vmas, begin, end, cache, hole)
    ensures var r := Search(vmas, begin, end, len, true, cache, hole);
            match r.addr
            case Some(a) => LeastFit(vmas, a, len, begin, end) && r.cache == a + len
                            && begin <= a && r.hole <= end && HolesBounded(vmas, begin, a, r.hole)
            case None => NoFit(vmas, len, begin, end)
  {
    var reset := len <= hole;
    var start, hole0 := if reset then begin else cache, if reset then 0 else hole;
    assert HolesBounded(vmas, begin, start, hole0);
    var i := FindVma(vmas, start);
    ScanIsFirstFit(vmas, i, start, len, end, hole0);
    ScanBoundsHoles(vmas, i, start, len, end, hole0, begin);
    forall b | Fits(vmas, b, len, begin, end) ensures Fits(vmas, b, len, start, end) {
      assert Free(vmas, b, len);
    }
    SearchIsSound(vmas, begin, end, len, true, cache, hole);
  }

  // ---------------------------------------------------------------- runs

  /** Puts a mapping into the list. */
  function Link(vmas: seq<Vma>, v: Vma): seq<Vma>
  {
    if vmas == [] || v.start < vmas[0].end then [v] + vmas else [vmas[0]] + Link(vmas[1..], v)
  }

  lemma FreeCons(v: Vma, vmas: seq<Vma>, a: nat, n: nat)
    ensures Free([v] + vmas, a, n) <==> Apart(v, a, n) && Free(vmas, a, n)
  {
    var w := [v] + vmas;
    assert w[0] == v && forall k :: 0 <= k < |vmas| ==> vmas[k] == w[k + 1];
  }

  lemma {:induction false} LinkFree(vmas: seq<Vma>, v: Vma, a: nat, n: nat)
    ensures Free(Link(vmas, v), a, n) <==> Free(vmas, a, n) && Apart(v, a, n)
  {
    if vmas == [] || v.start < vmas[0].end {
      FreeCons(v, vmas, a, n);
    } else {
      LinkFree(vmas[1..], v, a, n);
      FreeCons(vmas[0], Link(vmas[1..], v), a, n);
      FreeCons(vmas[0], vmas[1..], a, n);
      assert vmas == [vmas[0]] + vmas[1..];
    }
  }

  lemma SortedCons(v: Vma, vmas: seq<Vma>)
    requires Sorted(vmas) && v.start < v.end && (forall i :: 0 <= i < |vmas| ==> v.end <= vmas[i].start)
    ensures Sorted([v] + vmas)
  {
    var w := [v] + vmas;
    assert w[0] == v && forall k :: 0 < k < |w| ==> w[k] == vmas[k - 1];
  }

  /** Linking keeps the order, and everything linked starts behind what all of it was behind. */
  lemma {:induction false} LinkSorted(vmas: seq<Vma>, v: Vma, low: nat)
    requires Sorted(vmas) && v.start < v.end && Free(vmas, v.start, v.end - v.start)
    requires low <= v.start && forall i :: 0 <= i < |vmas| ==> low <= vmas[i].start
    ensures Sorted(Link(vmas, v)) && forall i :: 0 <= i < |Link(vmas, v)| ==> low <= Link(vmas, v)[i].start
  {
    if vmas == [] || v.start < vmas[0].end {
      if vmas != [] { assert Apart(vmas[0], v.start, v.end - v.start); }
      SortedCons(v, vmas);
    } else {
      var rest := vmas[1..];
      assert forall k :: 0 <= k < |rest| ==> rest[k] == vmas[k + 1];
      LinkSorted(rest, v, vmas[0].end);
      SortedCons(vmas[0], Link(rest, v));
    }
  }

  /** A new mapping only takes free space away. */
  lemma LinkKeepsBound(vmas: seq<Vma>, v: Vma, begin: nat, cache: nat, hole: nat)
    requires HolesBounded(vmas, begin, cache, hole)
    ensures HolesBounded(Link(vmas, v), begin, cache, hole)
  {
    forall a, n: nat | begin <= a < cache && Free(Link(vmas, v), a, n) ensures n <= hole {
      LinkFree(vmas, v, a, n);
    }
  }

  /** The range just found counts as mapped, so the bound reaches to its end. */
  lemma LinkExtendsBound(vmas: seq<Vma>, v: Vma, begin: nat, hole: nat)
    requires HolesBounded(vmas, begin, v.start, hole)
    ensures HolesBounded(Link(vmas, v), begin, v.end, hole)
  {
    forall a, n: nat | begin <= a < v.end && Free(Link(vmas, v), a, n) ensures n <= hole {
      LinkFree(vmas, v, a, n);
    }
  }

  datatype Space = Space(vmas: seq<Vma>, cache: nat, hole: nat)

  /** A request with a hint (0 for none), or a mapping made elsewhere in free space. */
  datatype Op = Map(hint: nat, len: nat) | MapFixed(v: Vma)

  /** The hint part of `arch_get_unmapped_area`: a hint that fits below `end` is taken as it is. */
  ghost predicate HintTaken(vmas: seq<Vma>, hint: nat, len: nat, end: nat)
    requires len <= end
  {
    hint != 0 &&
    var addr := AlignUp(hint, PAGE_SIZE);
    var i := FindVma(vmas, addr);
    addr <= end - len && (i == |vmas| || addr + len <= vmas[i].start)
  }

  ghost predicate CanApply(s: Space, begin: nat, end: nat, op: Op)
  {
    match op
    case Map(hint, len) =>
      0 < len <= end &&
      (HintTaken(s.vmas, hint, len, end) || Search(s.vmas, begin, end, len, true, s.cache, s.hole).addr.Some?)
    case MapFixed(v) => v.start < v.end && Free(s.vmas, v.start, v.end - v.start)
  }

  /** One successful request of a 32-bit task followed by the insertion of its mapping. */
  ghost function Apply(s: Space, begin: nat, end: nat, op: Op): Space
    requires CanApply(s, begin, end, op)
  {
    match op
    case Map(hint, len) =>
      if HintTaken(s.vmas, hint, len, end) then
        var a := AlignUp(hint, PAGE_SIZE);
        s.(vmas := Link(s.vmas, Vma(a, a + len)))
      else
        var r := Search(s.vmas, begin, end, len, true, s.cache, s.hole);
        Space(Link(s.vmas, Vma(r.addr.value, r.addr.value + len)), r.cache, r.hole)
    case MapFixed(v) => s.(vmas := Link(s.vmas, v))
  }

  ghost predicate SpaceOk(s: Space, begin: nat, end: nat)
  {
    Sorted(s.vmas) && CacheOk(s.vmas, begin, end, s.cache, s.hole)
  }

  lemma HintIsFree(vmas: seq<Vma>, hint: nat, len: nat, end: nat)
    requires Sorted(vmas) && len <= end && HintTaken(vmas, hint, len, end)
    ensures Fits(vmas, AlignUp(hint, PAGE_SIZE), len, 0, end)
  {
    var a := AlignUp(hint, PAGE_SIZE);
    forall k | 0 <= k < |vmas| ensures Apart(vmas[k], a, len) {}
  }

  lemma MapKeeps(s: Space, begin: nat, end: nat, v: Vma)
    requires SpaceOk(s, begin, end) && v.start < v.end && Free(s.vmas, v.start, v.end - v.start)
    ensures SpaceOk(s.(vmas := Link(s.vmas, v)), begin, end)
  {
    LinkSorted(s.vmas, v, 0);
    if HolesBounded(s.vmas, begin, s.cache, s.hole) {
      LinkKeepsBound(s.vmas, v, begin, s.cache, s.hole);
    }
  }

  lemma HintKeeps(s: Space, begin: nat, end: nat, hint: nat, len: nat)
    requires SpaceOk(s, begin, end) && 0 < len <= end && HintTaken(s.vmas, hint, len, end)
    ensures var a := AlignUp(hint, PAGE_SIZE); SpaceOk(s.(vmas := Link(s.vmas, Vma(a, a + len))), begin, end)
  {
    var a := AlignUp(hint, PAGE_SIZE);
    HintIsFree(s.vmas, hint, len, end);
    MapKeeps(s, begin, end, Vma(a, a + len));
  }

  lemma SearchKeeps(s: Space, begin: nat, end: nat, len: nat)
    requires SpaceOk(s, begin, end) && 2 * end < WORD && 0 < len <= end
    ensures var r := Search(s.vmas, begin, end, len, true, s.cache, s.hole);
            r.addr.Some? ==>
              SpaceOk(Space(Link(s.vmas, Vma(r.addr.value, r.addr.value + len)), r.cache, r.hole), begin, end)
  {
    CachedSearchIsFirstFit(s.vmas, begin, end, len, s.cache, s.hole);
    var r := Search(s.vmas, begin, end, len, true, s.cache, s.hole);
    if r.addr.Some? {
      var v := Vma(r.addr.value, r.addr.value + len);
      LinkSorted(s.vmas, v, 0);
      LinkExtendsBound(s.vmas, v, begin, r.hole);
    }
  }

  lemma ApplyKeeps(s: Space, begin: nat, end: nat, op: Op)
    requires SpaceOk(s, begin, end) && 2 * end < WORD && CanApply(s, begin, end, op)
    ensures SpaceOk(Apply(s, begin, end, op), begin, end)
  {
    match op
    case MapFixed(v) => MapKeeps(s, begin, end, v);
    case Map(hint, len) =>
      if HintTaken(s.vmas, hint, len, end) {
        HintKeeps(s, begin, end, hint, len);
      } else {
        SearchKeeps(s, begin, end, len);
      }
  }

  ghost predicate IsRun(spaces: seq<Space>, ops: seq<Op>, begin: nat, end: nat)
  {
    && |spaces| == |ops| + 1
    && Sorted(spaces[0].vmas) && spaces[0].cache == begin && spaces[0].hole == WORD - 1
    && forall i :: 0 <= i < |ops| ==>
         CanApply(spaces[i], begin, end, ops[i]) && spaces[i + 1] == Apply(spaces[i], begin, end, ops[i])
  }

  lemma {:induction false} RunKeeps(spaces: seq<Space>, ops: seq<Op>, begin: nat, end: nat, i: nat)
    requires IsRun(spaces, ops, begin, end) && 2 * end < WORD && i < |spaces|
    ensures SpaceOk(spaces[i], begin, end)
  {
    if i > 0 {
      RunKeeps(spaces, ops, begin, end, i - 1);
      ApplyKeeps(spaces[i - 1], begin, end, ops[i - 1]);
      assert spaces[i - 1 + 1] == Apply(spaces[i - 1], begin, end, ops[i - 1]);
    }
  }

  /**
    From a fresh address space with any mappings, after any run of successful requests of a 32-bit task
    and foreign mappings, the next search returns exactly the lowest address that fits.
   */
  lemma CacheIsTransparent(spaces: seq<Space>, ops: seq<Op>, begin: nat, end: nat, len: nat)
    requires IsRun(spaces, ops, begin, end) && 2 * end < WORD && len <= end
    ensures var s := spaces[|ops|];
            match Search(s.vmas, begin, end, len, true, s.cache, s.hole).addr
            case Some(a) => LeastFit(s.vmas, a, len, begin, end)
            case None => NoFit(s.vmas, len, begin, end)
  {
    RunKeeps(spaces, ops, begin, end, |ops|);
    var s := spaces[|ops|];
    CachedSearchIsFirstFit(s.vmas, begin, end, len, s.cache, s.hole);
  }

  // ---------------------------------------------------------------- the code

  datatype Task = Task(ia32: bool, unmappedBase: nat, size: nat)

  /** `find_start_end`. */
  function Window(t: Task, map32: bool): (nat, nat)
  {
    if !t.ia32 && map32 then (0x4000_0000, 0x8000_0000) else (t.unmappedBase, t.size)
  }

  class Mm {
    var vmas: seq<Vma>
    var freeAreaCache: nat
    var cachedHoleSize: nat

    /** The caches as `mm_init` sets them. */
    constructor (t: Task)
      ensures vmas == [] && freeAreaCache == t.unmappedBase && cachedHoleSize == WORD - 1
    {
      vmas, freeAreaCache, cachedHoleSize := [], t.unmappedBase, WORD - 1;
    }

    /** `arch_get_unmapped_area`; `None` stands for `-ENOMEM`. */
    method GetUnmappedArea(t: Task, hint: nat, len: nat, map32: bool) returns (r: Option<nat>)
      modifies this`freeAreaCache, this`cachedHoleSize
      ensures var (begin, end) := Window(t, map32);
              if end < len then
                r == None && freeAreaCache == old(freeAreaCache) && cachedHoleSize == old(cachedHoleSize)
              else if HintTaken(vmas, hint, len, end) then
                r == Some(AlignUp(hint, PAGE_SIZE))
                && freeAreaCache == old(freeAreaCache) && cachedHoleSize == old(cachedHoleSize)
              else
                Outcome(r, freeAreaCache, cachedHoleSize)
                == Search(vmas, begin, end, len, map32 || t.ia32, old(freeAreaCache), old(cachedHoleSize))
    {
      var (begin, end) := Window(t, map32);
      if len > end {
        return None;
      }
      if hint != 0 {
        var a := AlignUp(hint, PAGE_SIZE);
        var i := FindVma(vmas, a);
        if a <= end - len && (i == |vmas| || a + len <= vmas[i].start) {
          return Some(a);
        }
      }
      if (map32 || t.ia32) && len <= cachedHoleSize {
        cachedHoleSize, freeAreaCache := 0, begin;
      }
      var addr := if freeAreaCache < begin then begin else freeAreaCache;
      r := SearchLoop(addr, len, begin, end);
    }

    /** The loop of `arch_get_unmapped_area`, with its one restart from `begin`. */
    method SearchLoop(start: nat, len: nat, begin: nat, end: nat) returns (r: Option<nat>)
      requires len <= end
      modifies this`freeAreaCache, this`cachedHoleSize
      ensures var s := ScanFrom(vmas, start, len, end, old(cachedHoleSize));
              Outcome(r, freeAreaCache, cachedHoleSize)
              == if s.Exhausted? && start != begin
                 then Ended(ScanFrom(vmas, begin, len, end, 0), len, old(freeAreaCache))
                 else Ended(s, len, old(freeAreaCache))
    {
      var addr: nat, startAddr: nat := start, start;
      var i: nat := FindVma(vmas, addr);
      ghost var goal := ScanFrom(vmas, start, len, end, cachedHoleSize);
      while true
        invariant i <= |vmas| && freeAreaCache == old(freeAreaCache)
        invariant goal == Scan(vmas, i, addr, len, end, cachedHoleSize)
        invariant startAddr != begin ==> startAddr == start && goal == ScanFrom(vmas, start, len, end, old(cachedHoleSize))
        invariant startAddr == begin ==>
          if ScanFrom(vmas, start, len, end, old(cachedHoleSize)).Exhausted? && start != begin
          then goal == ScanFrom(vmas, begin, len, end, 0)
          else goal == ScanFrom(vmas, start, len, end, old(cachedHoleSize))
        decreases startAddr != begin, |vmas| - i
      {
        if end - len < addr {
          if startAddr == begin {
            return None;
          }
          startAddr, addr := begin, begin;
          cachedHoleSize := 0;
          i := FindVma(vmas, addr);
          goal := ScanFrom(vmas, begin, len, end, 0);
        } else if i == |vmas| || addr + len <= vmas[i].start {
          freeAreaCache := addr + len;
          return Some(addr);
        } else {
          if (addr + cachedHoleSize) % WORD < vmas[i].start {
            cachedHoleSize := (vmas[i].start - addr) % WORD;
          }
          addr := vmas[i].end;
          i := i + 1;
        }
      }
    }
  }
}
