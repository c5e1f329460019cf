/**
  The pipe as the kernel keeps it: a ring of slots over pages, and one page kept in hand.
  Its methods do what the critical sections of `PipeModel` say.
 */
module PipeRing {
  import opened Words
  import opened PipeModel
  import opened UserMemory
  import opened PipeCopy

  type Page = array<byte>

  /** `ops` stands for a non-null operations pointer: the slot is in use. */
  datatype Slot = Slot(page: array?<byte>, offset: nat, len: nat, ops: bool)

  /** The ring position `i` places after `c`. */
  function RingSlot(c: nat, i: nat): (k: nat)
    requires c < PIPE_BUFFERS && i <= PIPE_BUFFERS
    ensures k < PIPE_BUFFERS
  {
    if c + i < PIPE_BUFFERS then c + i else c + i - PIPE_BUFFERS
  }

  /** It is `(c + i) & (PIPE_BUFFERS-1)` when the ring size is a power of two. */
  lemma RingSlotIsMask(c: nat, i: nat)
    requires c < PIPE_BUFFERS && i <= PIPE_BUFFERS && IsPowerOfTwo(PIPE_BUFFERS)
    ensures RingSlot(c, i) == And(c + i, PIPE_BUFFERS - 1)
  {
    MaskIsRemainder(c + i, PIPE_BUFFERS);
    RemainderFacts(c + i, PIPE_BUFFERS);
  }

  /** Position `i` of the ring holds slot `i` of `live`, or is not in use. */
  ghost predicate SlotIs(b: seq<Slot>, c: nat, live: seq<Slot>, i: nat)
    requires |b| == PIPE_BUFFERS && c < PIPE_BUFFERS && i < PIPE_BUFFERS
  {
    if i < |live| then b[RingSlot(c, i)] == live[i] && live[i].ops else !b[RingSlot(c, i)].ops
  }

  /** The slots in use are the slots `live`, from position `c` on. */
  ghost predicate Ring(b: seq<Slot>, c: nat, live: seq<Slot>)
  {
    && |b| == PIPE_BUFFERS && c < PIPE_BUFFERS && |live| <= PIPE_BUFFERS
    && forall k :: 0 <= k < PIPE_BUFFERS ==> SlotIs(b, c, live, k)
  }

  lemma RingAt(b: seq<Slot>, c: nat, live: seq<Slot>, n: nat)
    requires Ring(b, c, live) && n < |live|
    ensures b[RingSlot(c, n)] == live[n] && live[n].ops
  {
    assert SlotIs(b, c, live, n);
  }

  lemma RingPop(b: seq<Slot>, c: nat, live: seq<Slot>)
    requires Ring(b, c, live) && live != []
    ensures Ring(b[c := b[c].(ops := false)], RingSlot(c, 1), live[1..])
  {
    var b', c' := b[c := b[c].(ops := false)], RingSlot(c, 1);
    forall i | 0 <= i < PIPE_BUFFERS ensures SlotIs(b', c', live[1..], i) {
      if i + 1 < PIPE_BUFFERS {
        assert RingSlot(c', i) == RingSlot(c, i + 1) != c;
        assert SlotIs(b, c, live, i + 1);
      } else {
        assert RingSlot(c', i) == c;
      }
    }
  }

  /** Writing slot `n`, in use or the next free one. */
  lemma RingSet(b: seq<Slot>, c: nat, live: seq<Slot>, n: nat, s: Slot, live': seq<Slot>)
    requires Ring(b, c, live) && n < PIPE_BUFFERS && s.ops
    requires live' == if n < |live| then live[n := s] else live + [s]
    requires n <= |live|
    ensures Ring(b[RingSlot(c, n) := s], c, live')
  {
    var b' := b[RingSlot(c, n) := s];
    forall i | 0 <= i < PIPE_BUFFERS ensures SlotIs(b', c, live', i) {
      assert SlotIs(b, c, live, i);
      assert i != n ==> RingSlot(c, i) != RingSlot(c, n);
    }
  }

  ghost function PagesOf(live: seq<Slot>): set<array?<byte>>
  {
    if live == [] then {} else {live[0].page} + PagesOf(live[1..])
  }

  /** No page is in two slots. */
  ghost predicate Distinct(live: seq<Slot>)
  {
    live == [] || (live[0].page !in PagesOf(live[1..]) && Distinct(live[1..]))
  }

  /** Every owned page is in exactly one live slot or kept in hand. */
  ghost predicate Owned(live: seq<Slot>, tmp: array?<byte>, pages: set<array?<byte>>)
  {
    && Distinct(live) && tmp !in PagesOf(live) && null !in PagesOf(live)
    && pages == PagesOf(live) + (if tmp == null then {} else {tmp})
  }

  /** As many pages as live slots, and the one in hand. */
  lemma {:induction false} PagesCounted(live: seq<Slot>)
    requires Distinct(live)
    ensures |PagesOf(live)| == |live|
  {
    if live != [] {
      PagesCounted(live[1..]);
    }
  }

  lemma OwnedBound(live: seq<Slot>, tmp: array?<byte>, pages: set<array?<byte>>)
    requires Owned(live, tmp, pages)
    ensures |pages| == |live| + (if tmp == null then 0 else 1)
  {
    PagesCounted(live);
  }

  lemma {:induction false} PagesOfPush(live: seq<Slot>, s: Slot)
    requires Distinct(live) && s.page !in PagesOf(live)
    ensures PagesOf(live + [s]) == PagesOf(live) + {s.page} && Distinct(live + [s])
  {
    if live == [] {
      assert [s][1..] == [];
      assert [] + [s] == [s];
    } else {
      PagesOfPush(live[1..], s);
      assert (live + [s])[1..] == live[1..] + [s];
    }
  }

  lemma {:induction false} PagesOfSet(live: seq<Slot>, n: nat, s: Slot)
    requires n < |live| && s.page == live[n].page
    ensures PagesOf(live[n := s]) == PagesOf(live) && Distinct(live[n := s]) == Distinct(live)
  {
    var live' := live[n := s];
    if n == 0 {
      assert live'[1..] == live[1..];
    } else {
      PagesOfSet(live[1..], n - 1, s);
      assert live'[1..] == live[1..][n - 1 := s];
    }
  }

  lemma {:induction false} PagesOfSplit(live: seq<Slot>, n: nat)
    requires Distinct(live) && n < |live|
    ensures live[n].page in PagesOf(live) && live[n].page !in PagesOf(live[..n])
    ensures PagesOf(live[..n]) <= PagesOf(live)
  {
    if n > 0 {
      PagesOfSplit(live[1..], n - 1);
      assert live[..n][1..] == live[1..][..n - 1];
    }
  }

  ghost predicate Holds(s: Slot, b: Buf)
    reads s.page
  {
    && s.page != null && s.page.Length == PAGE_SIZE
    && 0 < s.len && s.offset + s.len <= PAGE_SIZE
    && b == Buf(s.page[s.offset..s.offset + s.len], PAGE_SIZE - s.offset - s.len)
  }

  /** Slot by slot, the pages hold the bytes of `view`. */
  ghost predicate Filled(live: seq<Slot>, view: seq<Buf>)
    reads PagesOf(live)
  {
    if live == [] then view == []
    else view != [] && Holds(live[0], view[0]) && Filled(live[1..], view[1..])
  }

  lemma {:induction false} FilledSnoc(live: seq<Slot>, view: seq<Buf>, n: nat)
    requires |live| == n + 1 == |view|
    ensures Filled(live, view) <==> Filled(live[..n], view[..n]) && Holds(live[n], view[n])
  {
    if n == 0 {
      assert live[1..] == [] && view[1..] == [] && live[..0] == [] && view[..0] == [];
    } else {
      FilledSnoc(live[1..], view[1..], n - 1);
      assert live[..n][1..] == live[1..][..n - 1] && view[..n][1..] == view[1..][..n - 1];
    }
  }

  lemma ReplaceLast(live: seq<Slot>, view: seq<Buf>, n: nat, s: Slot, b: Buf)
    requires |live| == n + 1 == |view| && s.page == live[n].page && Filled(live, view) && Holds(s, b)
    ensures PagesOf(live[n := s]) == PagesOf(live) && Distinct(live[n := s]) == Distinct(live)
    ensures Filled(live[n := s], view[..n] + [b])
  {
    var live', view' := live[n := s], view[..n] + [b];
    PagesOfSet(live, n, s);
    FilledSnoc(live, view, n);
    FilledSnoc(live', view', n);
    assert live'[..n] == live[..n] && view'[..n] == view[..n];
  }

  lemma {:induction false} FilledLength(live: seq<Slot>, view: seq<Buf>)
    requires Filled(live, view)
    ensures |live| == |view| && forall i :: 0 <= i < |view| ==> LiveBuf(view[i])
  {
    if live != [] {
      FilledLength(live[1..], view[1..]);
      assert forall i :: 0 < i < |view| ==> view[i] == view[1..][i - 1];
    }
  }

  lemma {:induction false} FilledAt(live: seq<Slot>, view: seq<Buf>, n: nat)
    requires Filled(live, view) && n < |live|
    ensures n < |view| && Holds(live[n], view[n])
  {
    if n > 0 { FilledAt(live[1..], view[1..], n - 1); }
  }

  ghost predicate Used(b: seq<Slot>, j: int)
  {
    0 <= j < |b| && b[j].ops
  }

  /** The slots from `i` on that are in use hold different owned pages, and with `tmp` all of them. */
  ghost predicate Remaining(b: seq<Slot>, i: nat, tmp: array?<byte>, pages: set<array?<byte>>)
  {
    && (tmp != null ==> tmp in pages) && null !in pages
    && (forall j :: i <= j && Used(b, j) ==> b[j].page != null && b[j].page in pages && b[j].page != tmp)
    && (forall j, k :: i <= j < k && Used(b, j) && Used(b, k) ==> b[j].page != b[k].page)
    && (forall p :: p in pages && p != tmp ==> exists j :: i <= j && Used(b, j) && b[j].page == p)
  }

  lemma RemainingStep(b: seq<Slot>, i: nat, tmp: array?<byte>, pages: set<array?<byte>>)
    requires i < |b| && Remaining(b, i, tmp, pages)
    ensures if !b[i].ops then Remaining(b, i + 1, tmp, pages)
            else b[i].page != null && b[i].page in pages &&
                 if tmp == null then Remaining(b, i + 1, b[i].page, pages)
                 else Remaining(b, i + 1, tmp, pages - {b[i].page})
  {
    assert b[i].ops ==> Used(b, i);
    forall p | p in pages && p != tmp && !(b[i].ops && p == b[i].page)
      ensures exists j :: i + 1 <= j && Used(b, j) && b[j].page == p
    {
      var j :| i <= j && Used(b, j) && b[j].page == p;
      assert i + 1 <= j && Used(b, j) && b[j].page == p;
    }
  }

  lemma {:induction false} PagesOfWitness(live: seq<Slot>, p: array?<byte>) returns (i: nat)
    requires p in PagesOf(live)
    ensures i < |live| && live[i].page == p
  {
    if p == live[0].page {
      i := 0;
    } else {
      var k := PagesOfWitness(live[1..], p);
      i := k + 1;
    }
  }

  lemma {:induction false} DistinctMeaning(live: seq<Slot>)
    requires Distinct(live)
    ensures forall i :: 0 <= i < |live| ==> live[i].page in PagesOf(live)
    ensures forall i, j :: 0 <= i < j < |live| ==> live[i].page != live[j].page
  {
    if live != [] {
      DistinctMeaning(live[1..]);
      assert forall i :: 0 < i < |live| ==> live[i] == live[1..][i - 1];
    }
  }

  lemma RingUsed(b: seq<Slot>, c: nat, live: seq<Slot>, j: nat) returns (k: nat)
    requires Ring(b, c, live) && Used(b, j)
    ensures k < |live| && RingSlot(c, k) == j && b[j] == live[k]
  {
    k := if j >= c then j - c else j - c + PIPE_BUFFERS;
    assert RingSlot(c, k) == j && SlotIs(b, c, live, k);
  }

  lemma RemainingStart(b: seq<Slot>, c: nat, live: seq<Slot>, tmp: array?<byte>, pages: set<array?<byte>>)
    requires Ring(b, c, live) && Owned(live, tmp, pages)
    ensures Remaining(b, 0, tmp, pages)
  {
    DistinctMeaning(live);
    forall j | 0 <= j && Used(b, j) ensures b[j].page != null && b[j].page in pages && b[j].page != tmp {
      var k := RingUsed(b, c, live, j);
      assert live[k].page in PagesOf(live);
    }
    forall j, k | 0 <= j < k && Used(b, j) && Used(b, k) ensures b[j].page != b[k].page {
      var j' := RingUsed(b, c, live, j);
      var k' := RingUsed(b, c, live, k);
      assert j' < k' || k' < j';
    }
    forall p | p in pages && p != tmp ensures exists j :: 0 <= j && Used(b, j) && b[j].page == p {
      var n := PagesOfWitness(live, p);
      RingAt(b, c, live, n);
      assert Used(b, RingSlot(c, n));
    }
  }

  /** No page is given back twice, and none that the pipe still owns. */
  ghost predicate EachOnce(pages: set<array?<byte>>, freed: multiset<array?<byte>>)
  {
    forall p {:trigger freed[p]} :: p in freed ==> freed[p] == 1 && p !in pages
  }

  /** The pages that left have been given back. */
  ghost predicate GaveBack(pages: set<array?<byte>>, freed: multiset<array?<byte>>,
                           pages': set<array?<byte>>, freed': multiset<array?<byte>>)
  {
    pages' <= pages && freed <= freed' && multiset(pages') + freed' == multiset(pages) + freed
  }

  lemma GiveBack(pages: set<array?<byte>>, freed: multiset<array?<byte>>, page: Page)
    requires page in pages && EachOnce(pages, freed)
    ensures EachOnce(pages - {page}, freed + multiset{page}) && GaveBack(pages, freed, pages - {page}, freed + multiset{page})
  {
    assert multiset(pages - {page}) + multiset{page} == multiset(pages);
  }

  lemma AllGivenBack(pages: set<array?<byte>>, freed: multiset<array?<byte>>, freed': multiset<array?<byte>>)
    requires GaveBack(pages, freed, {}, freed')
    ensures freed' == freed + multiset(pages)
  {
    var none: set<array?<byte>> := {};
    assert multiset(none) + freed' == freed';
    assert multiset(pages) + freed == freed + multiset(pages);
  }

  class PipeInfo {
    var nrbufs: nat
    var curbuf: nat
    const bufs: array<Slot>
    var tmpPage: array?<byte>
    var readers: nat
    var writers: nat
    var waitingWriters: nat

    /** The slots in use and the buffers in them, oldest first. */
    ghost var live: seq<Slot>
    ghost var view: seq<Buf>
    /** The pages the pipe owns and the pages it has given back. */
    ghost var pages: set<array?<byte>>
    ghost var freed: multiset<array?<byte>>

    ghost predicate Valid()
      reads this, bufs, PagesOf(live)
    {
      && nrbufs == |live| == |view|
      && Ring(bufs[..], curbuf, live)
      && Owned(live, tmpPage, pages)
      && EachOnce(pages, freed)
      && (tmpPage != null ==> tmpPage.Length == PAGE_SIZE)
      && Filled(live, view)
    }

    /** Never more pages than slots and one. */
    lemma PageBound()
      requires Valid()
      ensures |pages| == nrbufs + (if tmpPage == null then 0 else 1) && |pages| <= PIPE_BUFFERS + 1
    {
      OwnedBound(live, tmpPage, pages);
    }

    ghost function Abs(): Pipe
      reads this
    {
      Pipe(view, tmpPage != null, readers, writers, waitingWriters)
    }

    constructor ()
      ensures Valid() && Abs() == Pipe([], false, 1, 1, 0) && pages == {} && freed == multiset{} && fresh(bufs)
    {
      bufs := new Slot[PIPE_BUFFERS](i => Slot(null, 0, 0, false));
      nrbufs, curbuf, tmpPage := 0, 0, null;
      readers, writers, waitingWriters := 1, 1, 0;
      live, view, pages, freed := [], [], {}, multiset{};
    }

    /** `__free_page` */
    ghost method FreePage(page: Page)
      requires page in pages && EachOnce(pages, freed)
      modifies this`pages, this`freed
      ensures pages == old(pages) - {page} && freed == old(freed) + multiset{page}
      ensures EachOnce(pages, freed) && GaveBack(old(pages), old(freed), pages, freed)
    {
      GiveBack(pages, freed, page);
      pages, freed := pages - {page}, freed + multiset{page};
    }

    /** `anon_pipe_buf_release`: keep one page in hand, give others back. */
    method BufRelease(page: Page)
      requires page in pages && EachOnce(pages, freed)
      modifies this`tmpPage, this`pages, this`freed
      ensures old(tmpPage) == null ==> tmpPage == page && pages == old(pages) && freed == old(freed)
      ensures old(tmpPage) != null ==>
                tmpPage == old(tmpPage) && pages == old(pages) - {page} && freed == old(freed) + multiset{page}
      ensures EachOnce(pages, freed) && GaveBack(old(pages), old(freed), pages, freed)
    {
      if tmpPage != null {
        FreePage(page);
      } else {
        tmpPage := page;
      }
    }

    /** The oldest slot leaves the ring. */
    method DropFront()
      requires Valid() && live != []
      modifies this, bufs
      ensures Valid() && Abs() == Take(old(Abs()), |old(view)[0].data|)
      ensures GaveBack(old(pages), old(freed), pages, freed)
    {
      RingAt(bufs[..], curbuf, live, 0);
      RingPop(bufs[..], curbuf, live);
      var page := bufs[curbuf].page;
      bufs[curbuf] := bufs[curbuf].(ops := false);
      BufRelease(page);
      curbuf := RingSlot(curbuf, 1);
      nrbufs := nrbufs - 1;
      live, view := live[1..], view[1..];
    }

    /** A partial read of the oldest slot. */
    method TrimFront(chars: nat)
      requires Valid() && live != [] && 0 < chars < |view[0].data|
      modifies this, bufs
      ensures Valid() && pages == old(pages) && freed == old(freed)
      ensures Abs() == Take(old(Abs()), chars)
    {
      RingAt(bufs[..], curbuf, live, 0);
      var s := bufs[curbuf];
      var s' := s.(offset := s.offset + chars, len := s.len - chars);
      RingSet(bufs[..], curbuf, live, 0, s', live[0 := s']);
      PagesOfSet(live, 0, s');
      bufs[curbuf] := s';
      ghost var b := Buf(view[0].data[chars..], view[0].room);
      assert Holds(s', b);
      assert live[0 := s'][1..] == live[1..] && ([b] + view[1..])[1..] == view[1..];
      live, view := live[0 := s'], [b] + view[1..];
    }

    /** The middle of a round of `pipe_readv`: account for `chars` bytes copied out of the oldest slot. */
    method TakeFront(chars: nat) returns (emptied: bool)
      requires Valid() && live != [] && 0 < chars <= |view[0].data|
      modifies this, bufs
      ensures Valid() && Abs() == Take(old(Abs()), chars)
      ensures emptied == (chars == |old(view)[0].data|)
      ensures GaveBack(old(pages), old(freed), pages, freed)
    {
      RingAt(bufs[..], curbuf, live, 0);
      emptied := chars == bufs[curbuf].len;
      if emptied {
        DropFront();
      } else {
        TrimFront(chars);
      }
    }

    method LastSlot() returns (s: Slot)
      requires Valid() && live != []
      ensures s == live[|live| - 1] && s.page != null && s.page in PagesOf(live) && Holds(s, view[|view| - 1])
    {
      RingAt(bufs[..], curbuf, live, nrbufs - 1);
      PagesOfSplit(live, nrbufs - 1);
      FilledSnoc(live, view, nrbufs - 1);
      s := bufs[RingSlot(curbuf, nrbufs - 1)];
    }

    /** Copies user bytes behind the newest bytes of the last page, without counting them in. */
    method CopyBehind(u: UserSpace, v: UserVector, chars: nat, s: Slot, ghost b: Buf) returns (ok: bool)
      requires Valid() && live != [] && s == live[|live| - 1] && s.page != null
      requires chars <= view[|view| - 1].room && chars <= |v.left| && v.Valid()
      requires b == Longer(view[|view| - 1], u.Fetch(v.left[..chars]))
      modifies s.page, v
      ensures Valid() && (ok ==> Holds(s.(len := s.len + chars), b))
      ensures v.Valid() && (ok <==> chars <= Sound(old(v.left), u.bad))
      ensures ok ==> v.left == old(v.left)[chars..]
    {
      ghost var n := |live| - 1;
      FilledSnoc(live, view, n);
      PagesOfSplit(live, n);
      ok := CopyIntoSlot(u, v, chars, s, view[n]);
      assert Filled(live[..n], view[..n]);
      FilledSnoc(live, view, n);
    }

    /** Counts in the bytes that are behind the newest ones. */
    method ExtendBack(chars: nat, s: Slot, ghost b: Buf)
      requires Valid() && live != [] && s == live[|live| - 1] && Holds(s.(len := s.len + chars), b)
      modifies this, bufs
      ensures Valid() && pages == old(pages) && freed == old(freed)
      ensures Abs() == old(Abs()).(bufs := old(view)[..|old(view)| - 1] + [b])
    {
      var s' := s.(len := s.len + chars);
      ghost var n := |live| - 1;
      ghost var live' := live[n := s'];
      RingAt(bufs[..], curbuf, live, n);
      RingSet(bufs[..], curbuf, live, n, s', live');
      ReplaceLast(live, view, n, s', b);
      bufs[RingSlot(curbuf, nrbufs - 1)] := s';
      live, view := live', view[..n] + [b];
    }

    /** The merging part of `pipe_writev`. */
    method MergeBack(u: UserSpace, v: UserVector, chars: nat) returns (ok: bool)
      requires Valid() && live != [] && chars <= view[|view| - 1].room && chars <= |v.left| && v.Valid()
      modifies this, bufs, PagesOf(live), v
      ensures Valid() && pages == old(pages) && freed == old(freed)
      ensures v.Valid() && (ok <==> chars <= Sound(old(v.left), u.bad))
      ensures ok ==> v.left == old(v.left)[chars..] && Abs() == Merge(old(Abs()), u.Fetch(old(v.left)[..chars]))
      ensures !ok ==> Abs() == old(Abs())
    {
      var s := LastSlot();
      ghost var b := Longer(view[|view| - 1], u.Fetch(v.left[..chars]));
      ok := CopyBehind(u, v, chars, s, b);
      if ok {
        ExtendBack(chars, s, b);
      }
    }

    /** Takes the page in hand, or a new one if `available`. */
    method HavePage(available: bool) returns (ok: bool)
      requires Valid()
      modifies this`tmpPage, this`pages
      ensures Valid() && ok == (old(tmpPage) != null || available)
      ensures Abs() == old(Abs()).(spare := ok) && (ok ==> tmpPage != null)
      ensures old(pages) <= pages && fresh(pages - old(pages))
    {
      ok := true;
      if tmpPage == null {
        if available {
          var page := new byte[PAGE_SIZE];
          tmpPage := page;
          pages := pages + {page};
        } else {
          ok := false;
        }
      }
    }

    /** Fills the page in hand and puts it into the next free slot. */
    method InsertBack(u: UserSpace, v: UserVector, chars: nat) returns (ok: bool)
      requires Valid() && tmpPage != null && |live| < PIPE_BUFFERS
      requires 0 < chars <= PAGE_SIZE && chars <= |v.left| && v.Valid()
      modifies this, bufs, tmpPage, v
      ensures Valid() && pages == old(pages) && freed == old(freed)
      ensures v.Valid() && (ok <==> chars <= Sound(old(v.left), u.bad))
      ensures ok ==> v.left == old(v.left)[chars..] && Abs() == Insert(old(Abs()), u.Fetch(old(v.left)[..chars]))
      ensures !ok ==> Abs() == old(Abs())
    {
      var page := tmpPage;
      ghost var bytes := u.Fetch(v.left[..chars]);
      ok := IovCopyFromUser(u, page, 0, v, chars);
      if ok {
        assert page[0..chars] == page[..chars] == bytes;
        PushBack(chars, Buf(bytes, PAGE_SIZE - chars));
      }
    }

    /** The end of a round of `pipe_writev`: the page in hand becomes the newest slot. */
    method PushBack(chars: nat, ghost b: Buf)
      requires Valid() && tmpPage != null && |live| < PIPE_BUFFERS && Holds(Slot(tmpPage, 0, chars, true), b)
      modifies this, bufs
      ensures Valid() && pages == old(pages) && freed == old(freed)
      ensures Abs() == old(Abs()).(bufs := old(view) + [b], spare := false)
    {
      ghost var n := |live|;
      var s := Slot(tmpPage, 0, chars, true);
      var k := RingSlot(curbuf, nrbufs);
      RingSet(bufs[..], curbuf, live, n, s, live + [s]);
      PagesOfPush(live, s);
      bufs[k] := s;
      nrbufs := nrbufs + 1;
      tmpPage := null;
      assert (live + [s])[..n] == live && (view + [b])[..n] == view;
      live, view := live + [s], view + [b];
      FilledSnoc(live, view, n);
    }

    lemma LiveView()
      requires Valid()
      ensures LiveBufs(view)
    {
      FilledLength(live, view);
    }

    /** Copies the oldest bytes out, at most `total` of them. */
    method ReadOne(u: UserSpace, v: UserVector, total: nat)
      returns (ok: bool, chars: nat, emptied: bool, ghost bytes: seq<byte>)
      requires Valid() && live != [] && v.Valid() && 0 < total == |v.left|
      modifies this, bufs, u, v
      ensures Valid() && v.Valid() && GaveBack(old(pages), old(freed), pages, freed)
      ensures chars == Min(|old(view)[0].data|, total) && bytes == old(view)[0].data[..chars]
      ensures ok <==> chars <= Sound(old(v.left), u.bad)
      ensures ok ==> Abs() == Take(old(Abs()), chars) && emptied == (chars == |old(view)[0].data|)
      ensures ok ==> v.left == old(v.left)[chars..] && u.stores == old(u.stores) + Paired(old(v.left)[..chars], bytes)
      ensures !ok ==> Abs() == old(Abs())
      ensures old(u.stores) <= u.stores
    {
      RingAt(bufs[..], curbuf, live, 0);
      var s := bufs[curbuf];
      chars := Min(s.len, total);
      var from := s.page[s.offset..s.offset + chars];
      bytes := from;
      ok := IovCopyToUser(u, v, from);
      emptied := false;
      if ok {
        emptied := TakeFront(chars);
      }
    }

    /** What is left of a read section, as `PipeModel` has it. */
    ghost function ReadRest(v: UserVector, bad: set<nat>, want: nat, got: seq<byte>, wake: bool, nonblock: bool, signal: bool): ReadEnd
      requires LiveBufs(view) && want > 0
      reads this, v
    {
      ReadLoop(Abs(), want, got, wake, nonblock, Env(Sound(v.left, bad), signal, 0))
    }

    /** Reads the oldest slot; `r` is what the whole section comes to. */
    method ReadStep(u: UserSpace, v: UserVector, total: nat, moved: nat, doWakeup: bool,
                    nonblock: bool, signal: bool, ghost before: seq<byte>, ghost r: ReadEnd)
      returns (ok: bool, chars: nat, emptied: bool, ghost bytes: seq<byte>)
      requires Valid() && LiveBufs(view) && live != [] && v.Valid() && 0 < total == |v.left| && moved == |before|
      requires r == ReadRest(v, u.bad, total, before, doWakeup, nonblock, signal)
      modifies this, bufs, u, v
      ensures Valid() && LiveBufs(view) && v.Valid() && GaveBack(old(pages), old(freed), pages, freed)
      ensures if ok then |bytes| == chars <= total && Delivered(u, old(u.stores), old(v.left), bytes, true) && v.left == old(v.left)[chars..]
              else Delivered(u, old(u.stores), old(v.left), [], false)
      ensures !ok ==> r == ReadEnd(Abs(), total, before, doWakeup, Leave(CountOr(moved, EFAULT)))
      ensures ok && chars == total ==> r == ReadEnd(Abs(), 0, before + bytes, doWakeup || emptied, Leave(Count(moved + chars)))
      ensures ok && chars < total ==>
                |view| < |old(view)| && r == ReadRest(v, u.bad, total - chars, before + bytes, doWakeup || emptied, nonblock, signal)
    {
      ghost var cells, p := v.left, Abs();
      ghost var env := Env(Sound(cells, u.bad), signal, 0);
      ok, chars, emptied, bytes := ReadOne(u, v, total);
      LiveView();
      if !ok || chars == total {
        ReadLoopEnds(p, total, before, doWakeup, nonblock, env, chars);
      } else {
        SoundTail(cells, u.bad, chars);
        ReadLoopGoesOn(p, Abs(), total, before, doWakeup, nonblock, env, Env(Sound(v.left, u.bad), signal, 0), chars);
      }
    }

    /** One round of the read loop. */
    method ReadRound(u: UserSpace, v: UserVector, total: nat, moved: nat, doWakeup: bool,
                     nonblock: bool, signal: bool, ghost before: seq<byte>, ghost r: ReadEnd)
      returns (running: bool, want: nat, ret: nat, wake: bool, out: Outcome, ghost got: seq<byte>, ghost bytes: seq<byte>)
      requires Valid() && LiveBufs(view) && v.Valid() && 0 < total == |v.left| && moved == |before|
      requires r == ReadRest(v, u.bad, total, before, doWakeup, nonblock, signal)
      modifies this, bufs, u, v
      ensures Valid() && LiveBufs(view) && v.Valid() && ret == |got|
      ensures got == before + bytes && Delivered(u, old(u.stores), old(v.left), bytes, running)
      ensures running || out.Sleep? ==> v.left == old(v.left)[|bytes|..] && want == |v.left| > 0
      ensures GaveBack(old(pages), old(freed), pages, freed)
      ensures running ==> |view| < |old(view)|
      ensures running ==> r == ReadRest(v, u.bad, want, got, wake, nonblock, signal)
      ensures !running ==> r == ReadEnd(Abs(), want, got, wake, out)
    {
      want, ret, wake, got, bytes := total, moved, doWakeup, before, [];
      running, out := false, Sleep;
      if nrbufs > 0 {
        var ok, chars, emptied, copied := ReadStep(u, v, want, ret, wake, nonblock, signal, got, r);
        if ok {
          ret, want, wake, got, bytes := ret + chars, want - chars, wake || emptied, got + copied, copied;
          if want == 0 {
            out := Leave(Count(ret));
          } else {
            running := true;
          }
        } else {
          out := Leave(CountOr(ret, EFAULT));
        }
      } else {
        out := RunDry(want, ret, wake, nonblock, signal, got, Sound(v.left, u.bad));
        assert v.left[0..] == v.left;
      }
    }

    /** One round of the read loop, behind the bytes `taken` so far. */
    method ReadMore(u: UserSpace, v: UserVector, total: nat, moved: nat, doWakeup: bool, nonblock: bool, signal: bool, ghost r: ReadEnd,
                    ghost before: seq<byte>, ghost taken: seq<byte>, ghost start: seq<(nat, byte)>, ghost cells: seq<nat>)
      returns (running: bool, want: nat, ret: nat, wake: bool, out: Outcome, ghost taken': seq<byte>)
      requires Valid() && LiveBufs(view) && v.Valid() && 0 < total == |v.left| && moved == |before + taken|
      requires Delivered(u, start, cells, taken, true) && v.left == cells[|taken|..]
      requires r == ReadRest(v, u.bad, total, before + taken, doWakeup, nonblock, signal)
      modifies this, bufs, u, v
      ensures Valid() && LiveBufs(view) && v.Valid() && ret == |before + taken'| && Delivered(u, start, cells, taken', running)
      ensures running || out.Sleep? ==> v.left == cells[|taken'|..] && want == |v.left| > 0
      ensures GaveBack(old(pages), old(freed), pages, freed)
      ensures running ==> |view| < |old(view)| && r == ReadRest(v, u.bad, want, before + taken', wake, nonblock, signal)
      ensures !running ==> r == ReadEnd(Abs(), want, before + taken', wake, out)
    {
      ghost var mid, got, bytes := u.stores, [], [];
      running, want, ret, wake, out, got, bytes := ReadRound(u, v, total, moved, doWakeup, nonblock, signal, before + taken, r);
      DeliveredMore(u, start, cells, taken, mid, bytes, running);
      Regroup(before, taken, bytes);
      taken' := taken + bytes;
    }

    /** `pipe_readv` from taking the semaphore until it leaves or sleeps. */
    method ReadSection(u: UserSpace, v: UserVector, total: nat, moved: nat, doWakeup: bool,
                       nonblock: bool, signal: bool, ghost before: seq<byte>)
      returns (want: nat, ret: nat, wake: bool, out: Outcome, ghost got: seq<byte>)
      requires Valid() && v.Valid() && 0 < total == |v.left| && moved == |before|
      modifies this, bufs, u, v
      ensures Valid() && v.Valid() && ret == |got| && LiveBufs(old(view)) && before <= got
      ensures Delivered(u, old(u.stores), old(v.left), got[|before|..], false)
      ensures ReadEnd(Abs(), want, got, wake, out)
              == old(ReadRest(v, u.bad, total, before, doWakeup, nonblock, signal))
      ensures GaveBack(old(pages), old(freed), pages, freed)
      ensures |got| - |before| <= |old(v.left)|
      ensures out.Sleep? ==> v.left == old(v.left)[|got| - |before|..] && want == |v.left| > 0
    {
      LiveView();
      ghost var r := ReadRest(v, u.bad, total, before, doWakeup, nonblock, signal);
      want, ret, wake, out := total, moved, doWakeup, Sleep;
      var running := true;
      ghost var start, cells, taken := u.stores, v.left, [];
      assert before + taken == before && cells[0..] == cells;
      while running
        invariant Valid() && v.Valid() && LiveBufs(view) && ret == |before + taken| && Delivered(u, start, cells, taken, running)
        invariant running || out.Sleep? ==> v.left == cells[|taken|..] && want == |v.left| > 0
        invariant GaveBack(old(pages), old(freed), pages, freed)
        invariant running ==> r == ReadRest(v, u.bad, want, before + taken, wake, nonblock, signal)
        invariant !running ==> r == ReadEnd(Abs(), want, before + taken, wake, out)
        decreases running, |view|
      {
        running, want, ret, wake, out, taken := ReadMore(u, v, want, ret, wake, nonblock, signal, r, before, taken, start, cells);
      }
      got := before + taken;
      assert got[|before|..] == taken;
    }

    /** `pipe_readv` with an empty pipe and more bytes wanted. */
    method RunDry(want: nat, ret: nat, wake: bool, nonblock: bool, signal: bool, ghost got: seq<byte>, ghost fault: nat)
      returns (out: Outcome)
      requires view == [] && want > 0 && ret == |got|
      ensures ReadLoop(Abs(), want, got, wake, nonblock, Env(fault, signal, 0)) == ReadEnd(Abs(), want, got, wake, out)
    {
      if writers == 0 {
        return Leave(Count(ret));
      }
      if waitingWriters == 0 {
        if ret > 0 {
          return Leave(Count(ret));
        }
        if nonblock {
          return Leave(Err(EAGAIN));
        }
      }
      return if signal then Leave(CountOr(ret, ERESTARTSYS)) else Sleep;
    }

    /** What is left of a write section, as `PipeModel` has it. */
    ghost function WriteRest(v: UserVector, bad: set<nat>, data: seq<byte>, done: nat, wake: bool,
                             nonblock: bool, signal: bool, avail: nat): WriteEnd
      requires LiveBufs(view) && done < |data|
      reads this, v
    {
      WriteLoop(Abs(), data, done, wake, nonblock, Env(Sound(v.left, bad), signal, avail))
    }

    /** A round of `pipe_writev` with a free slot: fill a page and put it into the ring, if one can be had. */
    method WriteOne(u: UserSpace, v: UserVector, total: nat, avail: nat, ghost bytes: seq<byte>)
      returns (page: bool, ok: bool, chars: nat, avail': nat)
      requires Valid() && v.Valid() && |live| < PIPE_BUFFERS && 0 < total == |v.left|
      requires bytes == u.Fetch(v.left[..Min(PAGE_SIZE, total)])
      modifies this, bufs, pages, v
      ensures Valid() && v.Valid() && freed == old(freed) && old(pages) <= pages && fresh(pages - old(pages))
      ensures chars == |bytes| && OneWritten(old(Abs()), Abs(), old(v.left), v.left, u.bad, bytes, avail, avail', page, ok)
    {
      avail' := if tmpPage == null && avail > 0 then avail - 1 else avail;
      page := HavePage(avail > 0);
      chars, ok := Min(PAGE_SIZE, total), false;
      if page {
        ok := InsertBack(u, v, chars);
      }
    }

    /** The vector denotes the bytes still to be written. */
    ghost predicate Sends(u: UserSpace, v: UserVector, data: seq<byte>, done: nat)
      reads v
    {
      v.Valid() && done <= |data| && u.Fetch(v.left) == data[done..]
    }

    lemma SendsLess(u: UserSpace, cells: seq<nat>, data: seq<byte>, done: nat, chars: nat)
      requires done + chars <= |data| && u.Fetch(cells) == data[done..]
      ensures chars <= |cells| && u.Fetch(cells[..chars]) == data[done..done + chars]
      ensures u.Fetch(cells[chars..]) == data[done + chars..]
    {
      assert |cells| == |data| - done;
      assert data[done..][..chars] == data[done..done + chars] && data[done..][chars..] == data[done + chars..];
      assert u.Fetch(cells[..chars]) == u.Fetch(cells)[..chars];
      assert u.Fetch(cells[chars..]) == u.Fetch(cells)[chars..];
    }

    /** Fills a free slot; `r` is what the whole section comes to. */
    method WriteStep(u: UserSpace, v: UserVector, total: nat, moved: nat, doWakeup: bool,
                     nonblock: bool, signal: bool, avail: nat, ghost data: seq<byte>, ghost r: WriteEnd)
      returns (page: bool, ok: bool, chars: nat, avail': nat)
      requires Valid() && LiveBufs(view) && Sends(u, v, data, moved) && 0 < total == |data| - moved
      requires r == WriteRest(v, u.bad, data, moved, doWakeup, nonblock, signal, avail)
      requires readers > 0 && |view| < PIPE_BUFFERS
      modifies this, bufs, pages, v
      ensures Valid() && LiveBufs(view) && v.Valid() && old(freed) == freed && chars == Min(PAGE_SIZE, total)
      ensures old(pages) <= pages && fresh(pages - old(pages))
      ensures !page ==> r == WriteEnd(Abs(), moved, doWakeup, Leave(CountOr(moved, ENOMEM)))
      ensures page && !ok ==> r == WriteEnd(Abs(), moved, true, Leave(CountOr(moved, EFAULT)))
      ensures page && ok && chars == total ==> r == WriteEnd(Abs(), moved + chars, true, Leave(Count(moved + chars)))
      ensures page && ok && chars < total ==> Sends(u, v, data, moved + chars) && |view| > |old(view)|
      ensures page && ok && chars < total ==> r == WriteRest(v, u.bad, data, moved + chars, true, nonblock, signal, avail')
    {
      ghost var cells, n, p := v.left, Min(PAGE_SIZE, total), Abs();
      SendsLess(u, cells, data, moved, n);
      page, ok, chars, avail' := WriteOne(u, v, total, avail, data[moved..moved + n]);
      LiveView();
      OneWrittenMeans(p, Abs(), cells, v.left, u.bad, data, moved, n, doWakeup, nonblock, signal, avail, avail', page, ok);
    }

    /** One round of the write loop with a free slot. */
    method WriteFree(u: UserSpace, v: UserVector, total: nat, moved: nat, doWakeup: bool,
                      nonblock: bool, signal: bool, avail: nat, ghost data: seq<byte>, ghost r: WriteEnd)
      returns (running: bool, left: nat, ret: nat, wake: bool, avail': nat, out: Outcome)
      requires Valid() && LiveBufs(view) && Sends(u, v, data, moved) && 0 < total == |data| - moved
      requires r == WriteRest(v, u.bad, data, moved, doWakeup, nonblock, signal, avail)
      requires readers > 0 && |view| < PIPE_BUFFERS
      modifies this, bufs, pages, v
      ensures Valid() && LiveBufs(view) && v.Valid() && old(freed) == freed
      ensures old(pages) <= pages && fresh(pages - old(pages))
      ensures running ==> Sends(u, v, data, ret) && 0 < left == |data| - ret && |view| > |old(view)|
      ensures running ==> r == WriteRest(v, u.bad, data, ret, wake, nonblock, signal, avail')
      ensures !running ==> r == WriteEnd(Abs(), ret, wake, out) && out.Leave?
    {
      running, left, ret, wake, out := false, total, moved, doWakeup, Sleep;
      var page, ok, chars;
      page, ok, chars, avail' := WriteStep(u, v, total, moved, doWakeup, nonblock, signal, avail, data, r);
      if !page {
        out := Leave(CountOr(ret, ENOMEM));
      } else if !ok {
        wake, out := true, Leave(CountOr(ret, EFAULT));
      } else {
        wake, ret, left := true, ret + chars, left - chars;
        running := left > 0;
        if !running {
          out := Leave(Count(ret));
        }
      }
    }

    /** One round of the write loop. */
    method WriteRound(u: UserSpace, v: UserVector, total: nat, moved: nat, doWakeup: bool,
                      nonblock: bool, signal: bool, avail: nat, ghost data: seq<byte>, ghost r: WriteEnd)
      returns (running: bool, left: nat, ret: nat, wake: bool, avail': nat, out: Outcome)
      requires Valid() && LiveBufs(view) && Sends(u, v, data, moved) && 0 < total == |data| - moved
      requires r == WriteRest(v, u.bad, data, moved, doWakeup, nonblock, signal, avail)
      modifies this, bufs, pages, v
      ensures Valid() && LiveBufs(view) && v.Valid() && old(freed) == freed
      ensures old(pages) <= pages && fresh(pages - old(pages))
      ensures running || out.Sleep? ==> Sends(u, v, data, ret) && 0 < left == |data| - ret
      ensures running ==> |view| > |old(view)|
      ensures running ==> r == WriteRest(v, u.bad, data, ret, wake, nonblock, signal, avail')
      ensures !running ==> r == WriteEnd(Abs(), ret, wake, out)
    {
      running, left, ret, wake, avail', out := false, total, moved, doWakeup, avail, Sleep;
      if readers == 0 {
        out := Leave(CountOr(ret, EPIPE));
      } else if nrbufs < PIPE_BUFFERS {
        running, left, ret, wake, avail', out := WriteFree(u, v, total, moved, doWakeup, nonblock, signal, avail, data, r);
      } else if nonblock {
        out := Leave(CountOr(ret, EAGAIN));
      } else if signal {
        out := Leave(CountOr(ret, ERESTARTSYS));
      }
    }

    /** `pipe_writev` from resuming after a sleep until it leaves or sleeps again. */
    method WriteSection(u: UserSpace, v: UserVector, total: nat, moved: nat, doWakeup: bool,
                        nonblock: bool, signal: bool, avail: nat, ghost data: seq<byte>)
      returns (left: nat, ret: nat, wake: bool, out: Outcome)
      requires Valid() && Sends(u, v, data, moved) && 0 < total == |data| - moved
      modifies this, bufs, pages, v
      ensures Valid() && v.Valid() && LiveBufs(old(view)) && freed == old(freed)
      ensures old(pages) <= pages && fresh(pages - old(pages))
      ensures WriteEnd(Abs(), ret, wake, out)
              == old(WriteRest(v, u.bad, data, moved, doWakeup, nonblock, signal, avail))
      ensures out.Sleep? ==> Sends(u, v, data, ret) && 0 < left == |data| - ret
    {
      LiveView();
      ghost var r := WriteRest(v, u.bad, data, moved, doWakeup, nonblock, signal, avail);
      left, ret, wake, out := total, moved, doWakeup, Sleep;
      var running, pool := true, avail;
      while running
        invariant Valid() && LiveBufs(view) && v.Valid() && freed == old(freed)
        invariant old(pages) <= pages && fresh(pages - old(pages))
        invariant running || out.Sleep? ==> Sends(u, v, data, ret) && 0 < left == |data| - ret
        invariant running ==> r == WriteRest(v, u.bad, data, ret, wake, nonblock, signal, pool)
        invariant !running ==> r == WriteEnd(Abs(), ret, wake, out)
        decreases running, PIPE_BUFFERS - |view|
      {
        running, left, ret, wake, pool, out := WriteRound(u, v, left, ret, wake, nonblock, signal, pool, data, r);
      }
    }

    ghost function WriteAll(v: UserVector, bad: set<nat>, data: seq<byte>, nonblock: bool, signal: bool, avail: nat): WriteEnd
      requires LiveBufs(view) && data != []
      reads this, v
    {
      PipeModel.WriteEnter(Abs(), data, nonblock, Env(Sound(v.left, bad), signal, avail))
    }

    /** The merging test of `pipe_writev`: whether the odd bytes of a write go behind the newest ones. */
    method ShouldMerge(total: nat) returns (merge: bool, chars: nat)
      requires Valid()
      ensures chars == MergeSize(total) && merge == CanMerge(Abs(), total)
    {
      chars, merge := MergeSize(total), false;
      if nrbufs > 0 && chars != 0 {
        var s := LastSlot();
        merge := s.offset + s.len + chars <= PAGE_SIZE;
      }
    }

    /** `pipe_writev` from its first taking of the semaphore until it leaves or sleeps. */
    method WriteEntry(u: UserSpace, v: UserVector, total: nat, nonblock: bool, signal: bool, avail: nat, ghost data: seq<byte>)
      returns (left: nat, ret: nat, wake: bool, out: Outcome)
      requires Valid() && Sends(u, v, data, 0) && 0 < total == |data|
      modifies this, bufs, pages, v
      ensures Valid() && v.Valid() && LiveBufs(old(view)) && freed == old(freed)
      ensures old(pages) <= pages && fresh(pages - old(pages))
      ensures WriteEnd(Abs(), ret, wake, out) == old(WriteAll(v, u.bad, data, nonblock, signal, avail))
      ensures out.Sleep? ==> Sends(u, v, data, ret) && 0 < left == |data| - ret
    {
      LiveView();
      left, ret, wake := total, 0, false;
      if readers == 0 {
        out := Leave(Err(EPIPE));
        return;
      }
      var merge, chars := ShouldMerge(total);
      if !merge {
        left, ret, wake, out := WriteSection(u, v, total, 0, false, nonblock, signal, avail, data);
        return;
      }
      left, ret, wake, out := MergeEntry(u, v, total, chars, nonblock, signal, avail, data);
    }

    /** Merges the odd bytes of a write; `r` is what the whole write comes to. */
    method MergeFirst(u: UserSpace, v: UserVector, chars: nat, nonblock: bool, signal: bool, avail: nat,
                      ghost data: seq<byte>, ghost r: WriteEnd) returns (ok: bool)
      requires Valid() && LiveBufs(view) && Sends(u, v, data, 0) && data != []
      requires readers > 0 && CanMerge(Abs(), |data|) && chars == MergeSize(|data|)
      requires r == WriteAll(v, u.bad, data, nonblock, signal, avail)
      modifies this, bufs, pages, v
      ensures Valid() && v.Valid() && freed == old(freed) && pages == old(pages) && LiveBufs(view)
      ensures !ok ==> r == WriteEnd(Abs(), 0, true, Leave(Err(EFAULT)))
      ensures ok && chars == |data| ==> r == WriteEnd(Abs(), chars, true, Leave(Count(chars)))
      ensures ok && chars < |data| ==> Sends(u, v, data, chars) && r == WriteRest(v, u.bad, data, chars, true, nonblock, signal, avail)
    {
      ghost var cells := v.left;
      EnterMerges(Abs(), data, chars, nonblock, Env(Sound(cells, u.bad), signal, avail));
      SendsLess(u, cells, data, 0, chars);
      assert data[0..chars] == data[..chars];
      ok := MergeBack(u, v, chars);
      LiveView();
      if ok {
        SoundTail(cells, u.bad, chars);
      }
    }

    /** The rest of a write that merges its odd bytes. */
    method MergeEntry(u: UserSpace, v: UserVector, total: nat, chars: nat, nonblock: bool, signal: bool, avail: nat, ghost data: seq<byte>)
      returns (left: nat, ret: nat, wake: bool, out: Outcome)
      requires Valid() && LiveBufs(view) && Sends(u, v, data, 0) && 0 < total == |data|
      requires readers > 0 && CanMerge(Abs(), total) && chars == MergeSize(total)
      modifies this, bufs, pages, v
      ensures Valid() && v.Valid() && freed == old(freed)
      ensures old(pages) <= pages && fresh(pages - old(pages))
      ensures WriteEnd(Abs(), ret, wake, out) == old(WriteAll(v, u.bad, data, nonblock, signal, avail))
      ensures out.Sleep? ==> Sends(u, v, data, ret) && 0 < left == |data| - ret
    {
      ghost var r := WriteAll(v, u.bad, data, nonblock, signal, avail);
      var ok := MergeFirst(u, v, chars, nonblock, signal, avail, data, r);
      left, ret, wake := total, 0, true;
      if !ok {
        out := Leave(Err(EFAULT));
      } else if chars == total {
        left, ret, out := 0, chars, Leave(Count(chars));
      } else {
        left, ret, wake, out := WriteSection(u, v, total - chars, chars, true, nonblock, signal, avail, data);
      }
    }

    /** `FIONREAD`: the number of bytes in the pipe. */
    method Fionread() returns (count: nat)
      requires Valid()
      ensures count == |Contents(view)|
    {
      count := 0;
      var buf, n := curbuf, 0;
      assert view[0..] == view;
      while n < nrbufs
        invariant n <= nrbufs && buf == RingSlot(curbuf, n)
        invariant count + |Contents(view[n..])| == |Contents(view)|
      {
        RingAt(bufs[..], curbuf, live, n);
        FilledAt(live, view, n);
        count := count + bufs[buf].len;
        buf := RingSlot(buf, 1);
        assert view[n..][1..] == view[n + 1..];
        n := n + 1;
      }
    }

    /** One slot of `free_pipe_info`. */
    method FreeSlot(i: nat)
      requires i < bufs.Length && Remaining(bufs[..], i, tmpPage, pages) && EachOnce(pages, freed)
      modifies this`tmpPage, this`pages, this`freed
      ensures Remaining(bufs[..], i + 1, tmpPage, pages) && EachOnce(pages, freed)
      ensures GaveBack(old(pages), old(freed), pages, freed)
    {
      RemainingStep(bufs[..], i, tmpPage, pages);
      if bufs[i].ops {
        BufRelease(bufs[i].page);
      }
    }

    /** The slots of `free_pipe_info`; at most the page in hand is left. */
    method FreeSlots()
      requires Valid()
      modifies this`tmpPage, this`pages, this`freed
      ensures pages == (if tmpPage == null then {} else {tmpPage}) && EachOnce(pages, freed)
      ensures GaveBack(old(pages), old(freed), pages, freed)
    {
      RemainingStart(bufs[..], curbuf, live, tmpPage, pages);
      var i := 0;
      while i < PIPE_BUFFERS
        invariant i <= PIPE_BUFFERS && Remaining(bufs[..], i, tmpPage, pages) && EachOnce(pages, freed)
        invariant GaveBack(old(pages), old(freed), pages, freed)
      {
        FreeSlot(i);
        i := i + 1;
      }
    }

    /** `free_pipe_info`: every page is given back, each exactly once. */
    method FreeInfo()
      requires Valid()
      modifies this`tmpPage, this`pages, this`freed
      ensures pages == {} && freed == old(freed) + multiset(old(pages)) && EachOnce(pages, freed)
    {
      FreeSlots();
      if tmpPage != null {
        FreePage(tmpPage);
      }
      AllGivenBack(old(pages), old(freed), freed);
    }
  }

  /** What a write that merges comes to. */
  lemma EnterMerges(p: Pipe, data: seq<byte>, chars: nat, nonblock: bool, env: Env)
    requires LiveBufs(p.bufs) && data != [] && p.readers > 0 && CanMerge(p, |data|) && chars == MergeSize(|data|)
    ensures var r := WriteEnter(p, data, nonblock, env);
            && (env.fault < chars ==> r == WriteEnd(p, 0, true, Leave(Err(EFAULT))))
            && (env.fault >= chars && chars == |data| ==>
                  r == WriteEnd(Merge(p, data[..chars]), chars, true, Leave(Count(chars))))
            && (env.fault >= chars && chars < |data| ==>
                  && LiveBufs(Merge(p, data[..chars]).bufs)
                  && r == WriteLoop(Merge(p, data[..chars]), data, chars, true, nonblock, env.(fault := env.fault - chars)))
  {
    MergeKeepsLive(p, data[..chars]);
  }

  /** What a read of a filled slot comes to, if this is the last round. */
  lemma ReadLoopEnds(p: Pipe, want: nat, got: seq<byte>, wake: bool, nonblock: bool, env: Env, chars: nat)
    requires LiveBufs(p.bufs) && want > 0 && p.bufs != [] && chars == Min(|p.bufs[0].data|, want)
    ensures var r := ReadLoop(p, want, got, wake, nonblock, env);
            && (env.fault < chars ==> r == ReadEnd(p, want, got, wake, Leave(CountOr(|got|, EFAULT))))
            && (env.fault >= chars && chars == want ==>
                  r == ReadEnd(Take(p, chars), 0, got + p.bufs[0].data[..chars], wake || chars == |p.bufs[0].data|, Leave(Count(|got| + chars))))
  {}

  /** A round with a filled slot that is not the last. */
  lemma ReadLoopGoesOn(p: Pipe, p': Pipe, want: nat, got: seq<byte>, wake: bool, nonblock: bool, env: Env, env': Env, chars: nat)
    requires LiveBufs(p.bufs) && p.bufs != [] && chars == Min(|p.bufs[0].data|, want) && chars < want && env.fault >= chars
    requires p' == Take(p, chars) && env' == env.(fault := env.fault - chars)
    ensures LiveBufs(p'.bufs) && |p'.bufs| < |p.bufs|
    ensures ReadLoop(p, want, got, wake, nonblock, env)
         == ReadLoop(p', want - chars, got + p.bufs[0].data[..chars], wake || chars == |p.bufs[0].data|, nonblock, env')
  {}

  /** What a write with a free slot comes to, if this is the last round. */
  lemma WriteLoopEnds(p: Pipe, data: seq<byte>, done: nat, wake: bool, nonblock: bool, env: Env, chars: nat)
    requires LiveBufs(p.bufs) && done < |data| && p.readers > 0 && |p.bufs| < PIPE_BUFFERS && chars == Min(PAGE_SIZE, |data| - done)
    ensures var r := WriteLoop(p, data, done, wake, nonblock, env);
            var page := p.spare || env.pages > 0;
            && (!page ==> r == WriteEnd(p, done, wake, Leave(CountOr(done, ENOMEM))))
            && (page && env.fault < chars ==> r == WriteEnd(p.(spare := true), done, true, Leave(CountOr(done, EFAULT))))
            && (page && env.fault >= chars && done + chars == |data| ==>
                  r == WriteEnd(Insert(p, data[done..done + chars]), done + chars, true, Leave(Count(done + chars))))
  {}

  /** A round with a free slot that is not the last. */
  lemma WriteLoopGoesOn(p: Pipe, p': Pipe, data: seq<byte>, done: nat, wake: bool, nonblock: bool, env: Env, env': Env, chars: nat)
    requires LiveBufs(p.bufs) && done < |data| && p.readers > 0 && |p.bufs| < PIPE_BUFFERS && chars == Min(PAGE_SIZE, |data| - done)
    requires (p.spare || env.pages > 0) && env.fault >= chars && done + chars < |data|
    requires p' == Insert(p, data[done..done + chars])
    requires env' == env.(fault := env.fault - chars, pages := if p.spare then env.pages else env.pages - 1)
    ensures LiveBufs(p'.bufs)
    ensures WriteLoop(p, data, done, wake, nonblock, env) == WriteLoop(p', data, done + chars, true, nonblock, env')
  {}

  /** A round with a free slot: whether a page was had and could be filled, and what the pipe and the rest of the vector are then. */
  ghost predicate OneWritten(p: Pipe, p': Pipe, cells: seq<nat>, cells': seq<nat>, bad: set<nat>, bytes: seq<byte>,
                             avail: nat, avail': nat, page: bool, ok: bool)
  {
    && page == (p.spare || avail > 0)
    && (!page ==> p' == p)
    && (page ==> avail' == (if p.spare then avail else avail - 1) && (ok <==> |bytes| <= Sound(cells, bad)))
    && (page && !ok ==> p' == p.(spare := true))
    && (page && ok ==> 0 < |bytes| <= PAGE_SIZE && |bytes| <= |cells| && cells' == cells[|bytes|..] && p' == Insert(p, bytes))
  }

  /** What such a round makes of the rest of the section. */
  lemma OneWrittenMeans(p: Pipe, p': Pipe, cells: seq<nat>, cells': seq<nat>, bad: set<nat>, data: seq<byte>, done: nat, chars: nat,
                        wake: bool, nonblock: bool, signal: bool, avail: nat, avail': nat, page: bool, ok: bool)
    requires LiveBufs(p.bufs) && LiveBufs(p'.bufs) && p.readers > 0 && |p.bufs| < PIPE_BUFFERS
    requires done < |data| && chars == Min(PAGE_SIZE, |data| - done)
    requires OneWritten(p, p', cells, cells', bad, data[done..done + chars], avail, avail', page, ok)
    ensures var r := WriteLoop(p, data, done, wake, nonblock, Env(Sound(cells, bad), signal, avail));
            && (!page ==> r == WriteEnd(p', done, wake, Leave(CountOr(done, ENOMEM))))
            && (page && !ok ==> r == WriteEnd(p', done, true, Leave(CountOr(done, EFAULT))))
            && (page && ok && done + chars == |data| ==> r == WriteEnd(p', done + chars, true, Leave(Count(done + chars))))
            && (page && ok && done + chars < |data| ==>
                  |p'.bufs| > |p.bufs| && r == WriteLoop(p', data, done + chars, true, nonblock, Env(Sound(cells', bad), signal, avail')))
  {
    var env := Env(Sound(cells, bad), signal, avail);
    if !page || !ok || done + chars == |data| {
      WriteLoopEnds(p, data, done, wake, nonblock, env, chars);
    } else {
      SoundTail(cells, bad, chars);
      WriteLoopGoesOn(p, p', data, done, wake, nonblock, env, Env(Sound(cells', bad), signal, avail'), chars);
    }
  }

  /** The bytes were stored at the first of the addresses; more may follow unless `exact`. */
  ghost predicate Delivered(u: UserSpace, start: seq<(nat, byte)>, cells: seq<nat>, bytes: seq<byte>, exact: bool)
    reads u
  {
    && |bytes| <= |cells|
    && start + Paired(cells[..|bytes|], bytes) <= u.stores
    && (exact ==> start + Paired(cells[..|bytes|], bytes) == u.stores)
  }

  lemma DeliveredMore(u: UserSpace, start: seq<(nat, byte)>, cells: seq<nat>, bytes: seq<byte>,
                      mid: seq<(nat, byte)>, more: seq<byte>, exact: bool)
    requires |bytes| <= |cells| && mid == start + Paired(cells[..|bytes|], bytes)
    requires Delivered(u, mid, cells[|bytes|..], more, exact)
    ensures Delivered(u, start, cells, bytes + more, exact)
  {
    var n, m := |bytes|, |bytes| + |more|;
    Halves(bytes, more);
    PairedSplit(cells, bytes + more, n, m);
    assert (bytes + more)[..m] == bytes + more && (bytes + more)[n..m] == more;
    assert cells[n..][..|more|] == cells[n..m];
    Regroup(start, Paired(cells[..n], bytes), Paired(cells[n..m], more));
  }

  /** Copies user bytes into a page behind the bytes a slot counts. */
  method CopyIntoSlot(u: UserSpace, v: UserVector, chars: nat, s: Slot, ghost b: Buf) returns (ok: bool)
    requires Holds(s, b) && chars <= b.room && chars <= |v.left| && v.Valid()
    modifies s.page, v
    ensures Holds(s, b)
    ensures v.Valid() && (ok <==> chars <= Sound(old(v.left), u.bad))
    ensures ok ==> v.left == old(v.left)[chars..]
    ensures ok ==> Holds(s.(len := s.len + chars), Longer(b, u.Fetch(old(v.left)[..chars])))
  {
    var at := s.offset + s.len;
    ghost var front := s.page[..at];
    ok := IovCopyFromUser(u, s.page, at, v, chars);
    assert s.page[s.offset..at] == s.page[..at][s.offset..] && front[s.offset..] == b.data;
    if ok {
      assert s.page[s.offset..at + chars] == s.page[..at + chars][s.offset..];
    }
  }
}
