/** `struct linux_binprm`: argument strings in lazily allocated pages, refining the flat array of `ArgImage`. */
module ArgPages {
  import opened Words
  import opened Memory
  import opened ArgVectors
  import opened ArgImage
  import opened Options

  // ---------------------------------------------------------------- pages of an image

  function Base(i: nat): (b: nat)
    ensures b % PAGE_SIZE == 0
    ensures i < MAX_ARG_PAGES ==> b + PAGE_SIZE <= Total()
  {
    RemainderUnique(i * PAGE_SIZE, PAGE_SIZE, i, 0);
    assert i < MAX_ARG_PAGES ==> (MAX_ARG_PAGES - i - 1) * PAGE_SIZE >= 0;
    i * PAGE_SIZE
  }

  lemma BasesApart(i: nat, j: nat)
    requires i < j
    ensures Base(i) + PAGE_SIZE <= Base(j)
  {
    assert (j - i - 1) * PAGE_SIZE >= 0;
  }

  lemma PageOfPosition(pos: nat)
    requires pos < Total()
    ensures pos / PAGE_SIZE < MAX_ARG_PAGES
    ensures Base(pos / PAGE_SIZE) == Down(pos) && pos == Down(pos) + pos % PAGE_SIZE
  {
    DivisionFacts(pos, PAGE_SIZE);
    var q := pos / PAGE_SIZE;
    assert q >= MAX_ARG_PAGES ==> (q - MAX_ARG_PAGES) * PAGE_SIZE >= 0;
  }

  lemma NextPosition(q: nat)
    ensures q % PAGE_SIZE + 1 == PAGE_SIZE ==> (q + 1) % PAGE_SIZE == 0
    ensures q % PAGE_SIZE + 1 < PAGE_SIZE ==>
              (q + 1) % PAGE_SIZE == q % PAGE_SIZE + 1 && (q + 1) / PAGE_SIZE == q / PAGE_SIZE
    ensures q % PAGE_SIZE < PAGE_SIZE
  {
    DivisionFacts(q, PAGE_SIZE);
    if q % PAGE_SIZE + 1 == PAGE_SIZE {
      RemainderUnique(q + 1, PAGE_SIZE, q / PAGE_SIZE + 1, 0);
    } else {
      RemainderUnique(q + 1, PAGE_SIZE, q / PAGE_SIZE, q % PAGE_SIZE + 1);
    }
  }

  ghost predicate Absent(f: Image, i: nat)
  {
    forall k :: Base(i) <= k < Base(i) + PAGE_SIZE && k < |f| ==> f[k] == None
  }

  ghost predicate Present(f: Image, i: nat, d: seq<byte>)
  {
    |d| == PAGE_SIZE && forall k :: Base(i) <= k < Base(i) + PAGE_SIZE && k < |f| ==> f[k] == Some(d[k - Base(i)])
  }

  /** The image with page `i` allocated and holding `d`. */
  ghost function SetPage(f: Image, i: nat, d: seq<byte>): (r: Image)
    requires |d| == PAGE_SIZE
    ensures |r| == |f| && Present(r, i, d)
    ensures forall k :: 0 <= k < |f| && !(Base(i) <= k < Base(i) + PAGE_SIZE) ==> r[k] == f[k]
  {
    seq(|f|, k requires 0 <= k < |f| => if Base(i) <= k < Base(i) + PAGE_SIZE then Some(d[k - Base(i)]) else f[k])
  }

  lemma SetPageElsewhere(f: Image, i: nat, d: seq<byte>, j: nat)
    requires |d| == PAGE_SIZE && i != j
    ensures Absent(f, j) ==> Absent(SetPage(f, i, d), j)
    ensures forall e :: Present(f, j, e) ==> Present(SetPage(f, i, d), j, e)
  {
    if i < j {
      BasesApart(i, j);
    } else {
      BasesApart(j, i);
    }
  }

  lemma SetPageAgain(f: Image, i: nat, d: seq<byte>, e: seq<byte>)
    requires |d| == |e| == PAGE_SIZE
    ensures SetPage(SetPage(f, i, d), i, e) == SetPage(f, i, e)
  {
    assert forall k :: 0 <= k < |f| ==> SetPage(SetPage(f, i, d), i, e)[k] == SetPage(f, i, e)[k];
  }

  function Zeros(n: nat): (r: seq<byte>)
    ensures |r| == n && forall j :: 0 <= j < n ==> r[j] == 0
  {
    seq(n, j => 0)
  }

  /** What a page holds after `bytes` were copied to offset `off` of it. */
  function Patched(d: seq<byte>, isNew: bool, off: nat, bytes: seq<byte>): (r: seq<byte>)
    requires off + |bytes| <= |d|
    ensures |r| == |d|
  {
    if isNew then Zeros(off) + bytes + Zeros(|d| - off - |bytes|)
    else d[..off] + bytes + d[off + |bytes|..]
  }

  /** Copying within one page is copying in the flat image. */
  lemma PatchIsFill(f: Image, pos: nat, d: seq<byte>, isNew: bool, bytes: seq<byte>)
    requires |f| == Total() && pos < Total() && 0 < |bytes| <= PAGE_SIZE - pos % PAGE_SIZE && |d| == PAGE_SIZE
    requires if isNew then Absent(f, pos / PAGE_SIZE) else Present(f, pos / PAGE_SIZE, d)
    ensures SetPage(f, pos / PAGE_SIZE, Patched(d, isNew, pos % PAGE_SIZE, bytes)) == Fill(f, pos, bytes)
  {
    PageOfPosition(pos);
    var i, off := pos / PAGE_SIZE, pos % PAGE_SIZE;
    var g, h := SetPage(f, i, Patched(d, isNew, off, bytes)), Fill(f, pos, bytes);
    OnePage(pos, |bytes|);
    forall k | 0 <= k < |f| ensures g[k] == h[k] {
      assert h[k] == FillCell(f, pos, bytes, k);
    }
  }

  lemma OnePage(pos: nat, n: nat)
    requires 0 < n <= PAGE_SIZE - (pos - Down(pos))
    ensures Up(pos + n) == Down(pos) + PAGE_SIZE
  {
    PageEnd(Down(pos));
    Nearest(Down(pos) + PAGE_SIZE, pos + n);
    Nearest(Down(pos), pos + n);
    PagesApart(Down(pos), Up(pos + n));
  }

  lemma PageEnd(a: nat)
    requires a % PAGE_SIZE == 0
    ensures (a + PAGE_SIZE) % PAGE_SIZE == 0
  {
    DivisionFacts(a, PAGE_SIZE);
    RemainderUnique(a + PAGE_SIZE, PAGE_SIZE, a / PAGE_SIZE + 1, 0);
  }

  // ---------------------------------------------------------------- bytes of one page

  method Clear(pg: array<byte>, from: nat, to: nat)
    requires from <= to <= pg.Length
    modifies pg
    ensures pg[..] == old(pg[..from]) + Zeros(to - from) + old(pg[to..])
  {
    forall j | from <= j < to {
      pg[j] := 0;
    }
  }

  /** `copy_from_user` into a page. */
  method CopyIn(mem: Space, str: nat, n: nat, pg: array<byte>, off: nat) returns (ok: bool)
    requires off + n <= pg.Length
    modifies pg
    ensures ok <==> Mapped(mem, str, n)
    ensures ok ==> pg[..] == old(pg[..off]) + Fetch(mem, str, n) + old(pg[off + n..])
  {
    var j := 0;
    ok := true;
    while ok && j < n
      invariant j <= n && Mapped(mem, str, j) && (!ok ==> str + j !in mem && j < n)
      invariant pg[..off] == old(pg[..off]) && pg[off + n..] == old(pg[off + n..])
      invariant pg[off..off + j] == Fetch(mem, str, j)
      decreases ok, n - j
    {
      if str + j in mem {
        ghost var done := pg[off..off + j];
        pg[off + j] := mem[str + j];
        j := j + 1;
        assert pg[off..off + j] == done + [mem[str + j - 1]];
        assert Fetch(mem, str, j) == Fetch(mem, str, j - 1) + [mem[str + j - 1]];
      } else {
        ok := false;
      }
    }
    assert pg[..] == pg[..off] + pg[off..off + n] + pg[off + n..];
  }

  /** One page's share of a string: `len` bytes are left, the page takes what fits behind `off`. */
  method FillPage(pg: array<byte>, isNew: bool, off: nat, mem: Space, str: nat, len: nat) returns (ok: bool, n: nat)
    requires pg.Length == PAGE_SIZE && off < PAGE_SIZE && 0 < len
    modifies pg
    ensures n == if PAGE_SIZE - off > len then len else PAGE_SIZE - off
    ensures ok <==> Mapped(mem, str, n)
    ensures ok ==> pg[..] == Patched(old(pg[..]), isNew, off, Fetch(mem, str, n))
  {
    if isNew && off != 0 {
      Clear(pg, 0, off);
    }
    n := PAGE_SIZE - off;
    if n > len {
      n := len;
      if isNew {
        Clear(pg, off + len, PAGE_SIZE);
      }
    }
    assert isNew ==> pg[..off] == Zeros(off) && pg[off + n..] == Zeros(PAGE_SIZE - off - n);
    assert !isNew ==> pg[..] == old(pg[..]);
    ok := CopyIn(mem, str, n, pg, off);
  }

  lemma PushJoin(mem: Space, table: nat, s: seq<byte>, ss: seq<seq<byte>>, data: seq<byte>)
    requires PointsTo(mem, table, s) && Pointed(mem, table + POINTER_SIZE, ss)
    ensures Pointed(mem, table, [s] + ss)
    ensures Join([s] + ss) + data == s + (Join(ss) + data)
  {
    assert ([s] + ss)[1..] == ss;
    Regroup(s, Join(ss), data);
  }

  lemma StringThere(mem: Space, slot: nat, str: nat, len: nat, room: nat) returns (s: seq<byte>)
    requires WordIs(mem, slot, str) && str != 0 && len == UserLength(mem, str, room) && 0 < len <= room
    ensures Mapped(mem, str, len) && s == Fetch(mem, str, len) && PointsTo(mem, slot, s)
  {
    UserLengthMeaning(mem, str, room);
    s := Fetch(mem, str, len);
    HasFetch(mem, str, s);
  }

  lemma FetchPieces(mem: Space, a: nat, m: nat, n: nat)
    ensures Mapped(mem, a, m + n) <==> Mapped(mem, a, m) && Mapped(mem, a + m, n)
    ensures Mapped(mem, a, m + n) ==> Fetch(mem, a, m + n) == Fetch(mem, a, m) + Fetch(mem, a + m, n)
  {
    if Mapped(mem, a, m + n) {
      var whole, parts := Fetch(mem, a, m + n), Fetch(mem, a, m) + Fetch(mem, a + m, n);
      forall j | 0 <= j < m + n ensures whole[j] == parts[j] {
        assert a + j in mem && (m <= j ==> a + m + (j - m) == a + j);
      }
    }
  }

  /** The strings that the caller means, and that there is room for them. */
  ghost predicate FitsWith(kernel: Space, nameSlot: nat, mem: Space, argv: nat, envp: nat,
                           args: seq<seq<byte>>, envs: seq<seq<byte>>, name: seq<byte>)
  {
    && Vector(mem, argv, args) && Vector(mem, envp, envs) && PointsTo(kernel, nameSlot, name)
    && |args| <= Room() / POINTER_SIZE && |envs| <= Room() / POINTER_SIZE
    && |Join(args)| + |Join(envs)| + |name| <= Room()
  }

  ghost predicate Fits(kernel: Space, nameSlot: nat, mem: Space, argv: nat, envp: nat)
  {
    exists args, envs, name :: FitsWith(kernel, nameSlot, mem, argv, envp, args, envs, name)
  }

  /** If a vector is too long for what the name, and the environment if it is taken, leave, then nothing fits. */
  lemma Overflow(kernel: Space, nameSlot: nat, mem: Space, argv: nat, envp: nat, table: nat, envs: seq<seq<byte>>, name: seq<byte>, room: nat)
    requires PointsTo(kernel, nameSlot, name) && TooLong(mem, table, room)
    requires (table == envp && room + |name| == Room())
          || (table == argv && Vector(mem, envp, envs) && room + |Join(envs)| + |name| == Room())
    ensures !Fits(kernel, nameSlot, mem, argv, envp)
  {
    forall args', envs', name' ensures !FitsWith(kernel, nameSlot, mem, argv, envp, args', envs', name') {
      if FitsWith(kernel, nameSlot, mem, argv, envp, args', envs', name') {
        SameString(kernel, Decode(Fetch(kernel, nameSlot, POINTER_SIZE)), name, name');
        if Vector(mem, envp, envs) {
          VectorExact(mem, envp, envs, envs');
        }
      }
    }
  }

  /** How many pages have not been allocated. */
  ghost function Missing(pages: seq<array?<byte>>): nat
  {
    if pages == [] then 0 else (if pages[0] == null then 1 else 0) + Missing(pages[1..])
  }

  lemma {:induction false} MissingUpdate(pages: seq<array?<byte>>, i: nat, page: array<byte>)
    requires i < |pages| && pages[i] == null
    ensures Missing(pages) == Missing(pages[i := page]) + 1
  {
    if i > 0 {
      MissingUpdate(pages[1..], i - 1, page);
      assert pages[i := page][1..] == pages[1..][i - 1 := page];
    }
  }

  lemma {:induction false} MissingSome(pages: seq<array?<byte>>, i: nat)
    requires i < |pages| && pages[i] == null
    ensures Missing(pages) > 0
  {
    if i > 0 {
      MissingSome(pages[1..], i - 1);
    }
  }

  lemma {:induction false} MissingAtMost(pages: seq<array?<byte>>)
    ensures Missing(pages) <= |pages|
  {
    if pages != [] {
      MissingAtMost(pages[1..]);
    }
  }

  class Binprm {
    var p: nat
    var argc: nat
    var envc: nat
    var exec: nat
    const page: array<array?<byte>>
    /** How many more times `alloc_page` will succeed. */
    var budget: nat
    ghost var frames: set<array<byte>>
    ghost var flat: Image

    ghost predicate Holds(i: nat)
      requires i < page.Length
      reads `flat, `frames, page, frames
    {
      if page[i] == null then Absent(flat, i)
      else page[i] in frames && page[i].Length == PAGE_SIZE && Present(flat, i, page[i][..])
    }

    ghost predicate Valid()
      reads `flat, `frames, page, frames
    {
      && page.Length == MAX_ARG_PAGES && |flat| == Total()
      && (forall i :: 0 <= i < page.Length ==> Holds(i))
      && (forall i, j :: 0 <= i < j < page.Length && page[i] != null ==> page[i] != page[j])
    }

    /** How many pages could still be had if all were allocated; copying does not change it. */
    ghost function Slack(): int
      reads `budget, page
    {
      budget - Missing(page[..])
    }

    /** As many pages as there are slots are always enough. */
    lemma AmpleSlack()
      requires Valid() && budget >= MAX_ARG_PAGES
      ensures Slack() >= 0
    {
      MissingAtMost(page[..]);
    }

    constructor (budget: nat)
      ensures Valid() && p == Room() && this.budget == budget && fresh(page) && frames == {}
      ensures Stands(flat, Total(), p, [], true)
    {
      p, argc, envc, exec := Room(), 0, 0, 0;
      page := new array?<byte>[MAX_ARG_PAGES](_ => null);
      this.budget := budget;
      frames := {};
      flat := seq(Total(), _ => None);
    }

    /** Page `i`, allocated if it is not there yet; `null` if that fails. A new page holds anything. */
    method TakePage(i: nat) returns (pg: array?<byte>, isNew: bool)
      requires Valid() && i < MAX_ARG_PAGES
      modifies this, page
      ensures Valid() && p == old(p) && argc == old(argc) && envc == old(envc) && exec == old(exec)
      ensures fresh(frames - old(frames)) && old(frames) <= frames
      ensures pg == page[i] && isNew == old(page[i] == null)
      ensures isNew ==> Absent(old(flat), i)
      ensures isNew && pg != null ==> pg.Length == PAGE_SIZE && flat == SetPage(old(flat), i, pg[..])
      ensures !isNew || pg == null ==> flat == old(flat)
      ensures Slack() == old(Slack()) && (pg == null ==> Slack() < 0)
    {
      assert Holds(i);
      ghost var pages := page[..];
      isNew := page[i] == null;
      if isNew && budget > 0 {
        var made := new byte[PAGE_SIZE];
        MissingUpdate(pages, i, made);
        page[i] := made;
        assert page[..] == pages[i := made];
        frames := frames + {made};
        budget := budget - 1;
        flat := SetPage(flat, i, made[..]);
        forall j | 0 <= j < page.Length ensures Holds(j) {
          if j != i {
            assert old(Holds(j));
            SetPageElsewhere(old(flat), i, made[..], j);
          }
        }
      }
      pg := page[i];
      if pg == null {
        MissingSome(page[..], i);
      }
    }

    /** Copies into page `i` and records what it holds then. */
    method WritePage(i: nat, isNew: bool, off: nat, mem: Space, str: nat, len: nat) returns (ok: bool, n: nat)
      requires Valid() && i < MAX_ARG_PAGES && page[i] != null && off < PAGE_SIZE && 0 < len
      modifies this`flat, frames
      ensures Valid() && page[i].Length == PAGE_SIZE && old(page[i].Length) == PAGE_SIZE
      ensures n == if PAGE_SIZE - off > len then len else PAGE_SIZE - off
      ensures ok <==> Mapped(mem, str, n)
      ensures ok ==> flat == SetPage(old(flat), i, Patched(old(page[i][..]), isNew, off, Fetch(mem, str, n)))
    {
      assert Holds(i);
      var pg: array<byte> := page[i];
      ok, n := FillPage(pg, isNew, off, mem, str, len);
      flat := SetPage(flat, i, pg[..]);
      forall j | 0 <= j < page.Length ensures Holds(j) {
        if j != i {
          assert old(Holds(j));
          SetPageElsewhere(old(flat), i, pg[..], j);
        }
      }
    }

    /** Copies what one page takes of the rest of a string. */
    method CopyChunk(mem: Space, str: nat, pos: nat, len: nat) returns (r: Status, n: nat)
      requires Valid() && 0 < len && pos + len <= Total()
      modifies this, page, frames
      ensures Valid() && p == old(p) && argc == old(argc) && envc == old(envc) && exec == old(exec)
      ensures fresh(frames - old(frames)) && Slack() == old(Slack())
      ensures r == Ok ==> 0 < n <= len && Mapped(mem, str, n) && flat == Fill(old(flat), pos, Fetch(mem, str, n))
      ensures r == Efault ==> !Mapped(mem, str, len)
      ensures r != E2big && (r == Enomem ==> Slack() < 0)
    {
      PageOfPosition(pos);
      var i, off := pos / PAGE_SIZE, pos % PAGE_SIZE;
      n := 0;
      var pg, isNew := TakePage(i);
      if pg == null {
        r := Enomem;
      } else {
        assert Holds(i);
        ghost var before, image := pg[..], flat;
        var ok;
        ok, n := WritePage(i, isNew, off, mem, str, len);
        r := if ok then Ok else Efault;
        if ok {
          PatchIsFill(old(flat), pos, before, isNew, Fetch(mem, str, n));
          SetPageAgain(old(flat), i, before, Patched(before, isNew, off, Fetch(mem, str, n)));
        }
      }
    }

    /** Pushes one string of `len` bytes, page by page from its lowest byte on. */
    method PushString(mem: Space, str: nat, len: nat) returns (r: Status)
      requires Valid() && 0 < len <= p <= Total()
      modifies this, page, frames
      ensures Valid() && p == old(p) - len && argc == old(argc) && envc == old(envc) && exec == old(exec)
      ensures fresh(frames - old(frames)) && Slack() == old(Slack())
      ensures r == Ok ==> Mapped(mem, str, len) && flat == Fill(old(flat), p, Fetch(mem, str, len))
      ensures r == Efault ==> !Mapped(mem, str, len)
      ensures r != E2big && (r == Enomem ==> Slack() < 0)
    {
      p := p - len;
      r := Ok;
      var done := 0;
      while r == Ok && done < len
        invariant Valid() && p == old(p) - len && argc == old(argc) && envc == old(envc) && exec == old(exec)
        invariant fresh(frames - old(frames)) && done <= len && Slack() == old(Slack())
        invariant r == Ok && done == 0 ==> flat == old(flat)
        invariant r == Ok && done > 0 ==> Mapped(mem, str, done) && flat == Fill(old(flat), p, Fetch(mem, str, done))
        invariant r == Efault ==> !Mapped(mem, str, len)
        invariant r != E2big && (r == Enomem ==> Slack() < 0)
        decreases r == Ok, len - done
      {
        var n;
        r, n := CopyChunk(mem, str + done, p + done, len - done);
        FetchPieces(mem, str, done, n);
        FetchPieces(mem, str, done, len - done);
        if r == Ok {
          if done > 0 {
            FillPieces(old(flat), p, Fetch(mem, str, done), Fetch(mem, str + done, n));
          }
          done := done + n;
        }
      }
    }

    /** Pushes a string that was found to fit. */
    method PushFound(mem: Space, slot: nat, str: nat, len: nat, ghost low: nat, ghost data: seq<byte>, ghost clean: bool)
      returns (r: Status, ghost low': nat, ghost s: seq<byte>)
      requires Valid() && Stands(flat, low, p, data, clean)
      requires WordIs(mem, slot, str) && str != 0 && len == UserLength(mem, str, p) && 0 < len <= p
      modifies this, page, frames
      ensures Valid() && argc == old(argc) && envc == old(envc) && exec == old(exec)
      ensures fresh(frames - old(frames)) && Slack() == old(Slack())
      ensures r == Ok ==> PointsTo(mem, slot, s) && Stands(flat, low', p, s + data, clean)
      ensures r != Ok ==> r == Enomem && Slack() < 0
    {
      s := StringThere(mem, slot, str, len, p);
      PushStands(flat, low, p, data, clean, s);
      low' := LowAfter(low, p - len);
      r := PushString(mem, str, len);
    }

    /** Pushes the string that the pointer at `slot` leads to. */
    method TakeString(mem: Space, slot: nat, ghost low: nat, ghost data: seq<byte>, ghost clean: bool)
      returns (r: Status, ghost low': nat, ghost s: seq<byte>)
      requires Valid() && Stands(flat, low, p, data, clean) && !WordIs(mem, slot, 0)
      modifies this, page, frames
      ensures Valid() && argc == old(argc) && envc == old(envc) && exec == old(exec)
      ensures fresh(frames - old(frames)) && Slack() == old(Slack())
      ensures r == Ok ==> PointsTo(mem, slot, s) && Stands(flat, low', p, s + data, clean)
      ensures r != Ok ==> Refused(mem, slot, old(p), r)
      ensures r == Enomem ==> Slack() < 0
    {
      low', s := low, [];
      var ok, str := GetPointer(mem, slot);
      var len := if ok then UserLength(mem, str, p) else 0;
      if len == 0 {
        r := Efault;
      } else if p < len {
        r := E2big;
      } else {
        r, low', s := PushFound(mem, slot, str, len, low, data, clean);
      }
    }

    /** One round of `copy_strings`: the string goes in front of the strings `ss`. */
    method TakeNext(mem: Space, slot: nat, ghost low: nat, ghost ss: seq<seq<byte>>, ghost data: seq<byte>, ghost clean: bool)
      returns (r: Status, ghost low': nat, ghost ss': seq<seq<byte>>)
      requires Valid() && Stands(flat, low, p, Join(ss) + data, clean) && !WordIs(mem, slot, 0)
      requires Pointed(mem, slot + POINTER_SIZE, ss)
      modifies this, page, frames
      ensures Valid() && argc == old(argc) && envc == old(envc) && exec == old(exec)
      ensures fresh(frames - old(frames)) && Slack() == old(Slack())
      ensures r == Ok ==> |ss'| == |ss| + 1 && Pointed(mem, slot, ss') && Stands(flat, low', p, Join(ss') + data, clean)
      ensures r == Ok ==> p + |Join(ss')| == old(p) + |Join(ss)|
      ensures r != Ok ==> ss' == ss && Refused(mem, slot, old(p), r)
      ensures r == Enomem ==> Slack() < 0
    {
      ghost var s;
      r, low', s := TakeString(mem, slot, low, Join(ss) + data, clean);
      ss' := ss;
      if r == Ok {
        PushJoin(mem, slot, s, ss, data);
        ss' := [s] + ss;
      }
    }

    /** The strings from pointer `i` on have been taken; `room` was left then, and `start` before. */
    static ghost predicate TakenFrom(mem: Space, argv: nat, n: nat, i: nat, ss: seq<seq<byte>>, room: nat, start: nat, r: Status)
    {
      && i <= n && |ss| == n - i && Pointed(mem, SlotAt(argv, i), ss) && room + |Join(ss)| == start
      && (r != Ok ==> i > 0 && Refused(mem, SlotAt(argv, i - 1), room, r))
    }

    /** The round for the pointer before `i`. */
    method TakeAt(mem: Space, argv: nat, i: nat, ghost n: nat, ghost low: nat, ghost ss: seq<seq<byte>>,
                  ghost data: seq<byte>, ghost clean: bool, ghost start: nat)
      returns (r: Status, i': nat, ghost low': nat, ghost ss': seq<seq<byte>>, ghost room: nat)
      requires Valid() && Stands(flat, low, p, Join(ss) + data, clean) && i > 0 && NoneNull(mem, argv, n)
      requires TakenFrom(mem, argv, n, i, ss, p, start, Ok)
      modifies this, page, frames
      ensures Valid() && argc == old(argc) && envc == old(envc) && exec == old(exec)
      ensures fresh(frames - old(frames)) && Slack() == old(Slack())
      ensures TakenFrom(mem, argv, n, i', ss', room, start, r) && i' <= i
      ensures r == Ok ==> i' < i && room == p && Stands(flat, low', p, Join(ss') + data, clean)
      ensures r == Enomem ==> Slack() < 0
    {
      SlotNext(argv, i - 1);
      i', room := i, p;
      r, low', ss' := TakeNext(mem, SlotAt(argv, i - 1), low, ss, data, clean);
      if r == Ok {
        i', room := i - 1, p;
      }
    }

    /**
      `copy_strings`: pushes `n` strings, the last one first, so that they end up in order on top
      of what is there. If it stops early, `ss` are the strings pushed until then.
     */
    method CopyStrings(mem: Space, argv: nat, n: nat, ghost low: nat, ghost data: seq<byte>, ghost clean: bool)
      returns (r: Status, ghost low': nat, ghost ss: seq<seq<byte>>, ghost slot: nat, ghost room: nat)
      requires Valid() && Stands(flat, low, p, data, clean) && NoneNull(mem, argv, n)
      modifies this, page, frames
      ensures Valid() && argc == old(argc) && envc == old(envc) && exec == old(exec)
      ensures fresh(frames - old(frames)) && Slack() == old(Slack())
      ensures r == Ok ==> |ss| == n && Pointed(mem, argv, ss) && Stands(flat, low', p, Join(ss) + data, clean)
      ensures r != Ok ==> |ss| < n && Pointed(mem, SlotAt(argv, n - |ss|), ss)
      ensures r != Ok ==> slot == SlotAt(argv, n - |ss| - 1) && room + |Join(ss)| == old(p) && Refused(mem, slot, room, r)
      ensures r == Enomem ==> Slack() < 0
    {
      var i: nat := n;
      r, low', ss, room := Ok, low, [], p;
      assert Join(ss) + data == data;
      ghost var start := p;
      while r == Ok && i > 0
        invariant Valid() && argc == old(argc) && envc == old(envc) && exec == old(exec)
        invariant fresh(frames - old(frames)) && Slack() == old(Slack())
        invariant TakenFrom(mem, argv, n, i, ss, room, start, r)
        invariant r == Ok ==> room == p && Stands(flat, low', p, Join(ss) + data, clean)
        invariant r == Enomem ==> Slack() < 0
        decreases r == Ok, i
      {
        r, i, low', ss, room := TakeAt(mem, argv, i, n, low', ss, data, clean, start);
      }
      slot := SlotAt(argv, if i > 0 then i - 1 else 0);
    }

    /** The page of a string byte is there and holds it. */
    lemma ByteAt(low: nat, p0: nat, data: seq<byte>, q: nat)
      requires Valid() && Laid(flat, low, p0, data) && p0 <= q < p0 + |data|
      ensures var i := q / PAGE_SIZE;
              && 0 <= i < page.Length && page[i] != null && page[i].Length == PAGE_SIZE
              && page[i][q % PAGE_SIZE] == data[q - p0]
    {
      PageOfPosition(q);
      var i := q / PAGE_SIZE;
      assert Holds(i);
      assert flat[q] == LaidCell(flat, low, p0, data, q);
    }

    /** Where the string that starts at `start` has ended; every page looked at is there. */
    method SkipString(start: nat, ghost low: nat, ghost s: seq<byte>, ghost rest: seq<byte>) returns (q: nat)
      requires Valid() && IsCString(s) && Laid(flat, low, start, s + rest)
      ensures q == start + |s|
    {
      ghost var data := s + rest;
      ByteAt(low, start, data, start);
      var offset := start % PAGE_SIZE;
      var pg: array<byte> := page[start / PAGE_SIZE];
      q := start;
      var more := true;
      while more
        invariant start <= q <= start + |s| && (more <==> q < start + |s|)
        invariant more ==> offset == q % PAGE_SIZE && 0 <= q / PAGE_SIZE < page.Length && pg == page[q / PAGE_SIZE]
        invariant more ==> pg.Length == PAGE_SIZE && pg[offset] == s[q - start]
        decreases start + |s| - q
      {
        NextPosition(q);
        var c := pg[offset];
        q := q + 1;
        offset := offset + 1;
        if c == 0 {
          more := false;
        } else {
          ByteAt(low, start, data, q);
          if offset == PAGE_SIZE {
            offset := 0;
            pg := page[q / PAGE_SIZE];
          }
        }
      }
    }

    /** `remove_arg_zero`: the first string and its NUL go, whatever pages they straddle. */
    method RemoveArgZero(ghost low: nat, ghost s: seq<byte>, ghost rest: seq<byte>)
      requires Valid() && (argc > 0 ==> IsCString(s) && Laid(flat, low, p, s + rest))
      modifies `p, `argc
      ensures old(argc) == 0 ==> p == old(p) && argc == 0
      ensures old(argc) > 0 ==> argc == old(argc) - 1 && p == old(p) + |s| && Laid(flat, low, p, rest)
    {
      if argc > 0 {
        DropLaid(flat, low, p, s, rest);
        p := SkipString(p, low, s, rest);
        argc := argc - 1;
      }
    }

    /** `copy_strings` of a counted vector: its strings are too long, or there is no memory, or they are on top. */
    method TakeVector(mem: Space, table: nat, n: nat, ghost low: nat, ghost data: seq<byte>)
      returns (r: Status, ghost low': nat, ghost ss: seq<seq<byte>>)
      requires Valid() && Stands(flat, low, p, data, true) && NoneNull(mem, table, n)
      requires if table == 0 then n == 0 else WordIs(mem, SlotAt(table, n), 0)
      modifies this, page, frames
      ensures Valid() && argc == old(argc) && envc == old(envc) && exec == old(exec)
      ensures fresh(frames - old(frames)) && Slack() == old(Slack())
      ensures r == Ok ==> |ss| == n && Vector(mem, table, ss) && Stands(flat, low', p, Join(ss) + data, true)
      ensures r.Denied() ==> TooLong(mem, table, old(p))
      ensures r == Enomem ==> Slack() < 0
    {
      ghost var slot, room;
      r, low', ss, slot, room := CopyStrings(mem, table, n, low, data, true);
      forall ts | Vector(mem, table, ts) ensures r.Denied() ==> |Join(ts)| > old(p) {
        if table != 0 && r.Denied() {
          CountOf(mem, table, n, Ok, n, ts);
          DeniedStrings(mem, table, ss, room, r, ts);
        }
      }
    }

    /** Pushes the file name. */
    method TakeName(kernel: Space, slot: nat) returns (r: Status, ghost low: nat, ghost name: seq<byte>)
      requires Valid() && Stands(flat, Total(), p, [], true) && !WordIs(kernel, slot, 0)
      modifies this, page, frames
      ensures Valid() && argc == old(argc) && envc == old(envc)
      ensures fresh(frames - old(frames)) && Slack() == old(Slack())
      ensures r == Ok ==> PointsTo(kernel, slot, name) && Stands(flat, low, p, name, true) && exec == p
      ensures r.Denied() ==> forall s :: PointsTo(kernel, slot, s) ==> |s| > old(p)
      ensures r == Enomem ==> Slack() < 0
    {
      ghost var room := p;
      r, low, name := TakeString(kernel, slot, Total(), [], true);
      exec := p;
      assert name + [] == name;
      forall s | PointsTo(kernel, slot, s) ensures r.Denied() ==> |s| > room {
        if r.Denied() {
          NotDenied(kernel, slot, room, r, s);
        }
      }
    }

    /** The three copies of `do_execve`, with `n` arguments and `m` strings of the environment counted. */
    method GatherArgs(kernel: Space, nameSlot: nat, mem: Space, argv: nat, envp: nat, n: nat, m: nat)
      returns (r: Status, ghost low: nat, ghost args: seq<seq<byte>>, ghost envs: seq<seq<byte>>, ghost name: seq<byte>)
      requires Valid() && Stands(flat, Total(), p, [], true) && p == Room() && !WordIs(kernel, nameSlot, 0)
      requires n <= Room() / POINTER_SIZE && m <= Room() / POINTER_SIZE && NoneNull(mem, argv, n) && NoneNull(mem, envp, m)
      requires if argv == 0 then n == 0 else WordIs(mem, SlotAt(argv, n), 0)
      requires if envp == 0 then m == 0 else WordIs(mem, SlotAt(envp, m), 0)
      modifies this, page, frames
      ensures Valid() && argc == old(argc) && envc == old(envc)
      ensures fresh(frames - old(frames)) && Slack() == old(Slack())
      ensures r == Ok ==> Stands(flat, low, p, Join(args) + (Join(envs) + name), true)
      ensures r == Ok ==> FitsWith(kernel, nameSlot, mem, argv, envp, args, envs, name)
      ensures r == Ok ==> |args| == n && |envs| == m && exec == Room() - |name|
      ensures r.Denied() ==> !Fits(kernel, nameSlot, mem, argv, envp)
      ensures r == Enomem ==> Slack() < 0
    {
      args, envs := [], [];
      r, low, name := TakeName(kernel, nameSlot);
      if r == Ok {
        r, low, envs := TakeVector(mem, envp, m, low, name);
        if r == Ok {
          ghost var room := p;
          r, low, args := TakeVector(mem, argv, n, low, Join(envs) + name);
          if r.Denied() {
            Overflow(kernel, nameSlot, mem, argv, envp, argv, envs, name, room);
          }
        } else if r.Denied() {
          Overflow(kernel, nameSlot, mem, argv, envp, envp, [], name, Room() - |name|);
        }
      }
    }

    /** The two counts of `do_execve`. */
    method CountBoth(ghost kernel: Space, ghost nameSlot: nat, mem: Space, argv: nat, envp: nat) returns (r: Status, n: nat, m: nat)
      requires p == Room()
      modifies `argc, `envc
      ensures r != Enomem && (r.Denied() ==> !Fits(kernel, nameSlot, mem, argv, envp))
      ensures r == Ok ==> argc == n <= Room() / POINTER_SIZE && envc == m <= Room() / POINTER_SIZE
      ensures r == Ok ==> NoneNull(mem, argv, n) && NoneNull(mem, envp, m)
      ensures r == Ok ==> if argv == 0 then n == 0 else WordIs(mem, SlotAt(argv, n), 0)
      ensures r == Ok ==> if envp == 0 then m == 0 else WordIs(mem, SlotAt(envp, m), 0)
    {
      m := 0;
      r, n := Count(mem, argv, p / POINTER_SIZE);
      if r == Ok {
        argc := n;
        r, m := Count(mem, envp, p / POINTER_SIZE);
        if r == Ok {
          envc := m;
        }
      }
    }

    /**
      The part of `do_execve` that gathers the strings: the file name, found through `nameSlot` in
      kernel memory, then the environment, then the arguments, each below the one before. With
      enough memory it succeeds exactly if there are strings that fit.
     */
    method PrepareArgs(kernel: Space, nameSlot: nat, mem: Space, argv: nat, envp: nat)
      returns (r: Status, ghost low: nat, ghost args: seq<seq<byte>>, ghost envs: seq<seq<byte>>, ghost name: seq<byte>)
      requires Valid() && Stands(flat, Total(), p, [], true) && p == Room() && !WordIs(kernel, nameSlot, 0)
      modifies this, page, frames
      ensures Valid()
      ensures fresh(frames - old(frames)) && Slack() == old(Slack())
      ensures r == Ok ==> Stands(flat, low, p, Join(args) + (Join(envs) + name), true)
      ensures r == Ok ==> FitsWith(kernel, nameSlot, mem, argv, envp, args, envs, name)
      ensures r == Ok ==> argc == |args| && envc == |envs| && exec == Room() - |name|
      ensures r.Denied() ==> !Fits(kernel, nameSlot, mem, argv, envp)
      ensures r == Enomem ==> Slack() < 0
    {
      low, args, envs, name := Total(), [], [], [];
      var n, m;
      r, n, m := CountBoth(kernel, nameSlot, mem, argv, envp);
      if r == Ok {
        r, low, args, envs, name := GatherArgs(kernel, nameSlot, mem, argv, envp, n, m);
      }
    }
  }
}
