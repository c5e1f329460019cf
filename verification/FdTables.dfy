/** Descriptor tables across fork and exec: copying, sharing, and closing on exec. */
module FdTables {
  import opened Words
  import opened FdBits
  import opened Options

  type File = nat

  type Slots = seq<Option<File>>

  /** How many slots hold `f`. */
  function Uses(slots: Slots, f: File): nat
  {
    if slots == [] then 0 else (if slots[0] == Some(f) then 1 else 0) + Uses(slots[1..], f)
  }

  lemma {:induction false} UsesConcat(a: Slots, b: Slots, f: File)
    ensures Uses(a + b, f) == Uses(a, f) + Uses(b, f)
  {
    if a == [] {
      assert a + b == b;
    } else {
      assert (a + b)[1..] == a[1..] + b;
      UsesConcat(a[1..], b, f);
    }
  }

  lemma UsesAppend(slots: Slots, slot: Option<File>, f: File)
    ensures Uses(slots + [slot], f) == Uses(slots, f) + (if slot == Some(f) then 1 else 0)
  {
    UsesConcat(slots, [slot], f);
    assert [slot][1..] == [];
  }

  /** Emptying a slot drops the use it made. */
  lemma UsesUpdate(slots: Slots, i: nat, slot: Option<File>, f: File)
    requires i < |slots|
    ensures Uses(slots[i := slot], f)
         == Uses(slots, f) - (if slots[i] == Some(f) then 1 else 0) + (if slot == Some(f) then 1 else 0)
  {
    assert slots == slots[..i] + [slots[i]] + slots[i + 1..];
    assert slots[i := slot] == slots[..i] + [slot] + slots[i + 1..];
    UsesConcat(slots[..i] + [slots[i]], slots[i + 1..], f);
    UsesConcat(slots[..i] + [slot], slots[i + 1..], f);
    UsesAppend(slots[..i], slots[i], f);
    UsesAppend(slots[..i], slot, f);
  }

  /** The reference counts of open files. */
  class FileCounts {
    var count: map<File, int>

    function Of(f: File): int
      reads this
    {
      if f in count then count[f] else 0
    }

    method Add(slot: Option<File>, n: int)
      modifies this
      ensures forall f: File :: Of(f) == old(Of(f)) + (if slot == Some(f) then n else 0)
    {
      match slot
      case None =>
      case Some(g) => count := count[g := Of(g) + n];
    }
  }

  /** The words up to the last one with a bit, at least one. */
  ghost function CountWords(open: seq<Word>): (w: nat)
    requires open != []
    ensures 1 <= w <= |open| && (w == 1 || open[w - 1] != 0)
    ensures forall k :: w <= k < |open| ==> open[k] == 0
  {
    var last := |open| - 1;
    if last == 0 || open[last] != 0 then |open| else CountWords(open[..last])
  }

  /** Every installed file has a descriptor below `n`. */
  ghost predicate AllBelow(slots: Slots, n: nat)
  {
    forall i :: 0 <= i < |slots| && slots[i].Some? ==> i < n
  }

  class FdTable {
    /** `max_fds` is `fd.Length`, `max_fdset` is `open.Length * WORD_BITS`. */
    const fd: array<Option<File>>
    const open: array<Word>
    const closeOnExec: array<Word>
    const words: nat

    ghost predicate Shape()
    {
      && fd.Length == words * WORD_BITS && 0 < words
      && open.Length == closeOnExec.Length && 0 < open.Length && open != closeOnExec
    }

    /** A file is installed only under a claimed descriptor, and only descriptors with a slot are claimed. */
    ghost predicate Claimed()
      reads fd, open
    {
      && (forall i :: 0 <= i < fd.Length && fd[i].Some? ==> IsSet(open[..], i))
      && (forall i: nat :: IsSet(open[..], i) ==> i < fd.Length)
    }

    /** A table as it comes from the allocator: its contents are anything. */
    constructor (words: nat, setWords: nat)
      requires 0 < words && 0 < setWords
      ensures Shape() && this.words == words && open.Length == setWords
      ensures fresh(fd) && fresh(open) && fresh(closeOnExec)
    {
      this.words := words;
      fd := new Option<File>[words * WORD_BITS];
      open := new Word[setWords];
      closeOnExec := new Word[setWords];
    }

    /** `count_open_files`, in words: up to the last word with a bit, at least one. */
    method CountOpenWords() returns (w: nat)
      requires Shape()
      ensures w == CountWords(open[..])
    {
      var i := open.Length;
      var found := false;
      while i > 0 && !found
        invariant 0 <= i <= open.Length && (found ==> i < open.Length && open[i] != 0)
        invariant forall k :: i < k < open.Length ==> open[k] == 0
        invariant !found ==> forall k :: i <= k < open.Length ==> open[k] == 0
        decreases i, !found
      {
        i := i - 1;
        found := open[i] != 0;
      }
      w := i + 1;
    }

    /** How many descriptors `copy_files` copies. */
    ghost function Counted(): nat
      requires Shape()
      reads open
    {
      CountWords(open[..]) * WORD_BITS
    }

    /** Every installed file lies below the count. */
    lemma InstalledBelow(i: nat)
      requires Shape() && Claimed() && i < fd.Length && fd[i].Some?
      ensures i < Counted()
    {
      var w := CountWords(open[..]);
      assert IsSet(open[..], i);
      SetWord(open[..], i);
      PositionInside(i, w);
    }

    lemma AllCounted()
      requires Shape() && Claimed()
      ensures AllBelow(fd[..], Counted())
    {
      forall i | 0 <= i < fd.Length && fd[i].Some? ensures i < Counted() {
        InstalledBelow(i);
      }
    }

    /** All claimed descriptors are in the first word, so that a new table takes them as it is. */
    ghost predicate OneWord()
      reads open
    {
      forall k :: 1 <= k < open.Length ==> open[k] == 0
    }

    lemma OneWordCount()
      requires Shape()
      ensures OneWord() <==> CountWords(open[..]) == 1
    {
      var words := open[..];
      assert forall k :: 0 <= k < |words| ==> words[k] == open[k];
    }

    /** The counted descriptors have slots. */
    lemma CountFits()
      requires Shape() && Claimed()
      ensures CountWords(open[..]) <= words
    {
      var w := CountWords(open[..]);
      if w > 1 {
        var i := BitIn(open[..], w - 1);
        PositionInside(i, words);
      }
    }
  }

  lemma BitIn(bits: seq<Word>, j: nat) returns (i: nat)
    requires j < |bits| && bits[j] != 0
    ensures IsSet(bits, i) && WordOf(i) == j
  {
    var k := SomeBit(bits[j]);
    PositionOf(j, k);
    i := j * WORD_BITS + k;
  }

  lemma {:induction false} SomeBit(w: nat) returns (k: nat)
    requires w != 0
    ensures Bit(w, k) && k < Width(w)
  {
    if w % 2 == 1 {
      k := 0;
    } else {
      k := SomeBit(w / 2);
      k := k + 1;
    }
  }

  // ---------------------------------------------------------------- copying a table

  /** Bit `j` of a copied bitmap once the first `i` slots have been looked at. */
  ghost predicate BitCopied(after: seq<Word>, before: seq<Word>, slots: Slots, i: nat, j: nat)
  {
    IsSet(after, j) <==> IsSet(before, j) && (j < i && j < |slots| ==> slots[j].Some?)
  }

  ghost predicate BitsCopied(after: seq<Word>, before: seq<Word>, slots: Slots, i: nat)
  {
    forall j: nat :: BitCopied(after, before, slots, i, j)
  }

  method CopyWords(from: array<Word>, to: array<Word>, w: nat)
    requires w <= from.Length && w <= to.Length && from != to
    modifies to
    ensures forall k :: 0 <= k < w ==> to[k] == from[k]
  {
    forall k | 0 <= k < w {
      to[k] := from[k];
    }
  }

  method ZeroWords(a: array<Word>, start: nat)
    requires start <= a.Length
    modifies a
    ensures forall k :: 0 <= k < a.Length ==> a[k] == if k < start then old(a[k]) else 0
  {
    forall k | start <= k < a.Length {
      a[k] := 0;
    }
  }

  method FdClr(a: array<Word>, i: nat)
    requires WordOf(i) < a.Length
    modifies a
    ensures a[..] == Clear(old(a[..]), i)
  {
    a[WordOf(i)] := Cleared(a[WordOf(i)], PlaceOf(i));
  }

  /** Words that agree hold the same bits. */
  lemma SameWords(a: seq<Word>, b: seq<Word>, w: nat, j: nat)
    requires w <= |a| && w <= |b| && (forall k :: 0 <= k < w ==> a[k] == b[k]) && j < w * WORD_BITS
    ensures IsSet(a, j) <==> IsSet(b, j)
  {
    PositionInside(j, w);
  }

  /** Clears the bit of an empty slot. */
  method CopySlot(open: array<Word>, slot: Option<File>, i: nat, ghost before: seq<Word>, ghost slots: Slots)
    requires WordOf(i) < open.Length && i < |slots| && slots[i] == slot
    requires BitsCopied(open[..], before, slots, i)
    modifies open
    ensures BitsCopied(open[..], before, slots, i + 1)
  {
    ghost var was := open[..];
    if slot.None? {
      FdClr(open, i);
    }
    ghost var next, now := i + 1, open[..];
    forall j: nat ensures BitCopied(now, before, slots, next, j) {
      assert BitCopied(was, before, slots, i, j);
      if slot.None? {
        ClearMeaning(was, i, j);
      }
    }
  }

  /** The references that copying the first `i` slots adds. */
  ghost predicate Counted(k: FileCounts, before: File -> int, slots: Slots, i: nat)
    requires i <= |slots|
    reads k
  {
    forall f: File :: k.Of(f) == before(f) + Uses(slots[..i], f)
  }

  method CountSlot(k: FileCounts, slot: Option<File>, ghost before: File -> int, ghost slots: Slots, ghost i: nat)
    requires i < |slots| && slots[i] == slot && Counted(k, before, slots, i)
    modifies k
    ensures Counted(k, before, slots, i + 1)
  {
    k.Add(slot, 1);
    forall f: File ensures Uses(slots[..i + 1], f) == Uses(slots[..i], f) + (if slot == Some(f) then 1 else 0) {
      UsesAppend(slots[..i], slot, f);
      assert slots[..i + 1] == slots[..i] + [slot];
    }
  }

  /** The slots below `n` are copied, each file gets a reference, empty slots give up their claim. */
  method CopySlots(from: array<Option<File>>, to: array<Option<File>>, open: array<Word>, n: nat, ghost w: nat,
                   ghost bits: seq<Word>, k: FileCounts, ghost before: File -> int)
    requires n == w * WORD_BITS && w <= open.Length && n <= from.Length && n <= to.Length && from != to
    requires BitsCopied(open[..], bits, from[..], 0) && Counted(k, before, from[..], 0)
    modifies to, open, k
    ensures forall i :: 0 <= i < n ==> to[i] == from[i]
    ensures BitsCopied(open[..], bits, from[..], n) && Counted(k, before, from[..], n)
  {
    var i := 0;
    ghost var slots := from[..];
    while i < n
      invariant i <= n && from[..] == slots
      invariant forall j :: 0 <= j < i ==> to[j] == slots[j]
      invariant BitsCopied(open[..], bits, slots, i) && Counted(k, before, slots, i)
    {
      PositionInside(i, w);
      var slot := from[i];
      CountSlot(k, slot, before, slots, i);
      CopySlot(open, slot, i, bits, slots);
      to[i] := slot;
      i := i + 1;
    }
  }

  /** `to` is a copy of the first `n` descriptors of `from`: the installed files, their claims and their close-on-exec bits. */
  ghost predicate CopyOf(from: FdTable, to: FdTable, n: nat)
    requires n <= from.fd.Length
    reads from.fd, from.open, from.closeOnExec, to.fd, to.open, to.closeOnExec
  {
    && (forall i :: 0 <= i < to.fd.Length ==> to.fd[i] == if i < n then from.fd[i] else None)
    && (forall j: nat :: IsSet(to.open[..], j) <==> j < n && IsSet(from.open[..], j) && from.fd[j].Some?)
    && (forall j: nat :: IsSet(to.closeOnExec[..], j) <==> j < n && IsSet(from.closeOnExec[..], j))
  }

  /** Zero words behind word `w` leave the bits below and no others. */
  lemma ZeroedBits(before: seq<Word>, after: seq<Word>, w: nat, j: nat)
    requires w <= |before| == |after| && (forall k :: 0 <= k < |after| ==> after[k] == if k < w then before[k] else 0)
    ensures IsSet(after, j) <==> j < w * WORD_BITS && IsSet(before, j)
  {
    PositionInside(j, w);
    if IsSet(after, j) {
      SetWord(after, j);
    }
  }

  /** Copies one bitmap: `w` words of the old one, then zero. */
  method CopyBitmap(from: array<Word>, to: array<Word>, w: nat)
    requires w <= from.Length && w <= to.Length && from != to
    modifies to
    ensures forall j: nat :: IsSet(to[..], j) <==> j < w * WORD_BITS && IsSet(from[..], j)
  {
    CopyWords(from, to, w);
    ghost var copied := to[..];
    ZeroWords(to, w);
    forall j: nat ensures IsSet(to[..], j) <==> j < w * WORD_BITS && IsSet(from[..], j) {
      ZeroedBits(copied, to[..], w, j);
      if j < w * WORD_BITS {
        SameWords(copied, from[..], w, j);
      }
    }
  }

  method ClearSlots(fd: array<Option<File>>, start: nat)
    requires start <= fd.Length
    modifies fd
    ensures forall i :: 0 <= i < fd.Length ==> fd[i] == if i < start then old(fd[i]) else None
  {
    forall i | start <= i < fd.Length {
      fd[i] := None;
    }
  }

  ghost predicate Apart(from: FdTable, to: FdTable)
  {
    && from.fd != to.fd && from.open != to.open && from.open != to.closeOnExec
    && from.closeOnExec != to.open && from.closeOnExec != to.closeOnExec
  }

  /** The claims that are left are those of installed files. */
  lemma ClaimsLeft(after: seq<Word>, copied: seq<Word>, bits: seq<Word>, slots: Slots, n: nat, j: nat)
    requires n <= |slots| && BitsCopied(after, copied, slots, n) && (IsSet(copied, j) <==> j < n && IsSet(bits, j))
    ensures IsSet(after, j) <==> j < n && IsSet(bits, j) && slots[j].Some?
  {
    assert BitCopied(after, copied, slots, n, j);
  }

  /** The copying part of `copy_files`. */
  method CopyTable(from: FdTable, to: FdTable, w: nat, n: nat, k: FileCounts, ghost before: File -> int)
    requires from.Shape() && to.Shape() && Apart(from, to)
    requires n == w * WORD_BITS && n <= from.fd.Length && n <= to.fd.Length && w <= from.open.Length && w <= to.open.Length
    requires Counted(k, before, from.fd[..], 0)
    modifies to.fd, to.open, to.closeOnExec, k
    ensures CopyOf(from, to, n) && Counted(k, before, from.fd[..], n)
  {
    CopyBitmap(from.open, to.open, w);
    CopyBitmap(from.closeOnExec, to.closeOnExec, w);
    ghost var copied := to.open[..];
    assert forall j: nat :: BitCopied(copied, copied, from.fd[..], 0, j);
    CopySlots(from.fd, to.fd, to.open, n, w, copied, k, before);
    ClearSlots(to.fd, n);
    forall j: nat ensures IsSet(to.open[..], j) <==> j < n && IsSet(from.open[..], j) && from.fd[j].Some? {
      ClaimsLeft(to.open[..], copied, from.open[..], from.fd[..], n, j);
    }
  }

  // ---------------------------------------------------------------- sharing and releasing tables

  /** `files_struct` */
  class Files {
    var count: int
    var table: FdTable

    constructor (table: FdTable)
      ensures count == 1 && this.table == table
    {
      count, this.table := 1, table;
    }
  }

  /** `__FD_SETSIZE` in words; a new table has slots for one word of descriptors. */
  const FD_SET_WORDS: Positive

  const ENOMEM := 12

  /** A new table with a copy of the first `w` words of descriptors. */
  method NewCopy(from: FdTable, w: nat, extra: nat, k: FileCounts, ghost before: File -> int) returns (g: Files)
    requires from.Shape() && w <= from.words && w <= from.open.Length && forall x: File :: k.Of(x) == before(x)
    modifies k
    ensures fresh(g) && g.count == 1 && fresh(g.table.fd) && fresh(g.table.open) && fresh(g.table.closeOnExec) && g.table.Shape()
    ensures w * WORD_BITS <= from.fd.Length && w * WORD_BITS <= g.table.fd.Length
    ensures CopyOf(from, g.table, w * WORD_BITS) && Counted(k, before, from.fd[..], w * WORD_BITS)
  {
    var to := new FdTable(if w > 1 then w + extra else 1, if w > FD_SET_WORDS then w + extra else FD_SET_WORDS);
    SlotsFor(w, from);
    SlotsFor(w, to);
    CopyTable(from, to, w, w * WORD_BITS, k, before);
    g := new Files(to);
  }

  /**
    `copy_files`: `memory` and `expands` say whether the allocations succeed, `extra` how much
    larger than needed an expanded table is, and `later` is the old table after the lock was
    given up to expand the new one. The copy covers `n` descriptors of the table `cur`.
   */
  method CopyFiles(f: Files, share: bool, memory: bool, expands: bool, extra: nat, later: FdTable, k: FileCounts, ghost before: File -> int)
    returns (err: int, g: Files, ghost cur: FdTable, ghost n: nat)
    requires f.table.Shape() && f.table.Claimed() && later.Shape()
    requires f.table.words <= later.words && f.table.open.Length <= later.open.Length
    requires forall x: File :: k.Of(x) == before(x)
    modifies f`count, k
    ensures share ==> err == 0 && g == f && f.count == old(f.count) + 1
    ensures !share || err != 0 ==> f.count == old(f.count)
    ensures err != 0 ==> g == f
    ensures err == 0 <==> share || (memory && (expands || old(f.table.OneWord())))
    ensures err != 0 || share ==> forall x: File :: k.Of(x) == before(x)
    ensures err == 0 && !share ==>
      && fresh(g) && g.count == 1 && fresh(g.table.fd) && fresh(g.table.open) && fresh(g.table.closeOnExec)
      && g.table.Shape() && cur == (if f.table.OneWord() then f.table else later) && n == f.table.Counted()
      && n <= cur.fd.Length && n <= g.table.fd.Length && CopyOf(cur, g.table, n) && Counted(k, before, cur.fd[..], n)
    ensures err == 0 && !share ==> AllBelow(old(f.table.fd[..]), n)
  {
    err, g, cur, n := 0, f, f.table, 0;
    if share {
      f.count := f.count + 1;
    } else {
      var w := f.table.CountOpenWords();
      f.table.CountFits();
      f.table.OneWordCount();
      f.table.AllCounted();
      var expand := w > FD_SET_WORDS || w > 1;
      if !memory || (expand && !expands) {
        err := -ENOMEM;
      } else {
        var from := if expand then later else f.table;
        cur, n := from, w * WORD_BITS;
        g := NewCopy(from, w, extra, k, before);
      }
    }
  }

  lemma SlotsFor(w: nat, t: FdTable)
    requires t.Shape() && w <= t.words
    ensures w * WORD_BITS <= t.fd.Length
  {
    Scaled(w, t.words, WORD_BITS);
  }

  /** In a copy exactly the installed descriptors are claimed. */
  lemma CopyClaimed(from: FdTable, to: FdTable, n: nat)
    requires n <= from.fd.Length && n <= to.fd.Length && CopyOf(from, to, n)
    requires forall i :: 0 <= i < n && from.fd[i].Some? ==> IsSet(from.open[..], i)
    ensures to.Claimed()
    ensures forall j: nat :: IsSet(to.open[..], j) <==> j < to.fd.Length && to.fd[j].Some?
  {}

  lemma {:induction false} UsesNone(slots: Slots, f: File)
    requires forall i :: 0 <= i < |slots| ==> slots[i].None?
    ensures Uses(slots, f) == 0
  {
    if slots != [] {
      UsesNone(slots[1..], f);
    }
  }

  /** A copy uses each file as often as the slots it was made from. */
  lemma CopyUses(from: Slots, to: Slots, n: nat, f: File)
    requires n <= |from| && n <= |to| && (forall i :: 0 <= i < |to| ==> to[i] == if i < n then from[i] else None)
    ensures Uses(to, f) == Uses(from[..n], f)
  {
    assert to == from[..n] + to[n..];
    UsesConcat(from[..n], to[n..], f);
    UsesNone(to[n..], f);
  }

  /** The references that are left when the first `i` slots have been closed. */
  ghost predicate Dropped(k: FileCounts, before: File -> int, slots: Slots, i: nat)
    requires i <= |slots|
    reads k
  {
    forall f: File :: k.Of(f) == before(f) - Uses(slots[..i], f)
  }

  method DropSlot(k: FileCounts, slot: Option<File>, ghost before: File -> int, ghost slots: Slots, ghost i: nat)
    requires i < |slots| && slots[i] == slot && Dropped(k, before, slots, i)
    modifies k
    ensures Dropped(k, before, slots, i + 1)
  {
    k.Add(slot, -1);
    forall f: File ensures Uses(slots[..i + 1], f) == Uses(slots[..i], f) + (if slot == Some(f) then 1 else 0) {
      UsesAppend(slots[..i], slot, f);
      assert slots[..i + 1] == slots[..i] + [slot];
    }
  }

  /** `put_files_struct`: the last one out closes what is open. */
  method PutFiles(f: Files, k: FileCounts, ghost before: File -> int)
    requires f.table.Claimed() && forall x: File :: k.Of(x) == before(x)
    modifies f`count, f.table.fd, k
    ensures f.count == old(f.count) - 1
    ensures f.count != 0 ==> f.table.fd[..] == old(f.table.fd[..]) && forall x: File :: k.Of(x) == before(x)
    ensures f.count == 0 ==> Dropped(k, before, old(f.table.fd[..]), f.table.fd.Length)
    ensures f.count == 0 ==> forall i :: 0 <= i < f.table.fd.Length ==> f.table.fd[i].None?
  {
    f.count := f.count - 1;
    if f.count == 0 {
      CloseAll(f.table, k, before);
    }
  }

  method CloseAll(t: FdTable, k: FileCounts, ghost before: File -> int)
    requires t.Claimed() && forall x: File :: k.Of(x) == before(x)
    modifies t.fd, k
    ensures Dropped(k, before, old(t.fd[..]), t.fd.Length)
    ensures forall i :: 0 <= i < t.fd.Length ==> t.fd[i].None?
  {
    ghost var slots := t.fd[..];
    var i := 0;
    while i < t.fd.Length
      invariant i <= t.fd.Length && Dropped(k, before, slots, i)
      invariant forall j :: 0 <= j < t.fd.Length ==> t.fd[j] == if j < i then None else slots[j]
    {
      DropSlot(k, if IsSet(t.open[..], i) then t.fd[i] else None, before, slots, i);
      t.fd[i] := None;
      i := i + 1;
    }
  }

  // ---------------------------------------------------------------- close on exec

  /** References beyond those of this table. */
  ghost predicate Others(k: FileCounts, slots: Slots, others: File -> int)
    reads k
  {
    forall f: File :: k.Of(f) == others(f) + Uses(slots, f)
  }

  /** `sys_close`: an installed file goes, with its claim, its close-on-exec bit and its reference. */
  method SysClose(t: FdTable, i: nat, k: FileCounts, ghost others: File -> int)
    requires t.Shape() && t.Claimed() && Others(k, t.fd[..], others) && WordOf(i) < t.closeOnExec.Length
    modifies t.fd, t.open, t.closeOnExec, k
    ensures Others(k, t.fd[..], others)
    ensures i < t.fd.Length && old(t.fd[i]).Some? ==>
      && t.fd[..] == old(t.fd[..])[i := None] && t.open[..] == Clear(old(t.open[..]), i)
      && t.closeOnExec[..] == Clear(old(t.closeOnExec[..]), i)
    ensures i >= t.fd.Length || old(t.fd[i]).None? ==>
      t.fd[..] == old(t.fd[..]) && t.open[..] == old(t.open[..]) && t.closeOnExec[..] == old(t.closeOnExec[..])
  {
    if i < t.fd.Length && t.fd[i].Some? {
      ghost var slots := t.fd[..];
      k.Add(t.fd[i], -1);
      t.fd[i] := None;
      FdClr(t.closeOnExec, i);
      FdClr(t.open, i);
      assert t.fd[..] == slots[i := None];
      forall f: File ensures Uses(slots[i := None], f) == Uses(slots, f) - (if slots[i] == Some(f) then 1 else 0) {
        UsesUpdate(slots, i, None, f);
      }
    }
  }

  datatype Before = Before(slots: Slots, open: seq<Word>, closeOnExec: seq<Word>)

  /** Descriptor `p` once everything below `i` has been flushed. */
  ghost predicate FlushedAt(fd: Slots, open: seq<Word>, b: Before, i: nat, p: nat)
  {
    var gone := p < i && IsSet(b.closeOnExec, p);
    && (p < |fd| && p < |b.slots| ==> fd[p] == if gone then None else b.slots[p])
    && (IsSet(open, p) <==> IsSet(b.open, p) && !(gone && p < |b.slots| && b.slots[p].Some?))
  }

  ghost predicate Flushed(fd: Slots, open: seq<Word>, b: Before, i: nat)
  {
    |fd| == |b.slots| && |open| == |b.open| && forall p: nat :: FlushedAt(fd, open, b, i, p)
  }

  lemma FlushedSkip(fd: Slots, open: seq<Word>, b: Before, i: nat, i': nat)
    requires Flushed(fd, open, b, i) && i <= i' && forall p: nat :: i <= p < i' ==> !IsSet(b.closeOnExec, p)
    ensures Flushed(fd, open, b, i')
  {
    forall p: nat ensures FlushedAt(fd, open, b, i', p) {
      assert FlushedAt(fd, open, b, i, p);
    }
  }

  lemma FlushedClaimed(fd: Slots, open: seq<Word>, b: Before, i: nat)
    requires Flushed(fd, open, b, i)
    requires forall p :: 0 <= p < |b.slots| && b.slots[p].Some? ==> IsSet(b.open, p)
    requires forall p: nat :: IsSet(b.open, p) ==> p < |b.slots|
    ensures forall p :: 0 <= p < |fd| && fd[p].Some? ==> IsSet(open, p)
    ensures forall p: nat :: IsSet(open, p) ==> p < |fd|
  {
    forall p | 0 <= p < |fd| && fd[p].Some? ensures IsSet(open, p) {
      assert FlushedAt(fd, open, b, i, p);
    }
    forall p: nat | IsSet(open, p) ensures p < |fd| {
      assert FlushedAt(fd, open, b, i, p);
    }
  }

  /** Closing descriptor `i`, whose bit was set, flushes one more. */
  lemma FlushedClose(fd: Slots, open: seq<Word>, fd': Slots, open': seq<Word>, b: Before, i: nat)
    requires Flushed(fd, open, b, i) && IsSet(b.closeOnExec, i) && WordOf(i) < |open|
    requires if i < |fd| && fd[i].Some? then fd' == fd[i := None] && open' == Clear(open, i) else fd' == fd && open' == open
    ensures Flushed(fd', open', b, i + 1)
  {
    var next := i + 1;
    assert FlushedAt(fd, open, b, i, i);
    forall p: nat ensures FlushedAt(fd', open', b, next, p) {
      assert FlushedAt(fd, open, b, i, p);
      if i < |fd| && fd[i].Some? {
        ClearMeaning(open, i, p);
      }
    }
  }

  /** The close-on-exec words below `j` are gone, the others as they were. */
  ghost predicate WordsTaken(now: seq<Word>, was: seq<Word>, j: nat)
  {
    |now| == |was| && forall q :: 0 <= q < |now| ==> now[q] == if q < j then 0 else was[q]
  }

  ghost predicate ClaimedBefore(b: Before)
  {
    && (forall p :: 0 <= p < |b.slots| && b.slots[p].Some? ==> IsSet(b.open, p))
    && (forall p: nat :: IsSet(b.open, p) ==> p < |b.slots|)
  }

  /** The state of the flush when everything below descriptor `i` is done and words below `j` have been taken. */
  ghost predicate Flushing(t: FdTable, k: FileCounts, others: File -> int, b: Before, i: nat, j: nat)
    reads t.fd, t.open, t.closeOnExec, k
  {
    && t.Shape() && ClaimedBefore(b) && Flushed(t.fd[..], t.open[..], b, i)
    && WordsTaken(t.closeOnExec[..], b.closeOnExec, j) && |b.open| == |b.closeOnExec| && Others(k, t.fd[..], others)
  }

  /** One bit of a word that has been taken. */
  method FlushBit(t: FdTable, i: nat, on: bool, k: FileCounts, ghost others: File -> int, ghost b: Before, ghost j: nat)
    requires Flushing(t, k, others, b, i, j) && (on <==> IsSet(b.closeOnExec, i)) && WordOf(i) < j <= |b.closeOnExec|
    modifies t.fd, t.open, t.closeOnExec, k
    ensures Flushing(t, k, others, b, i + 1, j)
  {
    ghost var fd, open, words := t.fd[..], t.open[..], t.closeOnExec[..];
    if on {
      FlushedClaimed(fd, open, b, i);
      SysClose(t, i, k, others);
      FlushedClose(fd, open, t.fd[..], t.open[..], b, i);
      TakenStays(words, t.closeOnExec[..], b.closeOnExec, i, j);
    } else {
      FlushedSkip(fd, open, b, i, i + 1);
    }
  }

  lemma TakenStays(words: seq<Word>, now: seq<Word>, was: seq<Word>, i: nat, j: nat)
    requires WordsTaken(words, was, j) && WordOf(i) < j <= |was| && (now == words || now == Clear(words, i))
    ensures WordsTaken(now, was, j)
  {}

  /** The inner loop: shifts the word out, closing where a bit comes by. */
  method FlushWord(t: FdTable, j: nat, word: Word, k: FileCounts, ghost others: File -> int, ghost b: Before)
    requires j < |b.closeOnExec| && b.closeOnExec[j] == word && Flushing(t, k, others, b, j * WORD_BITS, j + 1)
    modifies t.fd, t.open, t.closeOnExec, k
    ensures Flushing(t, k, others, b, (j + 1) * WORD_BITS, j + 1)
  {
    var i, bits := j * WORD_BITS, word;
    ghost var bit := 0;
    while bits != 0
      invariant bit <= Width(word) && i == j * WORD_BITS + bit && bits == Shift(word, bit)
      invariant Flushing(t, k, others, b, i, j + 1)
      decreases Width(word) - bit
    {
      ShiftWidth(word, bit);
      ShiftBit(word, bit, 0);
      PositionOf(j, bit);
      FlushBit(t, i, bits % 2 == 1, k, others, b, j + 1);
      i, bits := i + 1, HalfWord(bits);
      bit := bit + 1;
    }
    RestOfWord(b.closeOnExec, j, bit);
    FlushedSkip(t.fd[..], t.open[..], b, i, (j + 1) * WORD_BITS);
  }

  function HalfWord(w: Word): (r: Word)
  {
    WidthMonotone(w / 2, w);
    w / 2
  }

  /** No bits are left above where the word has been shifted out. */
  lemma RestOfWord(words: seq<Word>, j: nat, bit: nat)
    requires j < |words| && Shift(words[j], bit) == 0 && bit <= WORD_BITS
    ensures j * WORD_BITS + bit <= (j + 1) * WORD_BITS
    ensures forall p: nat :: j * WORD_BITS + bit <= p < (j + 1) * WORD_BITS ==> !IsSet(words, p)
  {
    forall p: nat | j * WORD_BITS + bit <= p < (j + 1) * WORD_BITS ensures !IsSet(words, p) {
      PositionOf(j, p - j * WORD_BITS);
      ShiftedOut(words[j], bit, p - j * WORD_BITS);
    }
  }

  /** `flush_old_files` */
  method FlushOldFiles(t: FdTable, k: FileCounts, ghost others: File -> int) returns (ghost n: nat)
    requires t.Shape() && t.Claimed() && Others(k, t.fd[..], others)
    modifies t.fd, t.open, t.closeOnExec, k
    ensures Flushing(t, k, others, old(Before(t.fd[..], t.open[..], t.closeOnExec[..])), t.fd.Length, n)
    ensures forall i :: 0 <= i < t.fd.Length ==> t.fd[i] == if IsSet(old(t.closeOnExec[..]), i) then None else old(t.fd[i])
    ensures forall i: nat :: i < t.fd.Length ==> !IsSet(t.closeOnExec[..], i)
  {
    ghost var b := Before(t.fd[..], t.open[..], t.closeOnExec[..]);
    var j := 0;
    while j * WORD_BITS < t.fd.Length && j < t.closeOnExec.Length
      invariant j <= t.words && j <= t.closeOnExec.Length && Flushing(t, k, others, b, j * WORD_BITS, j)
      decreases t.closeOnExec.Length - j
    {
      WordsBelow(j, t.words);
      FlushNext(t, j, k, others, b);
      j := j + 1;
    }
    n := j;
    WordsBelow(n, t.words);
    FlushedAll(t.fd[..], t.open[..], t.closeOnExec[..], b, n, t.words);
    FlushedSlots(t.fd[..], t.open[..], b);
  }

  lemma WordsBelow(j: nat, words: nat)
    ensures j * WORD_BITS < words * WORD_BITS <==> j < words
  {
    BelowMultiple(j * WORD_BITS, j, 0, words, WORD_BITS);
  }

  /** Takes one word and flushes its descriptors. */
  method FlushNext(t: FdTable, j: nat, k: FileCounts, ghost others: File -> int, ghost b: Before)
    requires j < t.closeOnExec.Length && Flushing(t, k, others, b, j * WORD_BITS, j)
    modifies t.fd, t.open, t.closeOnExec, k
    ensures Flushing(t, k, others, b, (j + 1) * WORD_BITS, j + 1)
  {
    var word := t.closeOnExec[j];
    assert t.closeOnExec[..][j] == word;
    t.closeOnExec[j] := 0;
    FlushWord(t, j, word, k, others, b);
  }

  lemma FlushedSlots(fd: Slots, open: seq<Word>, b: Before)
    requires Flushed(fd, open, b, |fd|)
    ensures forall i :: 0 <= i < |fd| ==> fd[i] == if IsSet(b.closeOnExec, i) then None else b.slots[i]
  {
    forall i | 0 <= i < |fd| ensures fd[i] == if IsSet(b.closeOnExec, i) then None else b.slots[i] {
      assert FlushedAt(fd, open, b, |fd|, i);
    }
  }

  /** When the loop has run out of slots or of words, every descriptor has been flushed. */
  lemma FlushedAll(fd: Slots, open: seq<Word>, words: seq<Word>, b: Before, n: nat, size: nat)
    requires Flushed(fd, open, b, n * WORD_BITS) && WordsTaken(words, b.closeOnExec, n) && |fd| == size * WORD_BITS
    requires n <= size && n <= |words| && (n == size || n == |words|)
    ensures Flushed(fd, open, b, |fd|)
    ensures forall i: nat :: i < |fd| ==> !IsSet(words, i)
  {
    forall p: nat ensures FlushedAt(fd, open, b, |fd|, p) {
      assert FlushedAt(fd, open, b, n * WORD_BITS, p);
      PositionInside(p, n);
      PositionInside(p, size);
    }
    forall i: nat | i < |fd| ensures !IsSet(words, i) {
      PositionInside(i, n);
      PositionInside(i, size);
      if IsSet(words, i) {
        SetWord(words, i);
      }
    }
  }

  // ---------------------------------------------------------------- exec

  class Task {
    var files: Files

    constructor (files: Files)
      ensures this.files == files
    {
      this.files := files;
    }
  }

  /** What `copy_files` and its allocations are handed. */
  datatype Chance = Chance(memory: bool, expands: bool, extra: nat, later: FdTable)
  {
    /** The copy succeeds. */
    ghost predicate Copies(f: Files)
      reads f, f.table.open
    {
      memory && (expands || f.table.OneWord())
    }

    /** The table that is copied: the lock was given up to expand the new one, or it was not. */
    ghost function From(f: Files): FdTable
      reads f, f.table.open
    {
      if f.table.OneWord() then f.table else later
    }
  }

  ghost predicate Ready(f: Files, c: Chance)
    reads f, f.table.fd, f.table.open, c.later.fd, c.later.open
  {
    && f.table.Shape() && f.table.Claimed() && f.count >= 1 && c.later.Shape() && c.later.Claimed()
    && f.table.words <= c.later.words && f.table.open.Length <= c.later.open.Length
  }

  /** `unshare_files`: one user more if there is but one, a copy of its own otherwise. */
  method UnshareFiles(t: Task, c: Chance, k: FileCounts, ghost before: File -> int)
    returns (err: int, ghost cur: FdTable, ghost n: nat)
    requires Ready(t.files, c) && forall x: File :: k.Of(x) == before(x)
    modifies t, t.files`count, k
    ensures err != 0 ==> t.files == old(t.files) && t.files.count == old(t.files.count) && old(t.files.count) != 1
    ensures err == 0 <==> old(t.files.count) == 1 || old(c.Copies(t.files))
    ensures err != 0 || old(t.files.count) == 1 ==> forall x: File :: k.Of(x) == before(x)
    ensures err == 0 && old(t.files.count) == 1 ==> t.files == old(t.files) && t.files.count == 2
    ensures err == 0 && old(t.files.count) > 1 ==>
      && fresh(t.files) && t.files.count == 1 && old(t.files).count == old(t.files.count)
      && fresh(t.files.table.fd) && fresh(t.files.table.open) && fresh(t.files.table.closeOnExec)
      && t.files.table.Shape() && cur == old(c.From(t.files)) && n == old(t.files.table.Counted())
      && n <= cur.fd.Length && n <= t.files.table.fd.Length && CopyOf(cur, t.files.table, n)
      && Counted(k, before, cur.fd[..], n)
    ensures err == 0 && old(t.files.count) > 1 ==>
      AllBelow(old(t.files.table.fd[..]), n)
  {
    err, cur, n := 0, t.files.table, 0;
    if t.files.count == 1 {
      t.files.count := t.files.count + 1;
    } else {
      var g;
      err, g, cur, n := CopyFiles(t.files, false, c.memory, c.expands, c.extra, c.later, k, before);
      t.files := g;
    }
  }

  /** Closing a copy takes back exactly the references it made. */
  lemma CopyClosed(k: FileCounts, before: File -> int, mid: File -> int, from: Slots, to: Slots, n: nat)
    requires n <= |from| && n <= |to| && (forall i :: 0 <= i < |to| ==> to[i] == if i < n then from[i] else None)
    requires (forall x: File :: mid(x) == before(x) + Uses(from[..n], x)) && Dropped(k, mid, to, |to|)
    ensures forall x: File :: k.Of(x) == before(x)
  {
    forall x: File ensures k.Of(x) == before(x) {
      CopyUses(from, to, n, x);
      assert to[..|to|] == to;
    }
  }

  /** The failure path of `flush_old_exec`: the task gets its old files back as they were. */
  method RestoreFiles(t: Task, files: Files, k: FileCounts, ghost before: File -> int, ghost cur: FdTable, ghost n: nat)
    requires t.files.table.Claimed()
    requires t.files == files ==> files.count == 2 && forall x: File :: k.Of(x) == before(x)
    requires t.files != files ==>
      && t.files.count == 1 && n <= cur.fd.Length && n <= t.files.table.fd.Length && t.files.table.fd != files.table.fd
      && CopyOf(cur, t.files.table, n) && Counted(k, before, cur.fd[..], n)
    modifies t, t.files`count, t.files.table.fd, k
    ensures t.files == files && files.table.fd[..] == old(files.table.fd[..])
    ensures old(t.files) == files ==> files.count == 1
    ensures forall x: File :: k.Of(x) == before(x)
  {
    if t.files == files {
      PutFiles(t.files, k, before);
    } else {
      ghost var from, to := cur.fd[..], t.files.table.fd[..];
      ghost var mid := CopiedCounts(before, from, n);
      PutFiles(t.files, k, mid);
      CopyClosed(k, before, mid, from, to, n);
    }
    t.files := files;
  }

  /** What the flush finds in a copy of the first `n` descriptors of `cur`. */
  ghost predicate CopyFound(b: Before, cur: FdTable, n: nat)
    reads cur.fd, cur.closeOnExec
  {
    && n <= cur.fd.Length && n <= |b.slots|
    && (forall i :: 0 <= i < |b.slots| ==> b.slots[i] == if i < n then cur.fd[i] else None)
    && (forall i: nat :: IsSet(b.open, i) <==> i < |b.slots| && b.slots[i].Some?)
    && (forall i: nat :: IsSet(b.closeOnExec, i) <==> i < n && IsSet(cur.closeOnExec[..], i))
  }

  /** The table after the flush: files with the bit are gone with their claims, and no such bit is left. */
  ghost predicate FlushDone(t: FdTable, b: Before)
    reads t.fd, t.open, t.closeOnExec
  {
    && Flushed(t.fd[..], t.open[..], b, t.fd.Length)
    && (forall i :: 0 <= i < |b.slots| ==> t.fd[..][i] == if IsSet(b.closeOnExec, i) then None else b.slots[i])
    && (forall i: nat :: i < t.fd.Length ==> !IsSet(t.closeOnExec[..], i))
  }

  /** The flush, as the references of the other tables see it. */
  method FlushPrivate(t: FdTable, k: FileCounts, ghost others: File -> int)
    requires t.Shape() && t.Claimed() && Others(k, t.fd[..], others)
    modifies t.fd, t.open, t.closeOnExec, k
    ensures FlushDone(t, old(Before(t.fd[..], t.open[..], t.closeOnExec[..]))) && Others(k, t.fd[..], others)
  {
    ghost var n := FlushOldFiles(t, k, others);
  }

  ghost function Contents(t: FdTable): Before
    reads t.fd, t.open, t.closeOnExec
  {
    Before(t.fd[..], t.open[..], t.closeOnExec[..])
  }

  /** The success path of `flush_old_exec`: `files` loses a user, and `mine` is flushed. */
  method CommitFiles(mine: Files, files: Files, k: FileCounts, ghost before: File -> int, ghost cur: FdTable, ghost n: nat)
    requires mine.table.Shape() && mine.table.Claimed() && files.count > 1 && files.table.Claimed()
    requires mine == files ==> forall x: File :: k.Of(x) == before(x)
    requires mine != files ==>
      && Apart(mine.table, files.table) && n <= cur.fd.Length && n <= mine.table.fd.Length
      && CopyOf(cur, mine.table, n) && Counted(k, before, cur.fd[..], n)
    modifies files`count, k, files.table.fd, mine.table.fd, mine.table.open, mine.table.closeOnExec
    ensures files.count == old(files.count) - 1 && FlushDone(mine.table, old(Contents(mine.table)))
    ensures mine != files ==> Contents(files.table) == old(Contents(files.table))
    ensures Others(k, mine.table.fd[..], OtherCounts(before, if mine == files then old(files.table.fd[..]) else []))
  {
    ghost var base: File -> int := if mine == files then before else CopiedCounts(before, cur.fd[..], n);
    ghost var slots := mine.table.fd[..];
    ghost var others := OtherCounts(before, if mine == files then slots else []);
    if mine != files {
      PrivateCounts(before, base, others, cur.fd[..], slots, n);
    }
    PutFiles(files, k, base);
    FlushPrivate(mine.table, k, others);
  }

  /** What `flush_old_exec` does once `exec_mmap` has returned `mmap`. */
  method Conclude(t: Task, files: Files, mmap: int, k: FileCounts, ghost before: File -> int, ghost cur: FdTable, ghost n: nat)
    requires t.files.table.Shape() && t.files.table.Claimed() && files.table.Claimed() && files.count > 1
    requires t.files == files ==> files.count == 2 && forall x: File :: k.Of(x) == before(x)
    requires t.files != files ==>
      && t.files.count == 1 && Apart(t.files.table, files.table) && n <= cur.fd.Length && n <= t.files.table.fd.Length
      && CopyOf(cur, t.files.table, n) && Counted(k, before, cur.fd[..], n)
    modifies t, t.files`count, files`count, k, files.table.fd, t.files.table.fd, t.files.table.open, t.files.table.closeOnExec
    ensures mmap != 0 ==> t.files == files && forall x: File :: k.Of(x) == before(x)
    ensures mmap == 0 ==> t.files == old(t.files) && FlushDone(t.files.table, old(Contents(t.files.table)))
    ensures mmap == 0 ==> Others(k, t.files.table.fd[..], OtherCounts(before, if t.files == files then old(files.table.fd[..]) else []))
    ensures old(t.files) == files ==> files.count == 1
    ensures old(t.files) != files ==> files.count == old(files.count) - (if mmap == 0 then 1 else 0) && (mmap == 0 ==> t.files.count == 1)
    ensures mmap != 0 || t.files != files ==> Contents(files.table) == old(Contents(files.table))
  {
    if mmap != 0 {
      RestoreFiles(t, files, k, before, cur, n);
    } else {
      CommitFiles(t.files, files, k, before, cur, n);
    }
  }

  /**
    The file part of `flush_old_exec`; `mmap` is what `exec_mmap` returns. The flush finds `b`: the table
    itself if the task had it alone, else a copy of everything installed, and then the old table stays.
   */
  method ExecFiles(t: Task, c: Chance, mmap: int, k: FileCounts, ghost before: File -> int)
    returns (err: int, ghost b: Before)
    requires Ready(t.files, c) && forall x: File :: k.Of(x) == before(x)
    modifies t, t.files`count, k, t.files.table.fd, t.files.table.open, t.files.table.closeOnExec
    ensures err == 0 <==> mmap == 0 && (old(t.files.count) == 1 || old(c.Copies(t.files)))
    ensures err != 0 ==> t.files == old(t.files) && t.files.count == old(t.files.count)
    ensures err != 0 || old(t.files.count) > 1 ==> Contents(old(t.files.table)) == old(Contents(t.files.table))
    ensures err != 0 ==> forall x: File :: k.Of(x) == before(x)
    ensures err == 0 ==> t.files.count == 1 && FlushDone(t.files.table, b)
    ensures err == 0 && old(t.files.count) == 1 ==> t.files == old(t.files) && b == old(Contents(t.files.table))
    ensures err == 0 && old(t.files.count) > 1 ==>
      && fresh(t.files) && old(t.files).count == old(t.files.count) - 1
      && fresh(t.files.table.fd) && fresh(t.files.table.open) && fresh(t.files.table.closeOnExec)
      && CopyFound(b, old(c.From(t.files)), old(t.files.table.Counted()))
      && AllBelow(old(t.files.table.fd[..]), old(t.files.table.Counted()))
    ensures err == 0 ==> Others(k, t.files.table.fd[..], OtherCounts(before, if old(t.files.count) == 1 then old(t.files.table.fd[..]) else []))
  {
    var files := t.files;
    b := Before([], [], []);
    ghost var cur, n;
    err, cur, n := UnshareFiles(t, c, k, before);
    if err == 0 {
      if t.files != files {
        CopyClaimed(cur, t.files.table, n);
      }
      b := Contents(t.files.table);
      assert t.files != files ==> CopyFound(b, cur, n);
      Conclude(t, files, mmap, k, before, cur, n);
      err := mmap;
    }
  }

  /** The references beside those of a copy are the ones there were before it. */
  lemma PrivateCounts(before: File -> int, base: File -> int, others: File -> int, from: Slots, to: Slots, n: nat)
    requires n <= |from| && n <= |to| && (forall i :: 0 <= i < |to| ==> to[i] == if i < n then from[i] else None)
    requires forall x: File :: base(x) == before(x) + Uses(from[..n], x)
    requires forall x: File :: others(x) == before(x)
    ensures forall x: File :: base(x) == others(x) + Uses(to, x)
  {
    forall x: File ensures base(x) == others(x) + Uses(to, x) {
      CopyUses(from, to, n, x);
    }
  }

  ghost function CopiedCounts(before: File -> int, slots: Slots, n: nat): (r: File -> int)
    requires n <= |slots|
    ensures forall x: File :: r(x) == before(x) + Uses(slots[..n], x)
  {
    (x: File) => before(x) + Uses(slots[..n], x)
  }

  ghost function OtherCounts(base: File -> int, slots: Slots): (r: File -> int)
    ensures forall x: File :: r(x) == base(x) - Uses(slots, x)
  {
    (x: File) => base(x) - Uses(slots, x)
  }
}
