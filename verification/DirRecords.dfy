/** `getdents` and `getdents64`: directory records packed into a user buffer and parsed back. */
module DirRecords {
  import opened Words
  import opened Memory
  import opened Options

  /**
    `word` is the width of inode and offset and the alignment of records, `name` where the name
    starts; the type is the last byte of a record or the one before the name.
   */
  datatype Layout = Layout(word: nat, name: nat, typeLast: bool)

  /** `struct linux_dirent` with words of `w` bytes. */
  function OldLayout(w: nat): Layout
  {
    Layout(w, 2 * w + 2, true)
  }

  /** `struct linux_dirent64` */
  const LAYOUT64 := Layout(8, 19, false)

  predicate GoodLayout(l: Layout)
  {
    l == LAYOUT64 || l == OldLayout(4) || l == OldLayout(8)
  }

  datatype Entry = Entry(name: seq<byte>, ino: nat, kind: byte)

  /** What a file system can hand out: names without NUL, inode numbers that fit. */
  predicate GoodEntry(e: Entry, l: Layout)
  {
    0 !in e.name && e.ino < WordValues(l.word) && RecLen(e.name, l) < WordValues(2)
  }

  /** `ROUND_UP(NAME_OFFSET(dirent) + namlen + 2)`, or `+ 1` where the type has a place of its own. */
  function RecLen(name: seq<byte>, l: Layout): (n: nat)
    ensures n >= l.name + |name| + (if l.typeLast then 2 else 1)
  {
    var need := l.name + |name| + (if l.typeLast then 2 else 1);
    if l.word == 0 then need else AlignUp(need, l.word)
  }

  // ---------------------------------------------------------------- bytes in place

  ghost predicate ByteThere(mem: Space, a: nat, s: seq<byte>, k: nat)
  {
    a <= k < a + |s| ==> k in mem && mem[k] == s[k - a]
  }

  /** `Has`, looked into one byte at a time. */
  ghost predicate There(mem: Space, a: nat, s: seq<byte>)
  {
    forall k: nat :: ByteThere(mem, a, s, k)
  }

  lemma ThereHas(mem: Space, a: nat, s: seq<byte>)
    requires There(mem, a, s)
    ensures Has(mem, a, s)
  {
    forall k | a <= k < a + |s| ensures k in mem && mem[k] == s[k - a] {
      assert ByteThere(mem, a, s, k);
    }
  }

  lemma StoreThere(mem: Space, a: nat, s: seq<byte>)
    ensures There(StoreBytes(mem, a, s), a, s)
  {
    var mem' := StoreBytes(mem, a, s);
    assert forall k: nat :: ByteThere(mem', a, s, k);
  }

  lemma ThereElsewhere(mem: Space, a: nat, s: seq<byte>, b: nat, t: seq<byte>)
    requires There(mem, b, t) && (b + |t| <= a || a + |s| <= b)
    ensures There(StoreBytes(mem, a, s), b, t)
  {
    var mem' := StoreBytes(mem, a, s);
    forall k: nat ensures ByteThere(mem', b, t, k) {
      assert ByteThere(mem, b, t, k);
    }
  }

  lemma ThereParts(mem: Space, a: nat, s: seq<byte>, t: seq<byte>)
    requires There(mem, a, s) && There(mem, a + |s|, t)
    ensures There(mem, a, s + t)
  {
    var b, st := a + |s|, s + t;
    forall k: nat ensures ByteThere(mem, a, st, k) {
      assert ByteThere(mem, a, s, k) && ByteThere(mem, b, t, k);
    }
  }

  ghost predicate SameAt(a: Space, b: Space, lo: nat, hi: nat, k: nat)
  {
    !(lo <= k < hi) ==> (k in a <==> k in b) && (k in a && k in b ==> b[k] == a[k])
  }

  /** Memory outside of `lo` to `hi` is the same. */
  ghost predicate SameOutside(a: Space, b: Space, lo: nat, hi: nat)
  {
    forall k: nat :: SameAt(a, b, lo, hi, k)
  }

  lemma StoreInside(mem: Space, a: nat, s: seq<byte>, lo: nat, hi: nat)
    requires lo <= a && a + |s| <= hi
    ensures SameOutside(mem, StoreBytes(mem, a, s), lo, hi)
  {
    var mem' := StoreBytes(mem, a, s);
    assert forall k: nat :: SameAt(mem, mem', lo, hi, k);
  }

  lemma SameSelf(a: Space, lo: nat, hi: nat)
    ensures SameOutside(a, a, lo, hi)
  {
    assert forall k: nat :: SameAt(a, a, lo, hi, k);
  }

  /** Two changes in a row, within the range that holds both. */
  lemma SameTwice(a: Space, b: Space, c: Space, lo: nat, hi: nat, lo': nat, hi': nat, from: nat, to: nat)
    requires SameOutside(a, b, lo, hi) && SameOutside(b, c, lo', hi')
    requires from <= lo && from <= lo' && hi <= to && hi' <= to
    ensures SameOutside(a, c, from, to)
  {
    forall k: nat ensures SameAt(a, c, from, to, k) {
      assert SameAt(a, b, lo, hi, k) && SameAt(b, c, lo', hi', k);
    }
  }

  lemma ThereBelow(a: Space, b: Space, lo: nat, hi: nat, at: nat, s: seq<byte>)
    requires SameOutside(a, b, lo, hi) && There(a, at, s) && at + |s| <= lo
    ensures There(b, at, s)
  {
    forall k: nat ensures ByteThere(b, at, s, k) {
      assert ByteThere(a, at, s, k) && SameAt(a, b, lo, hi, k);
    }
  }

  // ---------------------------------------------------------------- records

  /** A record: the entry, its length and, once it is known, the offset of the next one. */
  datatype Record = Record(entry: Entry, len: nat, off: Option<nat>)

  /** The parts of a record fit into it one behind the other. */
  predicate Shaped(r: Record, l: Layout)
  {
    && 2 * l.word + 2 <= l.name && l.name + |r.entry.name| + 1 <= r.len
    && (if l.typeLast then l.name + |r.entry.name| + 2 <= r.len else 2 * l.word + 3 <= l.name)
  }

  function TypeAt(r: Record, l: Layout): nat
    requires Shaped(r, l)
  {
    if l.typeLast then r.len - 1 else l.name - 1
  }

  function NewRecord(e: Entry, l: Layout): (r: Record)
    requires GoodLayout(l)
    ensures Shaped(r, l)
  {
    Record(e, RecLen(e.name, l), None)
  }

  /** Where in a record which bytes are; padding is left alone. */
  function Parts(r: Record, l: Layout): seq<(nat, seq<byte>)>
    requires Shaped(r, l)
  {
    [(0, Encode(r.entry.ino, l.word)), (2 * l.word, Encode(r.len, 2)), (l.name, r.entry.name + [0]), (TypeAt(r, l), [r.entry.kind])]
    + if r.off.Some? then [(l.word, Encode(r.off.value, l.word))] else []
  }

  ghost predicate PartsAt(mem: Space, at: nat, parts: seq<(nat, seq<byte>)>)
  {
    forall i :: PartAt(mem, at, parts, i)
  }

  ghost predicate PartAt(mem: Space, at: nat, parts: seq<(nat, seq<byte>)>, i: int)
  {
    0 <= i < |parts| ==> There(mem, at + parts[i].0, parts[i].1)
  }

  ghost predicate RecordAt(mem: Space, at: nat, r: Record, l: Layout)
  {
    Shaped(r, l) && PartsAt(mem, at, Parts(r, l))
  }

  /** Records one behind the other from `at` to `end`. */
  ghost predicate Packed(mem: Space, at: nat, rs: seq<Record>, end: nat, l: Layout)
    decreases |rs|
  {
    if rs == [] then at == end
    else RecordAt(mem, at, rs[0], l) && Packed(mem, at + rs[0].len, rs[1..], end, l)
  }

  lemma {:induction false} PackedAppend(mem: Space, at: nat, rs: seq<Record>, mid: nat, r: Record, l: Layout)
    requires Packed(mem, at, rs, mid, l) && RecordAt(mem, mid, r, l)
    ensures Packed(mem, at, rs + [r], mid + r.len, l)
    decreases |rs|
  {
    if rs == [] {
      assert rs + [r] == [r] && [r][1..] == [];
    } else {
      assert (rs + [r])[1..] == rs[1..] + [r];
      PackedAppend(mem, at + rs[0].len, rs[1..], mid, r, l);
    }
  }

  lemma RecordFrame(a: Space, b: Space, at: nat, r: Record, end: nat, hi: nat, l: Layout)
    requires RecordAt(a, at, r, l) && at + r.len <= end && SameOutside(a, b, end, hi)
    ensures RecordAt(b, at, r, l)
  {
    PartsInside(r, l);
    var parts := Parts(r, l);
    forall i ensures PartAt(b, at, parts, i) {
      assert PartAt(a, at, parts, i);
      if 0 <= i < |parts| {
        ThereBelow(a, b, end, hi, at + parts[i].0, parts[i].1);
      }
    }
  }

  lemma PartsInside(r: Record, l: Layout)
    requires Shaped(r, l)
    ensures forall i :: 0 <= i < |Parts(r, l)| ==> Parts(r, l)[i].0 + |Parts(r, l)[i].1| <= r.len
  {}

  /** Memory below `end` is all that matters. */
  lemma {:induction false} PackedFrame(a: Space, b: Space, at: nat, rs: seq<Record>, end: nat, hi: nat, l: Layout)
    requires Packed(a, at, rs, end, l) && SameOutside(a, b, end, hi)
    ensures Packed(b, at, rs, end, l) && at <= end
    decreases |rs|
  {
    if rs != [] {
      PackedFrame(a, b, at + rs[0].len, rs[1..], end, hi, l);
      RecordFrame(a, b, at, rs[0], end, hi, l);
    }
  }

  lemma {:induction false} PackedUp(mem: Space, at: nat, rs: seq<Record>, end: nat, l: Layout)
    requires Packed(mem, at, rs, end, l)
    ensures at <= end && (rs != [] ==> at < end)
    decreases |rs|
  {
    if rs != [] {
      PackedUp(mem, at + rs[0].len, rs[1..], end, l);
    }
  }

  /** Storing the next offset changes the last record only. */
  lemma OffsetStored(mem: Space, at: nat, r: Record, off: nat, l: Layout)
    requires RecordAt(mem, at, r, l)
    ensures var mem' := StoreBytes(mem, at + l.word, Encode(off, l.word));
            RecordAt(mem', at, r.(off := Some(off)), l) && SameOutside(mem, mem', at, at + r.len)
  {
    FirstParts(mem, at, r, l);
    OffsetPart(r, off, l);
    PartsStored(mem, at, Parts(r.(off := None), l), l.word, Encode(off, l.word));
    StoreInside(mem, at + l.word, Encode(off, l.word), at, at + r.len);
  }

  lemma FirstParts(mem: Space, at: nat, r: Record, l: Layout)
    requires RecordAt(mem, at, r, l)
    ensures PartsAt(mem, at, Parts(r.(off := None), l))
  {
    var parts, first := Parts(r, l), Parts(r.(off := None), l);
    forall i ensures PartAt(mem, at, first, i) {
      assert PartAt(mem, at, parts, i);
    }
  }

  /** The offset is a part of its own between inode and length. */
  lemma OffsetPart(r: Record, off: nat, l: Layout)
    requires Shaped(r, l)
    ensures var parts, s := Parts(r.(off := None), l), Encode(off, l.word);
            && Parts(r.(off := Some(off)), l) == parts + [(l.word, s)]
            && (forall i :: 0 <= i < |parts| ==> parts[i].0 + |parts[i].1| <= l.word || l.word + |s| <= parts[i].0)
  {}

  /** One more part, apart from the others. */
  lemma PartsStored(mem: Space, at: nat, parts: seq<(nat, seq<byte>)>, a: nat, s: seq<byte>)
    requires PartsAt(mem, at, parts)
    requires forall i :: 0 <= i < |parts| ==> parts[i].0 + |parts[i].1| <= a || a + |s| <= parts[i].0
    ensures PartsAt(StoreBytes(mem, at + a, s), at, parts + [(a, s)])
  {
    var mem', parts' := StoreBytes(mem, at + a, s), parts + [(a, s)];
    StoreThere(mem, at + a, s);
    forall i ensures PartAt(mem', at, parts', i) {
      assert PartAt(mem, at, parts, i);
      if 0 <= i < |parts| {
        ThereElsewhere(mem, at + a, s, at + parts[i].0, parts[i].1);
      }
    }
  }

  /** What the buffer holds: nothing, or `last` from `prev` to `end` behind the records `init`. */
  ghost predicate Filled(mem: Space, start: nat, init: seq<Record>, last: Option<Record>, prev: Option<nat>, end: nat, l: Layout)
  {
    if last.None? then init == [] && prev.None? && start == end
    else
      && prev.Some? && Packed(mem, start, init, prev.value, l)
      && RecordAt(mem, prev.value, last.value, l) && prev.value + last.value.len == end
  }

  ghost function All(init: seq<Record>, last: Option<Record>): seq<Record>
  {
    if last.None? then [] else init + [last.value]
  }

  lemma FilledPacked(mem: Space, start: nat, init: seq<Record>, last: Option<Record>, prev: Option<nat>, end: nat, l: Layout)
    requires Filled(mem, start, init, last, prev, end, l)
    ensures Packed(mem, start, All(init, last), end, l)
  {
    if last.Some? {
      PackedAppend(mem, start, init, prev.value, last.value, l);
    }
  }

  lemma Appended(before: Space, mem: Space, start: nat, rs: seq<Record>, end: nat, r: Record, l: Layout)
    requires Packed(before, start, rs, end, l) && RecordAt(mem, end, r, l) && SameOutside(before, mem, end, end + r.len)
    ensures Filled(mem, start, rs, Some(r), Some(end), end + r.len, l)
  {
    PackedFrame(before, mem, start, rs, end, end + r.len, l);
  }

  // ---------------------------------------------------------------- filling the buffer

  const EINVAL := 22
  const EFAULT := 14

  /** `struct getdents_callback`, with the records written so far. */
  class Filler {
    var mem: Space
    var current: nat
    var previous: Option<nat>
    var count: nat
    var error: int
    const start: nat
    const size: nat
    const l: Layout
    ghost const given: Space
    ghost var init: seq<Record>
    ghost var last: Option<Record>

    /** The records lie from `start` to `current`, and nothing outside of that has changed. */
    ghost predicate Valid()
      reads this
    {
      && GoodLayout(l) && current + count == start + size && Filled(mem, start, init, last, previous, current, l)
      && SameOutside(given, mem, start, current)
    }

    constructor (mem: Space, start: nat, size: nat, l: Layout)
      requires GoodLayout(l)
      ensures Valid() && last.None? && error == 0 && this.start == start && this.size == size && this.l == l && given == mem
      ensures count == size
    {
      SameSelf(mem, start, start);
      this.mem, given, current, previous, count, error := mem, mem, start, None, size, 0;
      this.start, this.size, this.l := start, size, l;
      init, last := [], None;
    }

    /** Nothing outside of the buffer has changed. */
    lemma StaysInside()
      requires Valid()
      ensures SameOutside(given, mem, start, start + size)
    {
      SameSelf(mem, start, current);
      SameTwice(given, mem, mem, start, current, start, current, start, start + size);
    }

    /** One store between `lo` and `hi`, which leaves alone what lies outside and what lies apart from it. */
    method Put(a: nat, s: seq<byte>, ghost lo: nat, ghost hi: nat, ghost before: Space)
      requires lo <= a && a + |s| <= hi && SameOutside(before, mem, lo, hi)
      modifies `mem
      ensures There(mem, a, s) && SameOutside(before, mem, lo, hi)
      ensures forall b: nat, t: seq<byte> :: There(old(mem), b, t) && (b + |t| <= a || a + |s| <= b) ==> There(mem, b, t)
    {
      ghost var m := mem;
      StoreThere(mem, a, s);
      StoreInside(mem, a, s, lo, hi);
      SameTwice(before, mem, StoreBytes(mem, a, s), lo, hi, lo, hi, lo, hi);
      mem := StoreBytes(mem, a, s);
      forall b: nat, t: seq<byte> | There(m, b, t) && (b + |t| <= a || a + |s| <= b) ensures There(mem, b, t) {
        ThereElsewhere(m, a, s, b, t);
      }
    }

    /** Inode and length of a record. */
    method StoreHeader(at: nat, ino: seq<byte>, len: seq<byte>, ghost hi: nat, ghost before: Space)
      requires |ino| == l.word && |len| == 2 && at + 2 * l.word + 2 <= hi && SameOutside(before, mem, at, hi)
      modifies `mem
      ensures There(mem, at, ino) && There(mem, at + 2 * l.word, len) && SameOutside(before, mem, at, hi)
    {
      Put(at, ino, at, hi, before);
      if !l.typeLast {
        Put(at + l.word, Encode(0, l.word), at, hi, before);
      }
      Put(at + 2 * l.word, len, at, hi, before);
    }

    /** The name and its NUL, behind inode and length. */
    method StoreName(at: nat, name: seq<byte>, ghost ino: seq<byte>, ghost len: seq<byte>, ghost hi: nat, ghost before: Space)
      requires 2 * l.word + 2 <= l.name && |ino| == l.word && |len| == 2
      requires at + l.name + |name| + 1 <= hi && SameOutside(before, mem, at, hi)
      requires There(mem, at, ino) && There(mem, at + 2 * l.word, len)
      modifies `mem
      ensures There(mem, at, ino) && There(mem, at + 2 * l.word, len) && There(mem, at + l.name, name + [0])
      ensures SameOutside(before, mem, at, hi)
    {
      var a, b := at + l.name, at + l.name + |name|;
      Put(a, name, at, hi, before);
      Put(b, [0], at, hi, before);
      ThereParts(mem, a, name, [0]);
    }

    /** All stores of one record. */
    method StoreRecord(at: nat, r: Record)
      requires Shaped(r, l) && r.off.None?
      modifies `mem
      ensures RecordAt(mem, at, r, l) && SameOutside(old(mem), mem, at, at + r.len)
    {
      ghost var before, hi := mem, at + r.len;
      SameSelf(mem, at, hi);
      var ino, len, kind := Encode(r.entry.ino, l.word), Encode(r.len, 2), [r.entry.kind];
      StoreHeader(at, ino, len, hi, before);
      StoreName(at, r.entry.name, ino, len, hi, before);
      Put(at + TypeAt(r, l), kind, at, hi, before);
      assert Parts(r, l) == [(0, ino), (2 * l.word, len), (l.name, r.entry.name + [0]), (TypeAt(r, l), kind)];
    }

    /** The offset of a record that is in place. */
    method StoreOffset(at: nat, offset: nat, ghost r: Record)
      requires RecordAt(mem, at, r, l)
      modifies `mem
      ensures RecordAt(mem, at, r.(off := Some(offset)), l) && SameOutside(old(mem), mem, at, at + r.len)
    {
      OffsetStored(mem, at, r, offset, l);
      mem := StoreBytes(mem, at + l.word, Encode(offset, l.word));
    }

    /** The offset of the next entry goes into the record before. */
    method Link(offset: nat)
      requires Valid() && previous.Some?
      modifies `mem, `last
      ensures Valid() && old(last).Some? && last == Some(old(last).value.(off := Some(offset)))
    {
      ghost var before, r, prev := mem, last.value, previous.value;
      StoreOffset(previous.value, offset, r);
      PackedFrame(before, mem, start, init, prev, current, l);
      SameTwice(given, before, mem, start, current, prev, current, start, current);
      last := Some(r.(off := Some(offset)));
    }

    /** Writes the record at the end. */
    method Append(r: Record)
      requires Valid() && Shaped(r, l) && r.off.None? && r.len <= count
      modifies `mem, `init, `last, `previous, `current, `count
      ensures Valid() && init == All(old(init), old(last)) && last == Some(r) && count == old(count) - r.len
    {
      ghost var before, rs := mem, All(init, last);
      var end, n := current, r.len;
      FilledPacked(mem, start, init, last, previous, current, l);
      StoreRecord(end, r);
      Appended(before, mem, start, rs, end, r, l);
      PackedUp(before, start, rs, end, l);
      SameTwice(given, before, mem, start, end, end, end + n, start, end + n);
      previous, current, count := Some(end), end + n, count - n;
      init, last := rs, Some(r);
    }

    /** `filldir` and `filldir64`; `fault` says that a store fails. */
    method Filldir(e: Entry, offset: nat, fault: bool) returns (r: int)
      requires Valid()
      modifies `mem, `init, `last, `previous, `current, `count, `error
      ensures Valid() && error < 0
      ensures r == 0 <==> RecLen(e.name, l) <= old(count) && !fault
      ensures r == 0 ==> last == Some(NewRecord(e, l)) && count == old(count) - RecLen(e.name, l)
      ensures r == 0 ==> init == if old(last).None? then [] else old(init) + [old(last).value.(off := Some(offset))]
      ensures r != 0 ==> init == old(init) && last == old(last) && r == error
      ensures r != 0 ==> count == old(count) && error == if RecLen(e.name, l) > count then -EINVAL else -EFAULT
    {
      error := -EINVAL;
      var rec := NewRecord(e, l);
      if rec.len > count {
        r := -EINVAL;
      } else if fault {
        error := -EFAULT;
        r := -EFAULT;
      } else {
        if previous.Some? {
          Link(offset);
        }
        Append(rec);
        r := 0;
      }
    }
  }

  // ---------------------------------------------------------------- directories

  /** What a file system keeps: entries and, for each and for the end, the position that leads there. */
  datatype Dir = Dir(entries: seq<Entry>, cookies: seq<nat>)

  ghost predicate GoodDir(d: Dir, l: Layout)
  {
    && |d.cookies| == |d.entries| + 1
    && (forall i :: 0 <= i < |d.entries| ==> GoodEntry(d.entries[i], l))
    && (forall i :: 0 <= i < |d.cookies| ==> d.cookies[i] < WordValues(l.word))
    && (forall i, j :: 0 <= i < j < |d.cookies| ==> d.cookies[i] != d.cookies[j])
  }

  /** Entry `k` as it ends up in the buffer: with the position of the next entry. */
  function Listed(d: Dir, l: Layout, k: nat): Record
    requires k < |d.entries| && |d.cookies| == |d.entries| + 1 && GoodLayout(l)
  {
    NewRecord(d.entries[k], l).(off := Some(d.cookies[k + 1]))
  }

  /** The records of entries `i` to `j`. */
  ghost function Listing(d: Dir, l: Layout, i: nat, j: nat): (rs: seq<Record>)
    requires i <= j <= |d.entries| && |d.cookies| == |d.entries| + 1 && GoodLayout(l)
    ensures |rs| == j - i
    decreases j
  {
    if i == j then [] else Listing(d, l, i, j - 1) + [Listed(d, l, j - 1)]
  }

  lemma {:induction false} ListingAt(d: Dir, l: Layout, i: nat, j: nat, k: nat)
    requires i <= k < j <= |d.entries| && |d.cookies| == |d.entries| + 1 && GoodLayout(l)
    ensures Listing(d, l, i, j)[k - i] == Listed(d, l, k)
    decreases j
  {
    if k < j - 1 {
      ListingAt(d, l, i, j - 1, k);
    }
  }

  /** An open directory and its `f_pos`. */
  class OpenDir {
    const d: Dir
    var pos: nat

    constructor (d: Dir)
      requires d.cookies != []
      ensures this.d == d && pos == d.cookies[0]
    {
      this.d, pos := d, d.cookies[0];
    }
  }

  /** Where a file system resumes at position `pos`. */
  function IndexOf(cookies: seq<nat>, pos: nat): (i: nat)
    requires pos in cookies
    ensures i < |cookies| && cookies[i] == pos
  {
    if cookies[0] == pos then 0 else 1 + IndexOf(cookies[1..], pos)
  }

  /** What is in the buffer after entries `i` to `j`: the last one does not know its successor yet. */
  ghost predicate Holds(init: seq<Record>, last: Option<Record>, d: Dir, l: Layout, i: nat, j: nat)
    requires i <= j <= |d.entries| && |d.cookies| == |d.entries| + 1 && GoodLayout(l)
  {
    if i == j then last.None?
    else last == Some(NewRecord(d.entries[j - 1], l)) && init == Listing(d, l, i, j - 1)
  }

  /** One more record behind a last one that has learned its successor. */
  lemma HoldsNext(init: seq<Record>, last: Option<Record>, init': seq<Record>, last': Option<Record>, d: Dir, l: Layout, i: nat, j: nat)
    requires i <= j < |d.entries| && |d.cookies| == |d.entries| + 1 && GoodLayout(l) && Holds(init, last, d, l, i, j)
    requires last' == Some(NewRecord(d.entries[j], l))
    requires init' == if last.None? then [] else init + [last.value.(off := Some(d.cookies[j]))]
    ensures Holds(init', last', d, l, i, j + 1)
  {}

  /** The first entry from `i` on that does not fit any more or whose callback cannot store. */
  function StopAt(entries: seq<Entry>, l: Layout, i: nat, room: nat, faults: nat -> bool): (j: nat)
    requires i <= |entries|
    ensures i <= j <= |entries|
    decreases |entries| - i
  {
    if i == |entries| || RecLen(entries[i].name, l) > room || faults(i) then i
    else StopAt(entries, l, i + 1, room - RecLen(entries[i].name, l), faults)
  }

  /** Why an entry is not taken. */
  function Reason(e: Entry, l: Layout, room: nat): int
  {
    if RecLen(e.name, l) > room then -EINVAL else -EFAULT
  }

  /** One call of the callback; `stop` is where all of them come to. */
  method FillOne(d: Dir, ghost i: nat, j: nat, buf: Filler, faults: nat -> bool, ghost stop: nat) returns (more: bool, j': nat)
    requires |d.cookies| == |d.entries| + 1 && i <= j < |d.entries| && buf.Valid() && Holds(buf.init, buf.last, d, buf.l, i, j)
    requires StopAt(d.entries, buf.l, j, buf.count, faults) == stop
    modifies buf
    ensures buf.Valid() && j' == (if more then j + 1 else j) && Holds(buf.init, buf.last, d, buf.l, i, j')
    ensures if more then StopAt(d.entries, buf.l, j', buf.count, faults) == stop else j' == stop
    ensures !more ==> buf.count == old(buf.count) && buf.error == Reason(d.entries[j], buf.l, buf.count)
  {
    ghost var init, last := buf.init, buf.last;
    var r := buf.Filldir(d.entries[j], d.cookies[j], faults(j));
    more, j' := r == 0, if r == 0 then j + 1 else j;
    if more {
      HoldsNext(init, last, buf.init, buf.last, d, buf.l, i, j);
    }
  }

  /** The callback called entry by entry, as `readdir` of a file system does, until it refuses. */
  method FillFrom(d: Dir, i: nat, buf: Filler, faults: nat -> bool) returns (j: nat)
    requires |d.cookies| == |d.entries| + 1 && i <= |d.entries|
    requires buf.Valid() && buf.last.None? && buf.error == 0 && buf.count == buf.size
    modifies buf
    ensures buf.Valid() && j == StopAt(d.entries, buf.l, i, buf.size, faults) && Holds(buf.init, buf.last, d, buf.l, i, j)
    ensures j == i ==> buf.error == if i == |d.entries| then 0 else Reason(d.entries[i], buf.l, buf.size)
  {
    j := i;
    ghost var stop := StopAt(d.entries, buf.l, i, buf.size, faults);
    var more := true;
    while more && j < |d.entries|
      invariant buf.Valid() && i <= j <= |d.entries| && Holds(buf.init, buf.last, d, buf.l, i, j)
      invariant (j == i ==> buf.count == buf.size) && (!more ==> j < |d.entries|)
      invariant j == i ==> buf.error == if more then 0 else Reason(d.entries[i], buf.l, buf.size)
      invariant if more then StopAt(d.entries, buf.l, j, buf.count, faults) == stop else j == stop
      decreases more, |d.entries| - j
    {
      more, j := FillOne(d, i, j, buf, faults, stop);
    }
  }

  // ---------------------------------------------------------------- reading the buffer

  /** What a program finds in a record. */
  datatype Parsed = Parsed(entry: Entry, off: nat, len: nat)

  ghost function WordAt(mem: Space, a: nat, w: nat): nat
  {
    if Mapped(mem, a, w) then Decode(Fetch(mem, a, w)) else 0
  }

  ghost function NameAt(mem: Space, a: nat, limit: nat): seq<byte>
  {
    var n := UserLength(mem, a, limit);
    if n > 0 && Mapped(mem, a, n - 1) then Fetch(mem, a, n - 1) else []
  }

  ghost function ParseAt(mem: Space, at: nat, l: Layout): Parsed
  {
    var len := WordAt(mem, at + 2 * l.word, 2);
    var t := if l.typeLast then at + len - 1 else at + l.name - 1;
    Parsed(Entry(NameAt(mem, at + l.name, len), WordAt(mem, at, l.word), if t in mem then mem[t] else 0),
           WordAt(mem, at + l.word, l.word), len)
  }

  ghost function Parser(mem: Space, l: Layout): nat -> Parsed
  {
    (at: nat) => ParseAt(mem, at, l)
  }

  /** From record to record by `d_reclen`. */
  ghost function Walk(parse: nat -> Parsed, at: nat, end: nat): seq<Parsed>
    decreases end - at
  {
    if at >= end || parse(at).len == 0 then [] else [parse(at)] + Walk(parse, at + parse(at).len, end)
  }

  lemma WordBack(mem: Space, a: nat, v: nat, w: nat)
    requires There(mem, a, Encode(v, w)) && v < WordValues(w)
    ensures WordAt(mem, a, w) == v
  {
    ThereHas(mem, a, Encode(v, w));
    HasFetch(mem, a, Encode(v, w));
    StoreLoad(v, w);
  }

  lemma {:induction false} LengthBack(mem: Space, a: nat, name: seq<byte>, limit: nat)
    requires Has(mem, a, name + [0]) && 0 !in name && |name| <= limit
    ensures UserLength(mem, a, limit) == |name| + 1
    decreases |name|
  {
    assert mem[a] == (name + [0])[0];
    if name != [] {
      assert mem[a] == name[0];
      assert name + [0] == [name[0]] + (name[1..] + [0]);
      HasParts(mem, a, [name[0]], name[1..] + [0]);
      LengthBack(mem, a + 1, name[1..], limit - 1);
    }
  }

  lemma NameBack(mem: Space, a: nat, name: seq<byte>, limit: nat)
    requires There(mem, a, name + [0]) && 0 !in name && |name| <= limit
    ensures NameAt(mem, a, limit) == name
  {
    ThereHas(mem, a, name + [0]);
    LengthBack(mem, a, name, limit);
    HasParts(mem, a, name, [0]);
    HasFetch(mem, a, name);
  }

  /** A record as `getdents` leaves it. */
  ghost predicate Finished(r: Record, l: Layout)
  {
    && 0 !in r.entry.name && r.entry.ino < WordValues(l.word) && r.len < WordValues(2)
    && r.off.Some? && r.off.value < WordValues(l.word)
  }

  ghost function ParsedOf(r: Record): Parsed
    requires r.off.Some?
  {
    Parsed(r.entry, r.off.value, r.len)
  }

  /** Parsing undoes packing, record by record. */
  lemma ParseBack(mem: Space, at: nat, r: Record, l: Layout)
    requires RecordAt(mem, at, r, l) && Finished(r, l)
    ensures ParseAt(mem, at, l) == ParsedOf(r)
  {
    var parts := Parts(r, l);
    assert PartAt(mem, at, parts, 0) && PartAt(mem, at, parts, 1) && PartAt(mem, at, parts, 2);
    assert PartAt(mem, at, parts, 3) && PartAt(mem, at, parts, 4);
    WordBack(mem, at, r.entry.ino, l.word);
    WordBack(mem, at + l.word, r.off.value, l.word);
    WordBack(mem, at + 2 * l.word, r.len, 2);
    NameBack(mem, at + l.name, r.entry.name, r.len);
    assert ByteThere(mem, at + TypeAt(r, l), [r.entry.kind], at + TypeAt(r, l));
  }

  ghost function AllParsed(rs: seq<Record>): (ps: seq<Parsed>)
    requires forall i :: 0 <= i < |rs| ==> rs[i].off.Some?
    ensures |ps| == |rs|
  {
    if rs == [] then [] else [ParsedOf(rs[0])] + AllParsed(rs[1..])
  }

  /** A parser that finds the records one behind the other. */
  ghost predicate Finds(parse: nat -> Parsed, at: nat, rs: seq<Record>, end: nat)
    decreases |rs|
  {
    if rs == [] then at == end
    else
      && rs[0].off.Some? && 0 < rs[0].len && at + rs[0].len <= end && parse(at) == ParsedOf(rs[0])
      && Finds(parse, at + rs[0].len, rs[1..], end)
  }

  lemma {:induction false} FindsAll(parse: nat -> Parsed, at: nat, rs: seq<Record>, end: nat)
    requires Finds(parse, at, rs, end)
    ensures forall i :: 0 <= i < |rs| ==> rs[i].off.Some?
    ensures Walk(parse, at, end) == AllParsed(rs)
    decreases |rs|
  {
    if rs != [] {
      FindsAll(parse, at + rs[0].len, rs[1..], end);
    }
  }

  lemma {:induction false} PackedFinds(mem: Space, at: nat, rs: seq<Record>, end: nat, l: Layout)
    requires Packed(mem, at, rs, end, l) && forall i :: 0 <= i < |rs| ==> Finished(rs[i], l)
    ensures at <= end && Finds(Parser(mem, l), at, rs, end)
    decreases |rs|
  {
    if rs != [] {
      PackedFinds(mem, at + rs[0].len, rs[1..], end, l);
      ParseBack(mem, at, rs[0], l);
      assert Parser(mem, l)(at) == ParsedOf(rs[0]);
    }
  }

  /** Parsing undoes packing for a whole buffer. */
  lemma WalkBack(mem: Space, at: nat, rs: seq<Record>, end: nat, l: Layout)
    requires Packed(mem, at, rs, end, l) && forall i :: 0 <= i < |rs| ==> Finished(rs[i], l)
    ensures at <= end && (forall i :: 0 <= i < |rs| ==> rs[i].off.Some?) && Walk(Parser(mem, l), at, end) == AllParsed(rs)
  {
    PackedFinds(mem, at, rs, end, l);
    FindsAll(Parser(mem, l), at, rs, end);
  }

  // ---------------------------------------------------------------- the system call

  /** Every record of a listing is complete. */
  lemma {:induction false} ListingFinished(d: Dir, l: Layout, i: nat, j: nat)
    requires GoodLayout(l) && GoodDir(d, l) && i <= j <= |d.entries|
    ensures forall k :: 0 <= k < j - i ==> Finished(Listing(d, l, i, j)[k], l)
    decreases j
  {
    if i < j {
      ListingFinished(d, l, i, j - 1);
    }
  }

  /** What a program reads of entries `i` to `j`. */
  ghost function Expected(d: Dir, l: Layout, i: nat, j: nat): (ps: seq<Parsed>)
    requires i <= j <= |d.entries| && |d.cookies| == |d.entries| + 1
    ensures |ps| == j - i
  {
    seq(j - i, k requires 0 <= k < j - i => Parsed(d.entries[i + k], d.cookies[i + k + 1], RecLen(d.entries[i + k].name, l)))
  }

  lemma {:induction false} ParsedAt(rs: seq<Record>, k: nat)
    requires k < |rs| && forall i :: 0 <= i < |rs| ==> rs[i].off.Some?
    ensures AllParsed(rs)[k] == ParsedOf(rs[k])
    decreases |rs|
  {
    if k > 0 {
      ParsedAt(rs[1..], k - 1);
    }
  }

  /** The buffer from `start` to `end` reads as entries `i` to `j`. */
  ghost predicate Reads(mem: Space, l: Layout, start: nat, end: nat, d: Dir, i: nat, j: nat)
  {
    i <= j <= |d.entries| && |d.cookies| == |d.entries| + 1 && Walk(Parser(mem, l), start, end) == Expected(d, l, i, j)
  }

  /** A buffer of listed entries reads as expected. */
  lemma ListingReads(mem: Space, d: Dir, l: Layout, i: nat, j: nat, start: nat, end: nat)
    requires GoodLayout(l) && GoodDir(d, l) && i <= j <= |d.entries| && Packed(mem, start, Listing(d, l, i, j), end, l)
    ensures start <= end && Reads(mem, l, start, end, d, i, j)
  {
    ListingFinished(d, l, i, j);
    WalkBack(mem, start, Listing(d, l, i, j), end, l);
    ListingParsed(d, l, i, j, Listing(d, l, i, j));
  }

  lemma ListingParsed(d: Dir, l: Layout, i: nat, j: nat, rs: seq<Record>)
    requires |d.cookies| == |d.entries| + 1 && GoodLayout(l) && i <= j <= |d.entries| && rs == Listing(d, l, i, j)
    requires forall k :: 0 <= k < |rs| ==> rs[k].off.Some?
    ensures AllParsed(rs) == Expected(d, l, i, j)
  {
    var found, wanted := AllParsed(rs), Expected(d, l, i, j);
    forall k | 0 <= k < j - i ensures found[k] == wanted[k] {
      ParsedAt(rs, k);
      ListingAt(d, l, i, j, i + k);
    }
  }

  /** With the last record knowing its successor, the records are the listing. */
  lemma HoldsListing(init: seq<Record>, last: Record, d: Dir, l: Layout, i: nat, j: nat)
    requires |d.cookies| == |d.entries| + 1 && GoodLayout(l) && i < j <= |d.entries| && Holds(init, Some(last), d, l, i, j)
    ensures All(init, Some(last.(off := Some(d.cookies[j])))) == Listing(d, l, i, j)
  {}

  lemma FilledBytes(mem: Space, start: nat, size: nat, count: nat, init: seq<Record>, last: Record, prev: Option<nat>, current: nat, l: Layout)
    requires Filled(mem, start, init, Some(last), prev, current, l) && current + count == start + size
    ensures 0 < size - count && Packed(mem, start, All(init, Some(last)), start + (size - count), l)
  {
    FilledPacked(mem, start, init, Some(last), prev, current, l);
    PackedUp(mem, start, All(init, Some(last)), current, l);
    PackedSame(mem, start, All(init, Some(last)), All(init, Some(last)), current, start + (size - count), l);
  }

  lemma PackedSame(mem: Space, at: nat, rs: seq<Record>, rs': seq<Record>, end: nat, end': nat, l: Layout)
    requires Packed(mem, at, rs, end, l) && rs == rs' && end == end'
    ensures Packed(mem, at, rs', end', l)
  {}

  /** What a call on entries from `i` on returns when `j` is the first entry that is not in the buffer. */
  ghost predicate Returns(r: int, mem: Space, d: Dir, l: Layout, start: nat, count: nat, i: nat, j: nat, lastFault: bool)
    requires i <= j <= |d.entries| && |d.cookies| == |d.entries| + 1 && GoodLayout(l)
  {
    if i == j then
      r == if i == |d.entries| then 0 else Reason(d.entries[i], l, count)
    else if lastFault then r == -EFAULT
    else 0 < r <= count && Packed(mem, start, Listing(d, l, i, j), start + r, l)
  }

  /** Links the last record to the position to go on from; the bytes used hold all records. */
  method LinkLast(buf: Filler, pos: nat, ghost rs: seq<Record>) returns (r: nat)
    requires buf.Valid() && buf.last.Some? && rs == All(buf.init, Some(buf.last.value.(off := Some(pos))))
    modifies buf`mem, buf`last
    ensures buf.Valid() && 0 < r <= buf.size && Packed(buf.mem, buf.start, rs, buf.start + r, buf.l)
  {
    buf.Link(pos);
    FilledBytes(buf.mem, buf.start, buf.size, buf.count, buf.init, buf.last.value, buf.previous, buf.current, buf.l);
    r := buf.size - buf.count;
  }

  /** The end of the call: the last record learns the position to go on from. */
  method Finish(d: Dir, buf: Filler, i: nat, j: nat, pos: nat, lastFault: bool) returns (r: int)
    requires |d.cookies| == |d.entries| + 1 && i < j <= |d.entries| && pos == d.cookies[j]
    requires buf.Valid() && Holds(buf.init, buf.last, d, buf.l, i, j)
    modifies buf`mem, buf`last
    ensures buf.Valid() && Returns(r, buf.mem, d, buf.l, buf.start, buf.size, i, j, lastFault)
  {
    if lastFault {
      r := -EFAULT;
    } else {
      HoldsListing(buf.init, buf.last.value, d, buf.l, i, j);
      r := LinkLast(buf, pos, Listing(d, buf.l, i, j));
    }
  }

  /** The callbacks and, unless `readdir` then returns an error `late`, the last offset, on a buffer that is still empty. */
  method FillBuffer(d: Dir, i: nat, buf: Filler, late: int, faults: nat -> bool, lastFault: bool) returns (r: int, j: nat)
    requires |d.cookies| == |d.entries| + 1 && i <= |d.entries|
    requires buf.Valid() && buf.last.None? && buf.error == 0 && buf.count == buf.size
    modifies buf
    ensures j == StopAt(d.entries, buf.l, i, buf.size, faults) && SameOutside(buf.given, buf.mem, buf.start, buf.start + buf.size)
    ensures if late < 0 then r == late else Returns(r, buf.mem, d, buf.l, buf.start, buf.size, i, j, lastFault)
  {
    j := FillFrom(d, i, buf, faults);
    r := if late < 0 then late else buf.error;
    if late >= 0 && i < j {
      r := Finish(d, buf, i, j, d.cookies[j], lastFault);
    }
    buf.StaysInside();
  }

  /** The buffer part of the call. */
  method ReadFrom(d: Dir, i: nat, mem: Space, start: nat, count: nat, l: Layout, late: int, faults: nat -> bool, lastFault: bool)
    returns (r: int, mem': Space, j: nat)
    requires GoodLayout(l) && |d.cookies| == |d.entries| + 1 && i <= |d.entries|
    ensures j == StopAt(d.entries, l, i, count, faults)
    ensures if late < 0 then r == late else Returns(r, mem', d, l, start, count, i, j, lastFault)
    ensures SameOutside(mem, mem', start, start + count)
  {
    var buf := new Filler(mem, start, count, l);
    r, j := FillBuffer(d, i, buf, late, faults, lastFault);
    mem' := buf.mem;
  }

  /**
    `sys_getdents` and `sys_getdents64`. `refused` is an error before any callback, `late` one that `readdir`
    returns after them, `faults` which callbacks cannot store, `lastFault` whether the last offset cannot
    be stored. Entries `i` to `j` are in the buffer.
   */
  method GetDents(file: OpenDir, mem: Space, start: nat, count: nat, l: Layout, refused: int, late: int, faults: nat -> bool, lastFault: bool)
    returns (r: int, mem': Space, i: nat, j: nat)
    requires GoodLayout(l) && GoodDir(file.d, l) && file.pos in file.d.cookies
    modifies file
    ensures i <= j <= |file.d.entries| && old(file.pos) == file.d.cookies[i] && file.pos == file.d.cookies[j]
    ensures refused < 0 ==> r == refused && i == j && mem' == mem
    ensures refused >= 0 ==> j == StopAt(file.d.entries, l, i, count, faults)
    ensures refused >= 0 ==> if late < 0 then r == late else Returns(r, mem', file.d, l, start, count, i, j, lastFault)
    ensures SameOutside(mem, mem', start, start + count)
  {
    mem', r := mem, refused;
    SameSelf(mem, start, start + count);
    i := IndexOf(file.d.cookies, file.pos);
    j := i;
    if refused >= 0 {
      r, mem', j := ReadFrom(file.d, i, mem, start, count, l, late, faults, lastFault);
      file.pos := file.d.cookies[j];
    }
  }

  /** A position leads to one entry only, so that the offset in a record leads to the entry behind it. */
  lemma OffsetResumes(d: Dir, l: Layout, i: nat, j: nat, k: nat)
    requires GoodLayout(l) && GoodDir(d, l) && i <= k < j <= |d.entries|
    ensures IndexOf(d.cookies, Expected(d, l, i, j)[k - i].off) == k + 1
  {
    assert Expected(d, l, i, j)[k - i].off == d.cookies[i + (k - i) + 1];
  }

  ghost function EntriesOf(ps: seq<Parsed>): (es: seq<Entry>)
    ensures |es| == |ps| && forall k :: 0 <= k < |ps| ==> es[k] == ps[k].entry
  {
    seq(|ps|, k requires 0 <= k < |ps| => ps[k].entry)
  }

  lemma ExpectedEntries(d: Dir, l: Layout, i: nat, j: nat)
    requires i <= j <= |d.entries| && |d.cookies| == |d.entries| + 1
    ensures EntriesOf(Expected(d, l, i, j)) == d.entries[i..j]
  {}

  /** The entries read back are the entries of the directory. */
  lemma EntriesRead(mem: Space, d: Dir, l: Layout, i: nat, j: nat, start: nat, end: nat)
    requires GoodLayout(l) && GoodDir(d, l) && i <= j <= |d.entries| && Packed(mem, start, Listing(d, l, i, j), end, l)
    ensures EntriesOf(Walk(Parser(mem, l), start, end)) == d.entries[i..j]
  {
    ListingReads(mem, d, l, i, j, start, end);
    ExpectedEntries(d, l, i, j);
  }

  lemma SameIndex(d: Dir, l: Layout, i: nat, j: nat)
    requires GoodDir(d, l) && i < |d.cookies| && j < |d.cookies| && d.cookies[i] == d.cookies[j]
    ensures i == j
  {}

  /** What a program reads from the buffer after a call that returned `r`. */
  ghost function Got(r: int, mem: Space, start: nat, l: Layout): seq<Entry>
  {
    if r > 0 then EntriesOf(Walk(Parser(mem, l), start, start + r)) else []
  }

  lemma GotEntries(r: int, mem: Space, d: Dir, l: Layout, start: nat, count: nat, i: nat, j: nat)
    requires GoodLayout(l) && GoodDir(d, l) && i <= j <= |d.entries| && Returns(r, mem, d, l, start, count, i, j, false)
    ensures Got(r, mem, start, l) == d.entries[i..j] && (r > 0 <==> i < j)
  {
    if i < j {
      EntriesRead(mem, d, l, i, j, start, start + r);
    } else {
      assert d.entries[i..j] == [];
    }
  }

  // ---------------------------------------------------------------- reading a whole directory

  /** No callback fails. */
  predicate NoFault(k: nat)
  {
    false
  }

  /** What call `k` returned and left in memory, going from entry `cuts[k]` to `cuts[k + 1]`. */
  ghost predicate CallAt(d: Dir, l: Layout, start: nat, count: nat, rs: seq<int>, mems: seq<Space>, cuts: seq<nat>, k: nat)
    requires |d.cookies| == |d.entries| + 1 && GoodLayout(l) && |mems| == |rs| && |cuts| == |rs| + 1
  {
    k < |rs| ==>
      && cuts[k] <= |d.entries| && cuts[k + 1] == StopAt(d.entries, l, cuts[k], count, NoFault)
      && Returns(rs[k], mems[k], d, l, start, count, cuts[k], cuts[k + 1], false)
  }

  /** Results `rs` and memories `mems` of calls in a row that go through the directory by `cuts`. */
  ghost predicate Trace(d: Dir, l: Layout, start: nat, count: nat, rs: seq<int>, mems: seq<Space>, cuts: seq<nat>)
    requires |d.cookies| == |d.entries| + 1 && GoodLayout(l)
  {
    |mems| == |rs| && |cuts| == |rs| + 1 && forall k: nat :: CallAt(d, l, start, count, rs, mems, cuts, k)
  }

  /** What a program reads from all these buffers, one behind the other. */
  ghost function AllGot(rs: seq<int>, mems: seq<Space>, start: nat, l: Layout): seq<Entry>
    requires |mems| == |rs|
  {
    if rs == [] then []
    else
      var n := |rs| - 1;
      AllGot(rs[..n], mems[..n], start, l) + Got(rs[n], mems[n], start, l)
  }

  /** A call is one of a trace and of any longer one. */
  lemma CallStays(d: Dir, l: Layout, start: nat, count: nat, rs: seq<int>, mems: seq<Space>, cuts: seq<nat>,
                  rs': seq<int>, mems': seq<Space>, cuts': seq<nat>, k: nat)
    requires |d.cookies| == |d.entries| + 1 && GoodLayout(l) && |mems| == |rs| && |cuts| == |rs| + 1
    requires rs <= rs' && mems <= mems' && cuts <= cuts' && |mems'| == |rs'| && |cuts'| == |rs'| + 1 && k < |rs|
    ensures CallAt(d, l, start, count, rs, mems, cuts, k) <==> CallAt(d, l, start, count, rs', mems', cuts', k)
  {
    assert rs'[k] == rs[k] && mems'[k] == mems[k] && cuts'[k] == cuts[k] && cuts'[k + 1] == cuts[k + 1];
  }

  lemma TraceInit(d: Dir, l: Layout, start: nat, count: nat, rs: seq<int>, mems: seq<Space>, cuts: seq<nat>)
    requires |d.cookies| == |d.entries| + 1 && GoodLayout(l) && Trace(d, l, start, count, rs, mems, cuts) && rs != []
    ensures Trace(d, l, start, count, rs[..|rs| - 1], mems[..|rs| - 1], cuts[..|rs|])
  {
    var n := |rs| - 1;
    var rs', mems', cuts' := rs[..n], mems[..n], cuts[..n + 1];
    forall k: nat ensures CallAt(d, l, start, count, rs', mems', cuts', k) {
      assert CallAt(d, l, start, count, rs, mems, cuts, k);
      if k < n {
        CallStays(d, l, start, count, rs', mems', cuts', rs, mems, cuts, k);
      }
    }
  }

  /** However many calls there were, the entries read are those gone through, in order. */
  lemma {:induction false} TraceReads(d: Dir, l: Layout, start: nat, count: nat, rs: seq<int>, mems: seq<Space>, cuts: seq<nat>)
    requires GoodLayout(l) && GoodDir(d, l) && Trace(d, l, start, count, rs, mems, cuts) && cuts[0] <= |d.entries|
    ensures cuts[0] <= cuts[|rs|] <= |d.entries| && AllGot(rs, mems, start, l) == d.entries[cuts[0]..cuts[|rs|]]
    decreases |rs|
  {
    if rs != [] {
      var n := |rs| - 1;
      TraceInit(d, l, start, count, rs, mems, cuts);
      TraceReads(d, l, start, count, rs[..n], mems[..n], cuts[..n + 1]);
      assert CallAt(d, l, start, count, rs, mems, cuts, n);
      GotEntries(rs[n], mems[n], d, l, start, count, cuts[n], cuts[n + 1]);
      SliceSplit(d.entries, cuts[0], cuts[n], cuts[n + 1]);
    }
  }

  /** If the last of the calls returned 0, every entry from the first cut on was read once, in order. */
  lemma TraceComplete(d: Dir, l: Layout, start: nat, count: nat, rs: seq<int>, mems: seq<Space>, cuts: seq<nat>)
    requires GoodLayout(l) && GoodDir(d, l) && Trace(d, l, start, count, rs, mems, cuts) && cuts[0] <= |d.entries|
    requires rs != [] && rs[|rs| - 1] == 0
    ensures cuts[|rs|] == |d.entries| && AllGot(rs, mems, start, l) == d.entries[cuts[0]..]
  {
    var n := |rs| - 1;
    TraceReads(d, l, start, count, rs, mems, cuts);
    assert CallAt(d, l, start, count, rs, mems, cuts, n);
    assert d.entries[cuts[0]..cuts[|rs|]] == d.entries[cuts[0]..];
  }

  lemma TraceGrows(d: Dir, l: Layout, start: nat, count: nat, rs: seq<int>, mems: seq<Space>, cuts: seq<nat>, r: int, mem: Space, j: nat)
    requires |d.cookies| == |d.entries| + 1 && GoodLayout(l) && Trace(d, l, start, count, rs, mems, cuts)
    requires cuts[|rs|] <= |d.entries| && j == StopAt(d.entries, l, cuts[|rs|], count, NoFault)
    requires Returns(r, mem, d, l, start, count, cuts[|rs|], j, false)
    ensures Trace(d, l, start, count, rs + [r], mems + [mem], cuts + [j])
  {
    var rs', mems', cuts' := rs + [r], mems + [mem], cuts + [j];
    forall k: nat ensures CallAt(d, l, start, count, rs', mems', cuts', k) {
      assert CallAt(d, l, start, count, rs, mems, cuts, k);
      if k < |rs| {
        CallStays(d, l, start, count, rs, mems, cuts, rs', mems', cuts', k);
      } else {
        LastCall(d, l, start, count, rs', mems', cuts', k);
      }
    }
  }

  lemma LastCall(d: Dir, l: Layout, start: nat, count: nat, rs: seq<int>, mems: seq<Space>, cuts: seq<nat>, k: nat)
    requires |d.cookies| == |d.entries| + 1 && GoodLayout(l) && |mems| == |rs| && |cuts| == |rs| + 1 && 0 < |rs| <= k + 1
    requires var n := |rs| - 1;
             && cuts[n] <= |d.entries| && cuts[n + 1] == StopAt(d.entries, l, cuts[n], count, NoFault)
             && Returns(rs[n], mems[n], d, l, start, count, cuts[n], cuts[n + 1], false)
    ensures CallAt(d, l, start, count, rs, mems, cuts, k)
  {}

  /** One more call, from entry `at` on; unless it is the last, it goes further. */
  method ReadSome(file: OpenDir, mem: Space, start: nat, count: nat, l: Layout, ghost at: nat)
    returns (r: int, mem': Space, ghost j: nat)
    requires GoodLayout(l) && GoodDir(file.d, l) && at <= |file.d.entries| && file.pos == file.d.cookies[at]
    requires forall i :: 0 <= i < |file.d.entries| ==> RecLen(file.d.entries[i].name, l) <= count
    modifies file
    ensures j == StopAt(file.d.entries, l, at, count, NoFault) && file.pos == file.d.cookies[j]
    ensures Returns(r, mem', file.d, l, start, count, at, j, false) && (r == 0 || (r > 0 && at < j))
  {
    var i, stop;
    r, mem', i, stop := GetDents(file, mem, start, count, l, 0, 0, NoFault, false);
    SameIndex(file.d, l, i, at);
    j := stop;
  }

  /**
    Calls until one returns 0, with a buffer that takes any record and no faults. The results and the memories
    after each call are returned; what a program reads from them is every entry once, in order.
   */
  method ReadAll(file: OpenDir, mem: Space, start: nat, count: nat, l: Layout)
    returns (rs: seq<int>, mems: seq<Space>, ghost cuts: seq<nat>)
    requires GoodLayout(l) && GoodDir(file.d, l) && file.pos in file.d.cookies
    requires forall i :: 0 <= i < |file.d.entries| ==> RecLen(file.d.entries[i].name, l) <= count
    modifies file
    ensures Trace(file.d, l, start, count, rs, mems, cuts) && cuts[0] == IndexOf(file.d.cookies, old(file.pos))
    ensures rs != [] && rs[|rs| - 1] == 0 && (forall k :: 0 <= k < |rs| - 1 ==> rs[k] > 0)
    ensures file.pos == file.d.cookies[|file.d.entries|]
    ensures AllGot(rs, mems, start, l) == file.d.entries[IndexOf(file.d.cookies, old(file.pos))..]
  {
    ghost var d, at: nat := file.d, IndexOf(file.d.cookies, file.pos);
    rs, mems, cuts := [], [], [at];
    var r, last := 1, mem;
    while r != 0
      invariant GoodDir(d, l) && at <= |d.entries| && file.pos == d.cookies[at]
      invariant Trace(d, l, start, count, rs, mems, cuts) && cuts[|rs|] == at && cuts[0] == IndexOf(d.cookies, old(file.pos))
      invariant if rs == [] then r == 1 else r == rs[|rs| - 1]
      invariant forall k :: 0 <= k < |rs| && (r != 0 || k < |rs| - 1) ==> rs[k] > 0
      decreases r != 0, |d.entries| - at
    {
      ghost var j;
      r, last, j := ReadSome(file, last, start, count, l, at);
      TraceGrows(d, l, start, count, rs, mems, cuts, r, last, j);
      rs, mems, cuts, at := rs + [r], mems + [last], cuts + [j], j;
    }
    TraceComplete(d, l, start, count, rs, mems, cuts);
  }
}
