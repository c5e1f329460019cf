/**
  User memory as the kernel sees it: scatter/gather vectors, bytes to fetch, faulty addresses,
  and the stores made so far, oldest first.
 */
module UserMemory {
  import opened Words

  datatype Iovec = Iovec(base: nat, len: nat)

  function Range(base: nat, len: nat): (r: seq<nat>)
    ensures |r| == len
    ensures forall i :: 0 <= i < len ==> r[i] == base + i
  {
    seq(len, i requires 0 <= i < len => base + i)
  }

  /** The addresses a vector denotes, in order. */
  function Cells(iov: seq<Iovec>): seq<nat>
  {
    if iov == [] then [] else Range(iov[0].base, iov[0].len) + Cells(iov[1..])
  }

  lemma CellsOfDrained(iov: seq<Iovec>)
    requires iov != [] && iov[0].len == 0
    ensures Cells(iov) == Cells(iov[1..])
  {
    assert Range(iov[0].base, 0) == [];
  }

  /** Using up the front of the first element uses up as many addresses. */
  lemma {:induction false} CellsAdvance(iov: seq<Iovec>, n: nat)
    requires iov != [] && n <= iov[0].len
    ensures var v := Iovec(iov[0].base + n, iov[0].len - n);
            && |Cells(iov)| >= iov[0].len
            && Cells(iov)[..n] == Range(iov[0].base, n)
            && Cells([v] + iov[1..]) == Cells(iov)[n..]
  {
    var v := Iovec(iov[0].base + n, iov[0].len - n);
    assert ([v] + iov[1..])[1..] == iov[1..];
    var front, back, rest := Range(iov[0].base, n), Range(v.base, v.len), Cells(iov[1..]);
    assert Range(iov[0].base, iov[0].len) == front + back;
    Regroup(front, back, rest);
    Halves(front, back + rest);
  }

  /** How many of the addresses come before the first faulty one. */
  function Sound(cells: seq<nat>, bad: set<nat>): (n: nat)
    ensures n <= |cells|
  {
    if cells == [] || cells[0] in bad then 0 else 1 + Sound(cells[1..], bad)
  }

  lemma {:induction false} SoundMeaning(cells: seq<nat>, bad: set<nat>)
    ensures var n := Sound(cells, bad);
            (forall i :: 0 <= i < n ==> cells[i] !in bad) && (n < |cells| ==> cells[n] in bad)
  {
    if cells != [] && cells[0] !in bad {
      SoundMeaning(cells[1..], bad);
      assert forall i :: 0 < i < |cells| ==> cells[i] == cells[1..][i - 1];
    }
  }

  lemma SoundPrefix(cells: seq<nat>, bad: set<nat>, n: nat)
    requires n <= |cells|
    ensures Sound(cells[..n], bad) == n <==> n <= Sound(cells, bad)
  {
    SoundMeaning(cells, bad);
    SoundMeaning(cells[..n], bad);
    assert forall i :: 0 <= i < n ==> cells[..n][i] == cells[i];
  }

  lemma {:induction false} SoundTail(cells: seq<nat>, bad: set<nat>, n: nat)
    requires n <= Sound(cells, bad)
    ensures Sound(cells[n..], bad) == Sound(cells, bad) - n
  {
    if n > 0 {
      SoundTail(cells[1..], bad, n - 1);
      assert cells[1..][n - 1..] == cells[n..];
    } else {
      assert cells[0..] == cells;
    }
  }

  class UserSpace {
    const bytes: nat -> byte
    const bad: set<nat>
    var stores: seq<(nat, byte)>

    constructor (bytes: nat -> byte, bad: set<nat>)
      ensures this.bytes == bytes && this.bad == bad && stores == []
    {
      this.bytes := bytes;
      this.bad := bad;
      stores := [];
    }

    /** The bytes at the given addresses. */
    function Fetch(cells: seq<nat>): (r: seq<byte>)
      ensures |r| == |cells|
    {
      seq(|cells|, i requires 0 <= i < |cells| => bytes(cells[i]))
    }

    /** `copy_from_user`: fills `to` from `at` until done or until a faulty address. */
    method CopyFromUser(to: array<byte>, at: nat, base: nat, n: nat) returns (ok: bool)
      requires at + n <= to.Length
      modifies to
      ensures ok <==> Sound(Range(base, n), bad) == n
      ensures ok ==> to[at..at + n] == Fetch(Range(base, n))
      ensures to[..at] == old(to[..at]) && to[at + n..] == old(to[at + n..])
    {
      var i := 0;
      ghost var cells := Range(base, n);
      SoundMeaning(cells, bad);
      while i < n
        invariant i <= n
        invariant forall k :: 0 <= k < i ==> cells[k] !in bad
        invariant to[at..at + i] == Fetch(cells[..i])
        invariant to[..at] == old(to[..at]) && to[at + n..] == old(to[at + n..])
      {
        if base + i in bad {
          assert cells[i] in bad;
          return false;
        }
        to[at + i] := bytes(base + i);
        i := i + 1;
        assert to[at..at + i] == to[at..at + i - 1] + [to[at + i - 1]];
        assert cells[..i] == cells[..i - 1] + [cells[i - 1]];
      }
      assert cells[..n] == cells;
      return true;
    }

    /** `copy_to_user`: stores until done or until a faulty address. */
    method CopyToUser(base: nat, from: seq<byte>) returns (ok: bool)
      modifies this
      ensures ok <==> Sound(Range(base, |from|), bad) == |from|
      ensures ok ==> stores == old(stores) + Paired(Range(base, |from|), from)
      ensures old(stores) <= stores
    {
      var i := 0;
      ghost var cells := Range(base, |from|);
      SoundMeaning(cells, bad);
      while i < |from|
        invariant i <= |from|
        invariant forall k :: 0 <= k < i ==> cells[k] !in bad
        invariant stores == old(stores) + Paired(Range(base, i), from[..i])
      {
        if base + i in bad {
          assert cells[i] in bad;
          return false;
        }
        stores := stores + [(base + i, from[i])];
        i := i + 1;
        assert Paired(Range(base, i), from[..i]) == Paired(Range(base, i - 1), from[..i - 1]) + [(base + i - 1, from[i - 1])];
      }
      assert from[..i] == from;
      return true;
    }
  }

  /** A user vector in use: `left` are the addresses that its elements still denote. */
  class UserVector {
    var segs: seq<Iovec>
    ghost var left: seq<nat>

    ghost predicate Valid()
      reads this
    {
      left == Cells(segs)
    }

    constructor (iov: seq<Iovec>)
      ensures Valid() && left == Cells(iov)
    {
      segs := iov;
      left := Cells(iov);
    }

    /** Skips drained elements to the next run of at most `limit` addresses; stays inside the vector. */
    method Peek(limit: nat) returns (i: nat, base: nat, copy: nat)
      requires Valid() && 0 < limit <= |left|
      ensures i < |segs| && Cells(segs[..i]) == [] && segs[i].base == base
      ensures 0 < copy <= limit && copy <= segs[i].len && left[..copy] == Range(base, copy)
    {
      i := 0;
      while segs[i].len == 0
        invariant i < |segs| && Cells(segs[..i]) == [] && Cells(segs[i..]) == left
        decreases |segs| - i
      {
        CellsSkip(segs, i);
        i := i + 1;
      }
      base, copy := segs[i].base, if segs[i].len < limit then segs[i].len else limit;
      CellsAdvance(segs[i..], copy);
    }

    /** Uses up `copy` addresses of element `i`. */
    method Consume(i: nat, copy: nat)
      requires Valid() && i < |segs| && Cells(segs[..i]) == [] && copy <= segs[i].len && copy <= |left|
      modifies this
      ensures Valid() && left == old(left)[copy..]
    {
      CellsConsumed(segs, i, copy);
      segs := segs[i := Iovec(segs[i].base + copy, segs[i].len - copy)];
      left := left[copy..];
    }
  }

  lemma {:induction false} CellsSplit(iov: seq<Iovec>, i: nat)
    requires i <= |iov|
    ensures Cells(iov) == Cells(iov[..i]) + Cells(iov[i..])
  {
    if i == 0 {
      assert iov[0..] == iov;
    } else {
      CellsSplit(iov[1..], i - 1);
      assert iov[..i][1..] == iov[1..][..i - 1];
      assert iov[1..][i - 1..] == iov[i..];
      Regroup(Range(iov[0].base, iov[0].len), Cells(iov[..i][1..]), Cells(iov[i..]));
    }
  }

  lemma {:induction false} CellsConsumed(iov: seq<Iovec>, i: nat, copy: nat)
    requires i < |iov| && Cells(iov[..i]) == [] && copy <= iov[i].len
    ensures copy <= |Cells(iov)| && Cells(iov[i := Iovec(iov[i].base + copy, iov[i].len - copy)]) == Cells(iov)[copy..]
  {
    var seg := Iovec(iov[i].base + copy, iov[i].len - copy);
    var iov' := iov[i := seg];
    CellsSplit(iov, i);
    CellsAdvance(iov[i..], copy);
    assert iov'[..i] == iov[..i] && iov'[i..] == [seg] + iov[i..][1..];
    CellsSplit(iov', i);
  }

  lemma {:induction false} CellsSkip(iov: seq<Iovec>, i: nat)
    requires i < |iov| && iov[i].len == 0 && Cells(iov[..i]) == [] && Cells(iov[i..]) != []
    ensures i + 1 < |iov| && Cells(iov[..i + 1]) == [] && Cells(iov[i + 1..]) == Cells(iov[i..])
  {
    CellsOfDrained(iov[i..]);
    assert iov[i..][1..] == iov[i + 1..];
    CellsSplit(iov, i);
    CellsSplit(iov, i + 1);
    assert |Cells(iov[..i + 1])| == 0;
  }

  /** Address by address, the bytes stored. */
  function Paired(cells: seq<nat>, from: seq<byte>): (r: seq<(nat, byte)>)
    requires |cells| == |from|
    ensures |r| == |from|
  {
    seq(|from|, i requires 0 <= i < |from| => (cells[i], from[i]))
  }
}
