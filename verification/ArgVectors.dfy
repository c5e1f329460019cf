/** The caller's `argv` and `envp`: counting them, and when their strings can be taken. */
module ArgVectors {
  import opened Words
  import opened Memory

  datatype Status = Ok | Efault | E2big | Enomem
  {
    /** The strings themselves are at fault. */
    predicate Denied()
    {
      Efault? || E2big?
    }
  }

  /** `get_user` of a pointer. */
  method GetPointer(mem: Space, a: nat) returns (ok: bool, v: nat)
    ensures ok <==> Mapped(mem, a, POINTER_SIZE)
    ensures ok ==> WordIs(mem, a, v)
  {
    v := 0;
    ok := forall k | a <= k < a + POINTER_SIZE :: k in mem;
    if ok {
      v := Decode(Fetch(mem, a, POINTER_SIZE));
    }
  }

  /** Why no further string could be taken from the pointer at `slot` with `room` bytes left. */
  ghost predicate Refused(mem: Space, slot: nat, room: nat, why: Status)
  {
    match why
    case Ok => false
    case Enomem => true
    case Efault => !Mapped(mem, slot, POINTER_SIZE) || UserLength(mem, Decode(Fetch(mem, slot, POINTER_SIZE)), room) == 0
    case E2big => Mapped(mem, slot, POINTER_SIZE) && UserLength(mem, Decode(Fetch(mem, slot, POINTER_SIZE)), room) > room
  }

  /** None of the first `n` pointers is readable and NULL. */
  ghost predicate NoneNull(mem: Space, table: nat, n: nat)
  {
    forall i :: 0 <= i < n ==> !WordIs(mem, SlotAt(table, i), 0)
  }

  /** What a possibly missing `argv` or `envp` stands for. */
  ghost predicate Vector(mem: Space, table: nat, ss: seq<seq<byte>>)
  {
    if table == 0 then ss == [] else VectorAt(mem, table, ss)
  }

  /** Counts the pointers before the first NULL, at most `max` of them. */
  method Count(mem: Space, argv: nat, max: nat) returns (r: Status, n: nat)
    ensures NoneNull(mem, argv, n)
    ensures forall i :: 0 <= i < n ==> Mapped(mem, SlotAt(argv, i), POINTER_SIZE)
    ensures argv == 0 ==> r == Ok && n == 0
    ensures r == Ok && argv != 0 ==> n <= max && WordIs(mem, SlotAt(argv, n), 0)
    ensures r == E2big ==> n == max + 1
    ensures r == Efault ==> n <= max && !Mapped(mem, SlotAt(argv, n), POINTER_SIZE)
    ensures r != Enomem && (r != Ok ==> TooMany(mem, argv, max))
  {
    r, n := Ok, 0;
    var more := argv != 0;
    while more
      invariant NoneNull(mem, argv, n)
      invariant forall i :: 0 <= i < n ==> Mapped(mem, SlotAt(argv, i), POINTER_SIZE)
      invariant more ==> r == Ok && n <= max
      invariant argv == 0 ==> !more && r == Ok && n == 0
      invariant !more && r == Ok && argv != 0 ==> n <= max && WordIs(mem, SlotAt(argv, n), 0)
      invariant r == E2big ==> n == max + 1
      invariant r == Efault ==> n <= max && !Mapped(mem, SlotAt(argv, n), POINTER_SIZE)
      invariant r != Enomem
      decreases more, max - n
    {
      var ok, ptr := GetPointer(mem, SlotAt(argv, n));
      if !ok {
        r, more := Efault, false;
      } else if ptr == 0 {
        more := false;
      } else {
        n := n + 1;
        if n > max {
          r, more := E2big, false;
        }
      }
    }
    forall ss | Vector(mem, argv, ss) ensures r != Ok ==> |ss| > max {
      if argv != 0 {
        CountOf(mem, argv, max, r, n, ss);
      }
    }
  }

  // ---------------------------------------------------------------- when the strings can be taken

  /** The length of a string in reach is found. */
  lemma {:induction false} LengthOf(mem: Space, a: nat, s: seq<byte>, n: nat)
    requires IsCString(s) && Has(mem, a, s) && |s| <= n
    ensures UserLength(mem, a, n) == |s|
    decreases |s|
  {
    assert a in mem && mem[a] == s[0];
    if |s| > 1 {
      var rest := s[1..];
      assert Has(mem, a + 1, rest) by {
        assert s == [s[0]] + rest;
        HasParts(mem, a, [s[0]], rest);
      }
      LengthOf(mem, a + 1, rest, n - 1);
    }
  }

  /** A string that can be read and has room is not denied. */
  lemma NotDenied(mem: Space, slot: nat, room: nat, why: Status, s: seq<byte>)
    requires Refused(mem, slot, room, why) && why.Denied() && PointsTo(mem, slot, s)
    ensures |s| > room
  {
    if |s| <= room {
      LengthOf(mem, Decode(Fetch(mem, slot, POINTER_SIZE)), s, room);
    }
  }

  lemma {:induction false} PointedDrop(mem: Space, table: nat, ss: seq<seq<byte>>, i: nat)
    requires Pointed(mem, table, ss) && i <= |ss|
    ensures Pointed(mem, SlotAt(table, i), ss[i..])
  {
    if i == 0 {
      assert ss[0..] == ss;
    } else {
      PointedDrop(mem, table, ss, i - 1);
      SlotNext(table, i - 1);
      assert ss[i - 1..][1..] == ss[i..];
    }
  }

  lemma PointedFrom(mem: Space, table: nat, ss: seq<seq<byte>>, i: nat)
    requires Pointed(mem, table, ss) && i < |ss|
    ensures PointsTo(mem, SlotAt(table, i), ss[i]) && Pointed(mem, SlotAt(table, i + 1), ss[i + 1..])
  {
    PointedDrop(mem, table, ss, i);
    PointedDrop(mem, table, ss, i + 1);
    assert ss[i..][0] == ss[i];
  }

  lemma {:induction false} JoinFrom(ss: seq<seq<byte>>, i: nat)
    requires i < |ss|
    ensures |Join(ss)| >= |ss[i]| + |Join(ss[i + 1..])|
    decreases i
  {
    if i > 0 {
      JoinFrom(ss[1..], i - 1);
      assert ss[1..][i..] == ss[i + 1..];
    }
  }

  lemma {:induction false} PointedUnique(mem: Space, table: nat, ss: seq<seq<byte>>, ts: seq<seq<byte>>)
    requires Pointed(mem, table, ss) && Pointed(mem, table, ts) && |ss| == |ts|
    ensures ss == ts
    decreases |ss|
  {
    if ss != [] {
      SameString(mem, Decode(Fetch(mem, table, POINTER_SIZE)), ss[0], ts[0]);
      PointedUnique(mem, table + POINTER_SIZE, ss[1..], ts[1..]);
      assert ss == [ss[0]] + ss[1..] && ts == [ts[0]] + ts[1..];
    }
  }

  /** If taking strings from the last one on stops at one that is denied, then they do not fit all together. */
  lemma DeniedStrings(mem: Space, table: nat, taken: seq<seq<byte>>, room: nat, why: Status, ss: seq<seq<byte>>)
    requires |taken| < |ss| && Pointed(mem, SlotAt(table, |ss| - |taken|), taken) && why.Denied()
    requires Refused(mem, SlotAt(table, |ss| - |taken| - 1), room, why) && Pointed(mem, table, ss)
    ensures |Join(ss)| > room + |Join(taken)|
  {
    var i := |ss| - |taken| - 1;
    PointedFrom(mem, table, ss, i);
    JoinFrom(ss, i);
    PointedUnique(mem, SlotAt(table, i + 1), taken, ss[i + 1..]);
    NotDenied(mem, SlotAt(table, i), room, why, ss[i]);
  }

  /** Counting finds the length of a vector, unless there are more than `max` strings. */
  lemma CountOf(mem: Space, table: nat, max: nat, r: Status, n: nat, ss: seq<seq<byte>>)
    requires NoneNull(mem, table, n) && table != 0 && VectorAt(mem, table, ss)
    requires r == Ok ==> WordIs(mem, SlotAt(table, n), 0)
    requires r == E2big ==> n == max + 1
    requires r == Efault ==> n <= max && !Mapped(mem, SlotAt(table, n), POINTER_SIZE)
    ensures r == Ok ==> n == |ss|
    ensures r.Denied() ==> |ss| > max
  {
    assert |ss| >= n;
    if n < |ss| {
      PointedFrom(mem, table, ss, n);
    }
  }

  /** There are too many strings, or the table cannot be read. */
  ghost predicate TooMany(mem: Space, table: nat, max: nat)
  {
    forall ss :: Vector(mem, table, ss) ==> |ss| > max
  }

  /** The strings are too long, or cannot be read. */
  ghost predicate TooLong(mem: Space, table: nat, room: nat)
  {
    forall ss :: Vector(mem, table, ss) ==> |Join(ss)| > room
  }

  /** The caller's vector stands for one sequence of strings. */
  lemma VectorExact(mem: Space, table: nat, ss: seq<seq<byte>>, ts: seq<seq<byte>>)
    requires Vector(mem, table, ss) && Vector(mem, table, ts)
    ensures ss == ts
  {
    if table != 0 {
      if |ss| < |ts| {
        PointedFrom(mem, table, ts, |ss|);
      } else if |ts| < |ss| {
        PointedFrom(mem, table, ss, |ts|);
      } else {
        PointedUnique(mem, table, ss, ts);
      }
    }
  }
}
