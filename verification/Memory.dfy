/**
  An address space as the bytes that can be read in it, with C strings, words and the
  NULL-terminated pointer tables that `argv` and `envp` are.
 */
module Memory {
  import opened Words

  type Space = map<nat, byte>

  /** `sizeof(char *)`, left open. */
  const POINTER_SIZE: PointerSize

  type PointerSize = n: nat | n == 4 || n == 8 witness 8

  // ---------------------------------------------------------------- bytes

  ghost predicate Mapped(mem: Space, a: nat, n: nat)
  {
    forall k :: a <= k < a + n ==> k in mem
  }

  function Fetch(mem: Space, a: nat, n: nat): (r: seq<byte>)
    requires Mapped(mem, a, n)
    ensures |r| == n
    ensures forall j :: 0 <= j < n ==> r[j] == mem[a + j]
  {
    seq(n, j requires 0 <= j < n && Mapped(mem, a, n) => mem[a + j])
  }

  /** The bytes of `s` are found at `a`. */
  ghost predicate Has(mem: Space, a: nat, s: seq<byte>)
  {
    forall k :: a <= k < a + |s| ==> k in mem && mem[k] == s[k - a]
  }

  lemma HasFetch(mem: Space, a: nat, s: seq<byte>)
    ensures Has(mem, a, s) <==> Mapped(mem, a, |s|) && Fetch(mem, a, |s|) == s
  {
    if Mapped(mem, a, |s|) && Fetch(mem, a, |s|) == s {
      forall k | a <= k < a + |s| ensures k in mem && mem[k] == s[k - a] {
        assert Fetch(mem, a, |s|)[k - a] == mem[a + (k - a)];
      }
    }
  }

  function StoreBytes(mem: Space, a: nat, s: seq<byte>): (r: Space)
    ensures forall k :: k in r <==> k in mem || a <= k < a + |s|
    ensures forall k :: k in r ==> r[k] == if a <= k < a + |s| then s[k - a] else mem[k]
    decreases |s|
  {
    if s == [] then mem else StoreBytes(mem[a := s[0]], a + 1, s[1..])
  }

  lemma StoreElsewhere(mem: Space, a: nat, s: seq<byte>, b: nat, t: seq<byte>)
    requires Has(mem, b, t) && (b + |t| <= a || a + |s| <= b)
    ensures Has(StoreBytes(mem, a, s), b, t)
  {}

  lemma HasParts(mem: Space, a: nat, s: seq<byte>, t: seq<byte>)
    ensures Has(mem, a, s + t) <==> Has(mem, a, s) && Has(mem, a + |s|, t)
  {
    if Has(mem, a, s + t) {
      forall k | a + |s| <= k < a + |s| + |t| ensures k in mem && mem[k] == t[k - (a + |s|)] {
        assert mem[k] == (s + t)[k - a];
      }
    }
  }

  // ---------------------------------------------------------------- strings

  /** A NUL at the end and nowhere else. */
  predicate IsCString(s: seq<byte>)
  {
    s != [] && s[|s| - 1] == 0 && forall j :: 0 <= j < |s| - 1 ==> s[j] != 0
  }

  predicate AllCStrings(ss: seq<seq<byte>>)
  {
    forall i :: 0 <= i < |ss| ==> IsCString(ss[i])
  }

  /** One address holds at most one C string. */
  lemma SameString(mem: Space, a: nat, s: seq<byte>, t: seq<byte>)
    requires IsCString(s) && IsCString(t) && Has(mem, a, s) && Has(mem, a, t)
    ensures s == t
  {
    var n := if |s| < |t| then |s| else |t|;
    forall j | 0 <= j < n ensures s[j] == t[j] {
      assert a + j in mem;
    }
    assert s[n - 1] == t[n - 1];
  }

  /** The strings back to back, as they lie above the stack pointer. */
  function Join(ss: seq<seq<byte>>): seq<byte>
  {
    if ss == [] then [] else ss[0] + Join(ss[1..])
  }

  lemma {:induction false} JoinConcat(a: seq<seq<byte>>, b: seq<seq<byte>>)
    ensures Join(a + b) == Join(a) + Join(b)
  {
    if a == [] {
      assert a + b == b;
    } else {
      assert (a + b)[1..] == a[1..] + b;
      JoinConcat(a[1..], b);
      Regroup(a[0], Join(a[1..]), Join(b));
    }
  }

  /**
    `strnlen_user`: the length of the string at `a` with its NUL, 0 if a byte cannot be read
    before the NUL is found, and more than `n` if the NUL is not among the first `n` bytes.
   */
  function UserLength(mem: Space, a: nat, n: nat): (r: nat)
    ensures r <= n + 1
    decreases n
  {
    if a !in mem then 0
    else if mem[a] == 0 || n == 0 then 1
    else
      var rest := UserLength(mem, a + 1, n - 1);
      if rest == 0 then 0 else rest + 1
  }

  ghost predicate NoNul(mem: Space, a: nat, n: nat)
  {
    forall k :: a <= k < a + n ==> k in mem && mem[k] != 0
  }

  lemma {:induction false} UserLengthMeaning(mem: Space, a: nat, n: nat)
    ensures var r := UserLength(mem, a, n);
            && (0 < r <= n ==> Mapped(mem, a, r) && IsCString(Fetch(mem, a, r)))
            && (r > n ==> Mapped(mem, a, n + 1) && NoNul(mem, a, n))
            && (r == 0 ==> exists f: nat :: UnreadableAt(mem, a, f) && f <= n)
    decreases n
  {
    if a !in mem {
      assert UnreadableAt(mem, a, 0);
    } else if mem[a] != 0 && n > 0 {
      UserLengthMeaning(mem, a + 1, n - 1);
      var rest := UserLength(mem, a + 1, n - 1);
      if rest == 0 {
        var f: nat :| UnreadableAt(mem, a + 1, f) && f <= n - 1;
        UnreadableLater(mem, a, f);
      } else {
        if rest <= n - 1 {
          assert Fetch(mem, a, rest + 1) == [mem[a]] + Fetch(mem, a + 1, rest);
        }
      }
    }
  }

  /** The first byte that cannot be read is `f` bytes on, and no NUL comes before it. */
  ghost predicate UnreadableAt(mem: Space, a: nat, f: nat)
  {
    a + f !in mem && NoNul(mem, a, f)
  }

  lemma UnreadableLater(mem: Space, a: nat, f: nat)
    requires a in mem && mem[a] != 0 && UnreadableAt(mem, a + 1, f)
    ensures UnreadableAt(mem, a, f + 1)
  {
    assert a + 1 + f == a + (f + 1);
  }

  // ---------------------------------------------------------------- words and tables

  /** `get_user` of a pointer at `a` finds `v`. */
  ghost predicate WordIs(mem: Space, a: nat, v: nat)
  {
    Mapped(mem, a, POINTER_SIZE) && Decode(Fetch(mem, a, POINTER_SIZE)) == v
  }

  /** `put_user` of a pointer. */
  function StoreWord(mem: Space, a: nat, v: nat): (r: Space)
    requires v < WordValues(POINTER_SIZE)
    ensures WordIs(r, a, v)
  {
    var bytes := Encode(v, POINTER_SIZE);
    StoreLoad(v, POINTER_SIZE);
    HasFetch(StoreBytes(mem, a, bytes), a, bytes);
    StoreBytes(mem, a, bytes)
  }

  lemma WordElsewhere(mem: Space, a: nat, v: nat, b: nat, w: nat)
    requires v < WordValues(POINTER_SIZE) && WordIs(mem, b, w)
    requires a + POINTER_SIZE <= b || b + POINTER_SIZE <= a
    ensures WordIs(StoreWord(mem, a, v), b, w)
  {
    HasFetch(mem, b, Fetch(mem, b, POINTER_SIZE));
    StoreElsewhere(mem, a, Encode(v, POINTER_SIZE), b, Fetch(mem, b, POINTER_SIZE));
    HasFetch(StoreWord(mem, a, v), b, Fetch(mem, b, POINTER_SIZE));
  }

  /** The word at `a` is a pointer to the C string `s`. */
  ghost predicate PointsTo(mem: Space, a: nat, s: seq<byte>)
  {
    && IsCString(s) && Mapped(mem, a, POINTER_SIZE)
    && var ptr := Decode(Fetch(mem, a, POINTER_SIZE));
       ptr != 0 && Has(mem, ptr, s)
  }

  /** From `table` on, one pointer after the other leads to the given strings. */
  ghost predicate Pointed(mem: Space, table: nat, ss: seq<seq<byte>>)
    decreases |ss|
  {
    ss == [] || (PointsTo(mem, table, ss[0]) && Pointed(mem, table + POINTER_SIZE, ss[1..]))
  }

  function SlotAt(table: nat, i: nat): (a: nat)
    ensures i == 0 ==> a == table
    ensures a >= table
  {
    table + (if POINTER_SIZE == 4 then 4 * i else 8 * i)
  }

  lemma SlotNext(table: nat, i: nat)
    ensures SlotAt(table, i + 1) == SlotAt(table, i) + POINTER_SIZE == SlotAt(table + POINTER_SIZE, i)
  {}

  /** An `argv` or `envp`: pointers to exactly the strings `ss`, then NULL. */
  ghost predicate VectorAt(mem: Space, table: nat, ss: seq<seq<byte>>)
  {
    Pointed(mem, table, ss) && WordIs(mem, SlotAt(table, |ss|), 0)
  }

  lemma {:induction false} PointedAppend(mem: Space, table: nat, ss: seq<seq<byte>>, s: seq<byte>)
    requires Pointed(mem, table, ss) && PointsTo(mem, SlotAt(table, |ss|), s)
    ensures Pointed(mem, table, ss + [s])
    decreases |ss|
  {
    if ss == [] {
      assert ss + [s] == [s] && [s][1..] == [];
    } else {
      SlotNext(table, |ss| - 1);
      PointedAppend(mem, table + POINTER_SIZE, ss[1..], s);
      assert (ss + [s])[1..] == ss[1..] + [s];
    }
  }
}
