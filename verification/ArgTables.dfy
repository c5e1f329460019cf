/** `coff_mktables` and `xout_create_tables`: pointer tables over the strings of the new stack. */
module ArgTables {
  import opened Words
  import opened Memory

  // ---------------------------------------------------------------- addresses of strings

  /** Where string `j` starts if the strings lie back to back from `q` on. */
  function AddressOf(q: nat, ss: seq<seq<byte>>, j: nat): (a: nat)
    requires j <= |ss|
    ensures q <= a
  {
    if j == 0 then q else AddressOf(q, ss, j - 1) + |ss[j - 1]|
  }

  lemma {:induction false} AddressOfRest(q: nat, ss: seq<seq<byte>>, j: nat)
    requires 0 < j <= |ss|
    ensures AddressOf(q, ss, j) == AddressOf(q + |ss[0]|, ss[1..], j - 1)
  {
    if j > 1 {
      AddressOfRest(q, ss, j - 1);
      assert ss[1..][j - 2] == ss[j - 1];
    }
  }

  /** The last address is the end of the joined strings. */
  lemma {:induction false} AddressOfEnd(q: nat, ss: seq<seq<byte>>)
    ensures AddressOf(q, ss, |ss|) == q + |Join(ss)|
    decreases |ss|
  {
    if ss != [] {
      AddressOfRest(q, ss, |ss|);
      AddressOfEnd(q + |ss[0]|, ss[1..]);
    }
  }

  lemma {:induction false} StringAt(mem: Space, q: nat, ss: seq<seq<byte>>, j: nat)
    requires Has(mem, q, Join(ss)) && j < |ss|
    ensures Has(mem, AddressOf(q, ss, j), ss[j])
    ensures AddressOf(q, ss, j) + |ss[j]| <= q + |Join(ss)|
    decreases |ss|
  {
    HasParts(mem, q, ss[0], Join(ss[1..]));
    if j > 0 {
      AddressOfRest(q, ss, j);
      StringAt(mem, q + |ss[0]|, ss[1..], j - 1);
    }
  }

  // ---------------------------------------------------------------- tables

  lemma SlotsApart(table: nat, i: nat, j: nat)
    requires i < j
    ensures SlotAt(table, i) + POINTER_SIZE <= SlotAt(table, j)
  {
    assert (j - i - 1) * POINTER_SIZE >= 0;
  }

  /** The first `n` slots hold the addresses of the first `n` strings. */
  ghost predicate Filled(mem: Space, table: nat, ss: seq<seq<byte>>, q: nat, n: nat)
    requires n <= |ss|
  {
    forall j :: 0 <= j < n ==> SlotFilled(mem, table, ss, q, j)
  }

  ghost predicate SlotFilled(mem: Space, table: nat, ss: seq<seq<byte>>, q: nat, j: nat)
    requires j < |ss|
  {
    WordIs(mem, SlotAt(table, j), AddressOf(q, ss, j))
  }

  /** A finished table: an address for each string, then NULL. */
  ghost predicate TableOf(mem: Space, table: nat, ss: seq<seq<byte>>, q: nat)
  {
    Filled(mem, table, ss, q, |ss|) && WordIs(mem, SlotAt(table, |ss|), 0)
  }

  /** Outside the addresses from `lo` to `hi` memory is the same. */
  ghost predicate SameOutside(before: Space, after: Space, lo: nat, hi: nat)
  {
    && (forall a :: !(lo <= a < hi) ==> (a in before <==> a in after))
    && (forall a :: a in before && !(lo <= a < hi) ==> after[a] == before[a])
  }

  lemma SameTwice(before: Space, middle: Space, after: Space, lo: nat, mid: nat, hi: nat)
    requires lo <= mid <= hi && SameOutside(before, middle, lo, mid) && SameOutside(middle, after, mid, hi)
    ensures SameOutside(before, after, lo, hi)
  {}

  lemma HasOutside(before: Space, after: Space, lo: nat, hi: nat, a: nat, s: seq<byte>)
    requires SameOutside(before, after, lo, hi) && Has(before, a, s) && (a + |s| <= lo || hi <= a)
    ensures Has(after, a, s)
  {}

  lemma WordOutside(before: Space, after: Space, lo: nat, hi: nat, a: nat, v: nat)
    requires SameOutside(before, after, lo, hi) && WordIs(before, a, v) && (a + POINTER_SIZE <= lo || hi <= a)
    ensures WordIs(after, a, v)
  {
    assert Fetch(after, a, POINTER_SIZE) == Fetch(before, a, POINTER_SIZE);
  }

  lemma TableOutside(before: Space, after: Space, lo: nat, hi: nat, table: nat, ss: seq<seq<byte>>, q: nat)
    requires SameOutside(before, after, lo, hi) && TableOf(before, table, ss, q)
    requires SlotAt(table, |ss| + 1) <= lo || hi <= table
    ensures TableOf(after, table, ss, q)
  {
    SlotNext(table, |ss|);
    WordOutside(before, after, lo, hi, SlotAt(table, |ss|), 0);
    forall j | 0 <= j < |ss| ensures SlotFilled(after, table, ss, q, j) {
      assert SlotFilled(before, table, ss, q, j);
      SlotsApart(table, j, |ss|);
      WordOutside(before, after, lo, hi, SlotAt(table, j), AddressOf(q, ss, j));
    }
  }

  lemma StoreOutside(before: Space, mem: Space, lo: nat, hi: nat, a: nat, v: nat)
    requires SameOutside(before, mem, lo, hi) && v < WordValues(POINTER_SIZE) && lo <= a && a + POINTER_SIZE <= hi
    ensures SameOutside(before, StoreWord(mem, a, v), lo, hi)
  {}

  lemma FilledStep(mem: Space, table: nat, ss: seq<seq<byte>>, q: nat, n: nat)
    requires n < |ss| && Filled(mem, table, ss, q, n) && AddressOf(q, ss, n) < WordValues(POINTER_SIZE)
    ensures Filled(StoreWord(mem, SlotAt(table, n), AddressOf(q, ss, n)), table, ss, q, n + 1)
  {
    var v := AddressOf(q, ss, n);
    var mem' := StoreWord(mem, SlotAt(table, n), v);
    forall j | 0 <= j < n + 1 ensures SlotFilled(mem', table, ss, q, j) {
      if j < n {
        assert SlotFilled(mem, table, ss, q, j);
        SlotsApart(table, j, n);
        WordElsewhere(mem, SlotAt(table, n), v, SlotAt(table, j), AddressOf(q, ss, j));
      }
    }
  }

  lemma FilledRest(mem: Space, table: nat, ss: seq<seq<byte>>, q: nat)
    requires ss != [] && Filled(mem, table, ss, q, |ss|)
    ensures Filled(mem, table + POINTER_SIZE, ss[1..], q + |ss[0]|, |ss| - 1)
  {
    var table', q', rest := table + POINTER_SIZE, q + |ss[0]|, ss[1..];
    forall j | 0 <= j < |rest| ensures SlotFilled(mem, table', rest, q', j) {
      SlotNext(table, j);
      AddressOfRest(q, ss, j + 1);
      assert SlotFilled(mem, table, ss, q, j + 1);
    }
  }

  /** A filled table whose strings are in place is a vector of these strings. */
  lemma {:induction false} TableIsVector(mem: Space, table: nat, ss: seq<seq<byte>>, q: nat)
    requires TableOf(mem, table, ss, q) && Has(mem, q, Join(ss)) && AllCStrings(ss) && q > 0
    ensures VectorAt(mem, table, ss)
    decreases |ss|
  {
    if ss != [] {
      HasParts(mem, q, ss[0], Join(ss[1..]));
      assert SlotFilled(mem, table, ss, q, 0);
      FilledRest(mem, table, ss, q);
      SlotNext(table, |ss| - 1);
      TableIsVector(mem, table + POINTER_SIZE, ss[1..], q + |ss[0]|);
    }
  }

  /** `strlen_user`: the length of a string with its NUL. */
  method StrlenUser(mem: Space, a: nat, ghost s: seq<byte>) returns (n: nat)
    requires IsCString(s) && Has(mem, a, s)
    ensures n == |s|
  {
    n := 0;
    while mem[a + n] != 0
      invariant n < |s|
      decreases |s| - n
    {
      n := n + 1;
      assert a + n in mem;
    }
    n := n + 1;
  }

  lemma SlotSum(table: nat, i: nat, j: nat)
    ensures SlotAt(table, i + j) == table + SlotAt(0, i) + SlotAt(0, j)
    ensures SlotAt(table, i) == table + SlotAt(0, i)
  {}

  /** Where the tables go: below the strings, aligned, with room for `words` more words. */
  method TablePlaces(p: nat, argc: nat, envc: nat, words: nat) returns (argv: nat, envp: nat)
    requires SlotAt(0, argc + envc + words + 3) <= p
    ensures envp == SlotAt(argv, argc + 1) && SlotAt(envp, envc + 1) <= p < SlotAt(envp, envc + 1) + POINTER_SIZE
    ensures SlotAt(envp, envc + 1) % POINTER_SIZE == 0 && SlotAt(0, words) <= argv
  {
    var sp := AlignDown(p, POINTER_SIZE);
    SlotSum(0, argc + 1, envc + 1);
    SlotSum(0, argc + 1 + (envc + 1), words);
    SlotNext(0, argc + envc + words + 2);
    envp := sp - SlotAt(0, envc + 1);
    argv := envp - SlotAt(0, argc + 1);
    SlotSum(argv, argc + 1, 0);
    SlotSum(envp, envc + 1, 0);
  }

  /** The words under the tables: the count and, unless `ibcs`, pointers to both tables. */
  ghost predicate Header(mem: Space, sp: nat, argc: nat, ibcs: bool, argv: nat, envp: nat)
  {
    && WordIs(mem, sp, argc)
    && if ibcs then sp + POINTER_SIZE == argv
       else && sp + POINTER_SIZE + POINTER_SIZE + POINTER_SIZE == argv
            && WordIs(mem, sp + POINTER_SIZE, argv)
            && WordIs(mem, sp + POINTER_SIZE + POINTER_SIZE, envp)
  }

  lemma HeaderOutside(before: Space, after: Space, hi: nat, sp: nat, argc: nat, ibcs: bool, argv: nat, envp: nat)
    requires SameOutside(before, after, argv, hi) && Header(before, sp, argc, ibcs, argv, envp)
    ensures Header(after, sp, argc, ibcs, argv, envp)
  {
    WordOutside(before, after, argv, hi, sp, argc);
    if !ibcs {
      WordOutside(before, after, argv, hi, sp + POINTER_SIZE, argv);
      WordOutside(before, after, argv, hi, sp + POINTER_SIZE + POINTER_SIZE, envp);
    }
  }

  /** The argument count, the two tables and the strings of a new program, lowest first. */
  ghost predicate Tables(mem: Space, argv: nat, envp: nat, p: nat, args: seq<seq<byte>>, envs: seq<seq<byte>>)
  {
    && envp == SlotAt(argv, |args| + 1) && SlotAt(envp, |envs| + 1) <= p
    && VectorAt(mem, argv, args) && VectorAt(mem, envp, envs)
    && Has(mem, p, Join(args) + Join(envs))
  }

  /** The new program's memory and what `mm_struct` notes of its argument area. */
  class Process {
    var mem: Space
    var argStart: nat
    var argEnd: nat
    var envStart: nat
    var envEnd: nat

    constructor (mem: Space)
      ensures this.mem == mem
    {
      this.mem := mem;
      argStart, argEnd, envStart, envEnd := 0, 0, 0, 0;
    }

    /** Stores the next pointer and steps over the string it points to. */
    method FillSlot(table: nat, i: nat, p: nat, ghost ss: seq<seq<byte>>, ghost q: nat, ghost before: Space, ghost hi: nat)
      returns (p': nat)
      requires i < |ss| && AllCStrings(ss) && p == AddressOf(q, ss, i) && Filled(mem, table, ss, q, i)
      requires Has(before, q, Join(ss)) && SlotAt(table, |ss|) <= hi <= q && q + |Join(ss)| < WordValues(POINTER_SIZE)
      requires SameOutside(before, mem, table, hi)
      modifies `mem
      ensures p' == AddressOf(q, ss, i + 1) && Filled(mem, table, ss, q, i + 1) && SameOutside(before, mem, table, hi)
    {
      StringAt(before, q, ss, i);
      FilledStep(mem, table, ss, q, i);
      SlotsApart(table, i, |ss|);
      StoreOutside(before, mem, table, hi, SlotAt(table, i), p);
      mem := StoreWord(mem, SlotAt(table, i), p);
      HasOutside(before, mem, table, hi, p, ss[i]);
      var n := StrlenUser(mem, p, ss[i]);
      p' := p + n;
    }

    /** Points `n` slots and a NULL at the strings that start at `q`; returns where they end. */
    method FillTable(table: nat, n: nat, q: nat, ghost ss: seq<seq<byte>>) returns (p: nat)
      requires n == |ss| && AllCStrings(ss) && Has(mem, q, Join(ss))
      requires SlotAt(table, n + 1) <= q && q + |Join(ss)| < WordValues(POINTER_SIZE)
      modifies `mem
      ensures p == q + |Join(ss)| && TableOf(mem, table, ss, q)
      ensures SameOutside(old(mem), mem, table, SlotAt(table, n + 1))
    {
      ghost var before, hi := mem, SlotAt(table, n + 1);
      SlotsApart(table, n, n + 1);
      p := q;
      var i := 0;
      while i < n
        invariant i <= n && p == AddressOf(q, ss, i) && Filled(mem, table, ss, q, i)
        invariant SameOutside(before, mem, table, hi)
      {
        p := FillSlot(table, i, p, ss, q, before, hi);
        i := i + 1;
      }
      AddressOfEnd(q, ss);
      FinishTable(before, mem, table, ss, q);
      mem := StoreWord(mem, SlotAt(table, n), 0);
    }

    /** The second table, below the strings that the first one points to. */
    method FillEnvs(argv: nat, envp: nat, envc: nat, q: nat, ghost p: nat,
                    ghost args: seq<seq<byte>>, ghost envs: seq<seq<byte>>, ghost before: Space)
      returns (end: nat)
      requires envc == |envs| && AllCStrings(args) && AllCStrings(envs) && 0 < p && q == p + |Join(args)|
      requires q + |Join(envs)| < WordValues(POINTER_SIZE) && Has(before, p, Join(args) + Join(envs))
      requires envp == SlotAt(argv, |args| + 1) && SlotAt(envp, envc + 1) <= p
      requires SameOutside(before, mem, argv, envp) && TableOf(mem, argv, args, p)
      modifies `mem
      ensures end == q + |Join(envs)| && Tables(mem, argv, envp, p, args, envs)
      ensures SameOutside(before, mem, argv, SlotAt(envp, envc + 1))
    {
      ghost var middle := mem;
      HasParts(before, p, Join(args), Join(envs));
      HasOutside(before, mem, argv, envp, q, Join(envs));
      end := FillTable(envp, envc, q, envs);
      TablesDone(before, middle, mem, argv, envp, SlotAt(envp, envc + 1), p, args, envs);
    }

    /** The walk over all strings that fills both tables and delimits arguments and environment. */
    method FillTables(argv: nat, envp: nat, argc: nat, envc: nat, p: nat, ghost args: seq<seq<byte>>, ghost envs: seq<seq<byte>>)
      requires argc == |args| && envc == |envs| && AllCStrings(args) && AllCStrings(envs)
      requires 0 < p && p + |Join(args) + Join(envs)| < WordValues(POINTER_SIZE)
      requires Has(mem, p, Join(args) + Join(envs))
      requires envp == SlotAt(argv, argc + 1) && SlotAt(envp, envc + 1) <= p
      modifies this
      ensures Tables(mem, argv, envp, p, args, envs) && SameOutside(old(mem), mem, argv, SlotAt(envp, envc + 1))
      ensures argStart == p && argEnd == envStart == p + |Join(args)| && envEnd == argEnd + |Join(envs)|
    {
      ghost var before := mem;
      HasParts(mem, p, Join(args), Join(envs));
      argStart := p;
      var q := FillTable(argv, argc, p, args);
      argEnd, envStart := q, q;
      envEnd := FillEnvs(argv, envp, envc, q, p, args, envs, before);
    }

    /** `put_user(v, --sp)` below the strings. */
    method PushWord(sp: nat, v: nat, ghost p: nat, ghost data: seq<byte>) returns (sp': nat)
      requires POINTER_SIZE <= sp <= p && v < WordValues(POINTER_SIZE) && Has(mem, p, data)
      modifies `mem
      ensures sp' + POINTER_SIZE == sp && WordIs(mem, sp', v)
      ensures Has(mem, p, data) && SameOutside(old(mem), mem, sp', sp)
    {
      sp' := sp - POINTER_SIZE;
      StoreElsewhere(mem, sp', Encode(v, POINTER_SIZE), p, data);
      mem := StoreWord(mem, sp', v);
    }

    method PushHeader(argv: nat, envp: nat, argc: nat, ibcs: bool, ghost p: nat, ghost data: seq<byte>) returns (sp: nat)
      requires POINTER_SIZE + POINTER_SIZE + POINTER_SIZE <= argv <= p && Has(mem, p, data)
      requires argc < WordValues(POINTER_SIZE) && argv < WordValues(POINTER_SIZE) && envp < WordValues(POINTER_SIZE)
      modifies `mem
      ensures Header(mem, sp, argc, ibcs, argv, envp) && Has(mem, p, data)
    {
      sp := argv;
      if !ibcs {
        sp := PushWord(sp, envp, p, data);
        ghost var first := mem;
        sp := PushWord(sp, argv, p, data);
        WordOutside(first, mem, sp, sp + POINTER_SIZE, sp + POINTER_SIZE, envp);
      }
      ghost var before := mem;
      sp := PushWord(sp, argc, p, data);
      if !ibcs {
        var above := sp + POINTER_SIZE;
        WordOutside(before, mem, sp, above, above, argv);
        WordOutside(before, mem, sp, above, above + POINTER_SIZE, envp);
      }
    }

    /** `coff_mktables` */
    method CoffTables(p: nat, argc: nat, envc: nat, ghost args: seq<seq<byte>>, ghost envs: seq<seq<byte>>)
      returns (sp: nat, argv: nat)
      requires argc == |args| && envc == |envs| && AllCStrings(args) && AllCStrings(envs)
      requires Has(mem, p, Join(args) + Join(envs)) && p + |Join(args) + Join(envs)| < WordValues(POINTER_SIZE)
      requires argc < WordValues(POINTER_SIZE) && SlotAt(0, argc + envc + 4) <= p
      modifies this
      ensures var envp := SlotAt(argv, argc + 1);
              Header(mem, sp, argc, true, argv, envp) && Tables(mem, argv, envp, p, args, envs)
      ensures argStart == p && argEnd == envStart == p + |Join(args)| && envEnd == argEnd + |Join(envs)|
    {
      var envp;
      argv, envp := TablePlaces(p, argc, envc, 1);
      sp := PushWord(argv, argc, p, Join(args) + Join(envs));
      ghost var before := mem;
      FillTables(argv, envp, argc, envc, p, args, envs);
      HeaderOutside(before, mem, SlotAt(envp, envc + 1), sp, argc, true, argv, envp);
    }

    /** `xout_create_tables`: as above, with pointers to both tables unless the program is an iBCS one. */
    method XoutTables(p: nat, argc: nat, envc: nat, ibcs: bool, ghost args: seq<seq<byte>>, ghost envs: seq<seq<byte>>)
      returns (sp: nat, argv: nat)
      requires argc == |args| && envc == |envs| && AllCStrings(args) && AllCStrings(envs)
      requires Has(mem, p, Join(args) + Join(envs)) && p + |Join(args) + Join(envs)| < WordValues(POINTER_SIZE)
      requires argc < WordValues(POINTER_SIZE) && SlotAt(0, argc + envc + 6) <= p
      modifies this
      ensures var envp := SlotAt(argv, argc + 1);
              Header(mem, sp, argc, ibcs, argv, envp) && Tables(mem, argv, envp, p, args, envs)
      ensures argStart == p && argEnd == envStart == p + |Join(args)| && envEnd == argEnd + |Join(envs)|
    {
      var envp;
      argv, envp := TablePlaces(p, argc, envc, 3);
      assert SlotAt(0, 3) == POINTER_SIZE + POINTER_SIZE + POINTER_SIZE;
      sp := PushHeader(argv, envp, argc, ibcs, p, Join(args) + Join(envs));
      ghost var before := mem;
      FillTables(argv, envp, argc, envc, p, args, envs);
      HeaderOutside(before, mem, SlotAt(envp, envc + 1), sp, argc, ibcs, argv, envp);
    }
  }

  lemma FilledKeeps(mem: Space, table: nat, ss: seq<seq<byte>>, q: nat, slot: nat, v: nat)
    requires Filled(mem, table, ss, q, |ss|) && slot == SlotAt(table, |ss|) && v < WordValues(POINTER_SIZE)
    ensures Filled(StoreWord(mem, slot, v), table, ss, q, |ss|)
  {
    var mem' := StoreWord(mem, slot, v);
    forall j | 0 <= j < |ss| ensures SlotFilled(mem', table, ss, q, j) {
      assert SlotFilled(mem, table, ss, q, j);
      SlotsApart(table, j, |ss|);
      WordElsewhere(mem, slot, v, SlotAt(table, j), AddressOf(q, ss, j));
    }
  }

  lemma SecondVector(mem: Space, envp: nat, p: nat, args: seq<seq<byte>>, envs: seq<seq<byte>>)
    requires Has(mem, p, Join(args) + Join(envs)) && AllCStrings(envs) && 0 < p && TableOf(mem, envp, envs, p + |Join(args)|)
    ensures VectorAt(mem, envp, envs)
  {
    HasParts(mem, p, Join(args), Join(envs));
    TableIsVector(mem, envp, envs, p + |Join(args)|);
  }

  lemma FirstVector(mem: Space, argv: nat, p: nat, args: seq<seq<byte>>, envs: seq<seq<byte>>)
    requires Has(mem, p, Join(args) + Join(envs)) && AllCStrings(args) && 0 < p && TableOf(mem, argv, args, p)
    ensures VectorAt(mem, argv, args)
  {
    HasParts(mem, p, Join(args), Join(envs));
    TableIsVector(mem, argv, args, p);
  }

  lemma BothVectors(mem: Space, argv: nat, envp: nat, p: nat, args: seq<seq<byte>>, envs: seq<seq<byte>>)
    requires envp == SlotAt(argv, |args| + 1) && SlotAt(envp, |envs| + 1) <= p && 0 < p
    requires Has(mem, p, Join(args) + Join(envs)) && AllCStrings(args) && AllCStrings(envs)
    requires TableOf(mem, argv, args, p) && TableOf(mem, envp, envs, p + |Join(args)|)
    ensures Tables(mem, argv, envp, p, args, envs)
  {
    FirstVector(mem, argv, p, args, envs);
    SecondVector(mem, envp, p, args, envs);
  }

  lemma TablesDone(before: Space, middle: Space, mem: Space, argv: nat, envp: nat, top: nat, p: nat,
                   args: seq<seq<byte>>, envs: seq<seq<byte>>)
    requires envp == SlotAt(argv, |args| + 1) && top == SlotAt(envp, |envs| + 1) <= p && 0 < p
    requires Has(before, p, Join(args) + Join(envs)) && AllCStrings(args) && AllCStrings(envs)
    requires SameOutside(before, middle, argv, envp) && SameOutside(middle, mem, envp, top)
    requires TableOf(middle, argv, args, p) && TableOf(mem, envp, envs, p + |Join(args)|)
    ensures Tables(mem, argv, envp, p, args, envs) && SameOutside(before, mem, argv, top)
  {
    TableOutside(middle, mem, envp, top, argv, args, p);
    SameTwice(before, middle, mem, argv, envp, top);
    HasOutside(before, mem, argv, top, p, Join(args) + Join(envs));
    BothVectors(mem, argv, envp, p, args, envs);
  }

  /** The NULL behind the pointers. */
  lemma FinishTable(before: Space, mem: Space, table: nat, ss: seq<seq<byte>>, q: nat)
    requires Filled(mem, table, ss, q, |ss|)
    requires SameOutside(before, mem, table, SlotAt(table, |ss| + 1))
    ensures var mem' := StoreWord(mem, SlotAt(table, |ss|), 0);
            TableOf(mem', table, ss, q) && SameOutside(before, mem', table, SlotAt(table, |ss| + 1))
  {
    var slot, hi := SlotAt(table, |ss|), SlotAt(table, |ss| + 1);
    SlotNext(table, |ss|);
    StoreOutside(before, mem, table, hi, slot, 0);
    FilledKeeps(mem, table, ss, q, slot, 0);
  }
}
