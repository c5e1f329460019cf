/** `do_execve` from the caller's `argv` and `envp` to those of the new program. */
module ExecArgs {
  import opened Words
  import opened Memory
  import opened ArgVectors
  import opened ArgImage
  import opened ArgPages
  import opened ArgPlacement
  import opened ArgTables

  lemma {:induction false} PointedStrings(mem: Space, table: nat, ss: seq<seq<byte>>)
    requires Pointed(mem, table, ss)
    ensures AllCStrings(ss)
    decreases |ss|
  {
    if ss != [] {
      PointedStrings(mem, table + POINTER_SIZE, ss[1..]);
      assert forall i :: 0 < i < |ss| ==> ss[i] == ss[1..][i - 1];
    }
  }

  lemma VectorStrings(mem: Space, table: nat, ss: seq<seq<byte>>)
    requires Vector(mem, table, ss)
    ensures AllCStrings(ss)
  {
    if table != 0 {
      PointedStrings(mem, table, ss);
    }
  }

  /** Enough for both tables and what goes below them. */
  function TableRoom(): nat
  {
    2 * Total() + EXTRA_STACK_VM_PAGES * PAGE_SIZE
  }

  /** No table of `n` pointers is larger than the argument area. */
  lemma TableFits(argc: nat, envc: nat)
    requires argc <= Room() / POINTER_SIZE && envc <= Room() / POINTER_SIZE
    ensures SlotAt(0, argc + envc + 4) <= SlotAt(0, argc + envc + 6) <= SlotAt(0, argc + envc + 9) <= TableRoom() && argc <= Total()
  {
    DivisionFacts(Room(), POINTER_SIZE);
    var q := Room() / POINTER_SIZE;
    assert (q - argc) * POINTER_SIZE >= 0 && (q - envc) * POINTER_SIZE >= 0;
    assert (argc + envc + 9) * POINTER_SIZE == argc * POINTER_SIZE + envc * POINTER_SIZE + 9 * POINTER_SIZE;
  }

  /** The new stack before the tables are built. */
  ghost predicate Staged(mem: Space, p: nat, exec: nat, args: seq<seq<byte>>, envs: seq<seq<byte>>, name: seq<byte>)
  {
    && Has(mem, p, Join(args) + Join(envs)) && Has(mem, exec, name) && IsCString(name)
    && exec == p + |Join(args) + Join(envs)|
  }

  lemma StagedStrings(mem: Space, base: nat, f: Image, low: nat, p: nat, args: seq<seq<byte>>, envs: seq<seq<byte>>, name: seq<byte>)
    requires Shown(mem, base, f) && Laid(f, low, p, Join(args) + (Join(envs) + name)) && IsCString(name)
    ensures Staged(mem, base + p, base + (Room() - |name|), args, envs, name)
  {
    ShownStrings(mem, base, f, low, p, Join(args) + (Join(envs) + name));
    Regroup(Join(args), Join(envs), name);
    HasParts(mem, base + p, Join(args) + Join(envs), name);
  }

  /** Puts the strings gathered in `b` on the new stack. */
  method PlaceArgs(b: Binprm, stackTop: nat, shift: nat, noVma: bool, ghost low: nat,
                   ghost args: seq<seq<byte>>, ghost envs: seq<seq<byte>>, ghost name: seq<byte>)
    returns (r: Status, child: Space)
    requires b.Valid() && Laid(b.flat, low, b.p, Join(args) + (Join(envs) + name)) && IsCString(name)
    requires b.exec == Room() - |name|
    requires stackTop % PAGE_SIZE == 0 && TableRoom() + Total() + shift <= stackTop
    modifies b`p, b`exec, b`flat, b.page
    ensures r == Ok ==> Staged(child, b.p, b.exec, args, envs, name) && b.exec + |name| <= stackTop
    ensures TableRoom() <= b.p
    ensures r == if noVma then Enomem else Ok
  {
    ghost var flat, p := b.flat, b.p;
    var base, vmStart, vmEnd;
    r, base, vmStart, vmEnd, child := SetupGrowsDown(b, stackTop, shift, noVma);
    if r == Ok {
      StagedStrings(child, base, flat, low, p, args, envs, name);
    }
  }

  /** What the new program finds on its stack is what the caller passed. */
  ghost predicate Passed(mem: Space, argv: nat, envp: nat, child: Process, table: nat,
                         args: seq<seq<byte>>, envs: seq<seq<byte>>)
    reads child
  {
    && Vector(mem, argv, args) && Vector(mem, envp, envs)
    && Tables(child.mem, table, SlotAt(table, |args| + 1), child.argStart, args, envs)
    && child.argEnd == child.envStart == child.argStart + |Join(args)|
    && child.envEnd == child.argEnd + |Join(envs)|
  }

  /** Gathers the strings and puts them on the new stack. */
  method StageArgs(b: Binprm, kernel: Space, nameSlot: nat, mem: Space, argv: nat, envp: nat, stackTop: nat, shift: nat, noVma: bool)
    returns (r: Status, child: Space, ghost args: seq<seq<byte>>, ghost envs: seq<seq<byte>>, ghost name: seq<byte>)
    requires b.Valid() && Stands(b.flat, Total(), b.p, [], true) && b.p == Room() && !WordIs(kernel, nameSlot, 0)
    requires stackTop % PAGE_SIZE == 0 && TableRoom() + Total() + shift <= stackTop
    modifies b, b.page, b.frames
    ensures r == Ok ==> FitsWith(kernel, nameSlot, mem, argv, envp, args, envs, name)
    ensures r == Ok ==> Staged(child, b.p, b.exec, args, envs, name) && b.exec + |name| <= stackTop
    ensures r == Ok ==> b.argc == |args| && b.envc == |envs| && b.argc <= Total()
    ensures r == Ok ==> SlotAt(0, b.argc + b.envc + 4) <= SlotAt(0, b.argc + b.envc + 6) <= b.p
    ensures r.Denied() ==> !Fits(kernel, nameSlot, mem, argv, envp)
    ensures r == Enomem ==> noVma || old(b.Slack()) < 0
    ensures r == Ok ==> !noVma
  {
    ghost var low;
    child := map[];
    r, low, args, envs, name := b.PrepareArgs(kernel, nameSlot, mem, argv, envp);
    if r == Ok {
      TableFits(b.argc, b.envc);
      r, child := PlaceArgs(b, stackTop, shift, noVma, low, args, envs, name);
    }
  }

  /** `execve` of a COFF program, up to its stack. */
  method ExecCoff(b: Binprm, kernel: Space, nameSlot: nat, mem: Space, argv: nat, envp: nat, stackTop: nat, shift: nat, noVma: bool)
    returns (r: Status, child: Process, sp: nat, table: nat, ghost args: seq<seq<byte>>, ghost envs: seq<seq<byte>>)
    requires b.Valid() && Stands(b.flat, Total(), b.p, [], true) && b.p == Room() && !WordIs(kernel, nameSlot, 0)
    requires stackTop % PAGE_SIZE == 0 && TableRoom() + Total() + shift <= stackTop
    requires stackTop < WordValues(POINTER_SIZE)
    modifies b, b.page, b.frames
    ensures r == Ok ==> Header(child.mem, sp, |args|, true, table, SlotAt(table, |args| + 1))
    ensures r == Ok ==> Passed(mem, argv, envp, child, table, args, envs)
    ensures r.Denied() ==> !Fits(kernel, nameSlot, mem, argv, envp)
    ensures r == Enomem ==> noVma || old(b.Slack()) < 0
    ensures old(b.Slack()) >= 0 ==> (r == Ok <==> Fits(kernel, nameSlot, mem, argv, envp) && !noVma)
  {
    var space;
    ghost var name;
    r, space, args, envs, name := StageArgs(b, kernel, nameSlot, mem, argv, envp, stackTop, shift, noVma);
    child := new Process(space);
    sp, table := 0, 0;
    if r == Ok {
      VectorStrings(mem, argv, args);
      VectorStrings(mem, envp, envs);
      sp, table := child.CoffTables(b.p, b.argc, b.envc, args, envs);
    }
  }

  /** `execve` of an x.out program, up to its stack. */
  method ExecXout(b: Binprm, kernel: Space, nameSlot: nat, mem: Space, argv: nat, envp: nat, stackTop: nat, shift: nat, noVma: bool, ibcs: bool)
    returns (r: Status, child: Process, sp: nat, table: nat, ghost args: seq<seq<byte>>, ghost envs: seq<seq<byte>>)
    requires b.Valid() && Stands(b.flat, Total(), b.p, [], true) && b.p == Room() && !WordIs(kernel, nameSlot, 0)
    requires stackTop % PAGE_SIZE == 0 && TableRoom() + Total() + shift <= stackTop
    requires stackTop < WordValues(POINTER_SIZE)
    modifies b, b.page, b.frames
    ensures r == Ok ==> Header(child.mem, sp, |args|, ibcs, table, SlotAt(table, |args| + 1))
    ensures r == Ok ==> Passed(mem, argv, envp, child, table, args, envs)
    ensures r.Denied() ==> !Fits(kernel, nameSlot, mem, argv, envp)
    ensures r == Enomem ==> noVma || old(b.Slack()) < 0
    ensures old(b.Slack()) >= 0 ==> (r == Ok <==> Fits(kernel, nameSlot, mem, argv, envp) && !noVma)
  {
    var space;
    ghost var name;
    r, space, args, envs, name := StageArgs(b, kernel, nameSlot, mem, argv, envp, stackTop, shift, noVma);
    child := new Process(space);
    sp, table := 0, 0;
    if r == Ok {
      VectorStrings(mem, argv, args);
      VectorStrings(mem, envp, envs);
      sp, table := child.XoutTables(b.p, b.argc, b.envc, ibcs, args, envs);
    }
  }

  // ---------------------------------------------------------------- scripts

  function Tail(args: seq<seq<byte>>): (r: seq<seq<byte>>)
    ensures |r| <= |args|
  {
    if args == [] then [] else args[1..]
  }

  /** A script loader passes on the interpreter, its argument if there is one, and the script. */
  const SCRIPT_STRINGS := 3

  lemma TailParts(args: seq<seq<byte>>, rest: seq<byte>)
    requires args != []
    ensures Join(args) + rest == args[0] + (Join(Tail(args)) + rest)
  {
    Regroup(args[0], Join(Tail(args)), rest);
  }

  /** `remove_arg_zero` with all arguments in view. */
  method RemoveFirst(b: Binprm, ghost low: nat, ghost args: seq<seq<byte>>, ghost rest: seq<byte>)
    requires b.Valid() && b.argc == |args| && AllCStrings(args) && Laid(b.flat, low, b.p, Join(args) + rest)
    modifies b`p, b`argc
    ensures b.Valid() && b.argc == |Tail(args)| && b.p + |Join(Tail(args))| == old(b.p) + |Join(args)|
    ensures Laid(b.flat, low, b.p, Join(Tail(args)) + rest)
  {
    if args != [] {
      TailParts(args, rest);
    }
    b.RemoveArgZero(low, if args == [] then [] else args[0], Join(Tail(args)) + rest);
  }

  lemma DeniedAll(mem: Space, table: nat, n: nat, ss: seq<seq<byte>>, room: nat, r: Status, top: nat)
    requires r.Denied() && |ss| < n && Pointed(mem, SlotAt(table, n - |ss|), ss) && room + |Join(ss)| == top
    requires Refused(mem, SlotAt(table, n - |ss| - 1), room, r)
    ensures forall ts :: |ts| == n && Pointed(mem, table, ts) ==> |Join(ts)| > top
  {
    forall ts | |ts| == n && Pointed(mem, table, ts) ensures |Join(ts)| > top {
      DeniedStrings(mem, table, ss, room, r, ts);
    }
  }

  /** `copy_strings_kernel` of `n` strings in front of `data`. */
  method CopyKernel(b: Binprm, kernel: Space, table: nat, n: nat, ghost low: nat, ghost data: seq<byte>)
    returns (r: Status, ghost low': nat, ghost ss: seq<seq<byte>>)
    requires b.Valid() && Laid(b.flat, low, b.p, data) && NoneNull(kernel, table, n)
    modifies b, b.page, b.frames
    ensures b.Valid() && b.argc == old(b.argc) && b.envc == old(b.envc) && b.exec == old(b.exec)
    ensures fresh(b.frames - old(b.frames)) && b.Slack() == old(b.Slack())
    ensures r == Ok ==> |ss| == n && Pointed(kernel, table, ss) && Laid(b.flat, low', b.p, Join(ss) + data)
    ensures r.Denied() ==> forall ts :: |ts| == n && Pointed(kernel, table, ts) ==> |Join(ts)| > old(b.p)
    ensures r == Enomem ==> b.Slack() < 0
  {
    ghost var slot, room;
    ghost var top := b.p;
    r, low', ss, slot, room := b.CopyStrings(kernel, table, n, low, data, false);
    if r.Denied() {
      DeniedAll(kernel, table, n, ss, room, r, top);
    }
  }

  /**
    What a script loader does with the strings: the first argument goes, if there is one, and `n` others
    take its place, again without gaps.
   */
  method ReplaceArgZero(b: Binprm, kernel: Space, table: nat, n: nat, ghost low: nat, ghost args: seq<seq<byte>>, ghost rest: seq<byte>)
    returns (r: Status, ghost low': nat, ghost ss: seq<seq<byte>>)
    requires b.Valid() && b.argc == |args| && AllCStrings(args) && Laid(b.flat, low, b.p, Join(args) + rest) && NoneNull(kernel, table, n)
    modifies b, b.page, b.frames
    ensures b.Valid() && b.envc == old(b.envc) && b.exec == old(b.exec)
    ensures fresh(b.frames - old(b.frames)) && b.Slack() == old(b.Slack())
    ensures r == Ok ==> |ss| == n && Pointed(kernel, table, ss) && Laid(b.flat, low', b.p, Join(ss + Tail(args)) + rest)
    ensures b.argc == |Tail(args)| + if r == Ok then n else 0
    ensures r.Denied() ==> forall ts :: |ts| == n && Pointed(kernel, table, ts) ==> |Join(ts)| + |Join(Tail(args))| > old(b.p) + |Join(args)|
    ensures r == Enomem ==> b.Slack() < 0
  {
    RemoveFirst(b, low, args, rest);
    r, low', ss := CopyKernel(b, kernel, table, n, low, Join(Tail(args)) + rest);
    if r == Ok {
      b.argc := b.argc + n;
      JoinConcat(ss, Tail(args));
      Regroup(Join(ss), Join(Tail(args)), rest);
    }
  }

  /** The strings of a script: those of the caller fit, and those that the loader makes of them. */
  ghost predicate ScriptFitsWith(kernel: Space, nameSlot: nat, mem: Space, argv: nat, envp: nat, table: nat, n: nat,
                                 args: seq<seq<byte>>, envs: seq<seq<byte>>, name: seq<byte>, ss: seq<seq<byte>>)
  {
    && FitsWith(kernel, nameSlot, mem, argv, envp, args, envs, name) && |ss| == n && Pointed(kernel, table, ss)
    && |Join(ss)| + |Join(Tail(args))| + |Join(envs)| + |name| <= Room()
  }

  ghost predicate ScriptFits(kernel: Space, nameSlot: nat, mem: Space, argv: nat, envp: nat, table: nat, n: nat)
  {
    exists args, envs, name, ss :: ScriptFitsWith(kernel, nameSlot, mem, argv, envp, table, n, args, envs, name, ss)
  }

  lemma ScriptOverflow(kernel: Space, nameSlot: nat, mem: Space, argv: nat, envp: nat, table: nat, n: nat,
                       args: seq<seq<byte>>, envs: seq<seq<byte>>, name: seq<byte>)
    requires FitsWith(kernel, nameSlot, mem, argv, envp, args, envs, name)
    requires forall ts :: |ts| == n && Pointed(kernel, table, ts) ==> |Join(ts)| + |Join(Tail(args))| + |Join(envs)| + |name| > Room()
    ensures !ScriptFits(kernel, nameSlot, mem, argv, envp, table, n)
  {
    forall args', envs', name', ss ensures !ScriptFitsWith(kernel, nameSlot, mem, argv, envp, table, n, args', envs', name', ss) {
      if ScriptFitsWith(kernel, nameSlot, mem, argv, envp, table, n, args', envs', name', ss) {
        VectorExact(mem, argv, args, args');
        VectorExact(mem, envp, envs, envs');
        SameString(kernel, Decode(Fetch(kernel, nameSlot, POINTER_SIZE)), name, name');
      }
    }
  }

  /** Gathers the caller's strings and makes those of the interpreter of them. */
  method PrepareScript(b: Binprm, kernel: Space, nameSlot: nat, mem: Space, argv: nat, envp: nat, table: nat, n: nat)
    returns (r: Status, ghost low: nat, ghost args: seq<seq<byte>>, ghost envs: seq<seq<byte>>, ghost name: seq<byte>, ghost ss: seq<seq<byte>>)
    requires b.Valid() && Stands(b.flat, Total(), b.p, [], true) && b.p == Room() && !WordIs(kernel, nameSlot, 0) && NoneNull(kernel, table, n)
    modifies b, b.page, b.frames
    ensures b.Valid() && fresh(b.frames - old(b.frames)) && b.Slack() == old(b.Slack())
    ensures r == Ok ==> ScriptFitsWith(kernel, nameSlot, mem, argv, envp, table, n, args, envs, name, ss)
    ensures r == Ok ==> Laid(b.flat, low, b.p, Join(ss + Tail(args)) + (Join(envs) + name)) && b.exec == Room() - |name|
    ensures r == Ok ==> b.argc == |ss + Tail(args)| && b.envc == |envs|
    ensures r.Denied() ==> !ScriptFits(kernel, nameSlot, mem, argv, envp, table, n)
    ensures r == Enomem ==> b.Slack() < 0
  {
    ss := [];
    r, low, args, envs, name := b.PrepareArgs(kernel, nameSlot, mem, argv, envp);
    if r == Ok {
      VectorStrings(mem, argv, args);
      r, low, ss := ReplaceArgZero(b, kernel, table, n, low, args, Join(envs) + name);
      if r == Ok {
        JoinConcat(ss, Tail(args));
      } else if r.Denied() {
        ScriptOverflow(kernel, nameSlot, mem, argv, envp, table, n, args, envs, name);
      }
    }
  }

  lemma ScriptTableFits(argc: nat, envc: nat)
    requires argc <= Room() / POINTER_SIZE + SCRIPT_STRINGS && envc <= Room() / POINTER_SIZE
    ensures SlotAt(0, argc + envc + 4) <= TableRoom() && argc <= Total() + SCRIPT_STRINGS
  {
    TableFits(if argc < SCRIPT_STRINGS then 0 else argc - SCRIPT_STRINGS, envc);
  }

  lemma AllStrings(kernel: Space, strings: nat, ss: seq<seq<byte>>, mem: Space, argv: nat, args: seq<seq<byte>>)
    requires Pointed(kernel, strings, ss) && Vector(mem, argv, args)
    ensures AllCStrings(ss + Tail(args))
  {
    PointedStrings(kernel, strings, ss);
    VectorStrings(mem, argv, args);
  }

  /** Gathers the strings of the interpreter and puts them on the new stack. */
  method StageScript(b: Binprm, kernel: Space, nameSlot: nat, mem: Space, argv: nat, envp: nat, strings: nat, n: nat,
                     stackTop: nat, shift: nat, noVma: bool)
    returns (r: Status, child: Space, ghost all: seq<seq<byte>>,
             ghost args: seq<seq<byte>>, ghost envs: seq<seq<byte>>, ghost ss: seq<seq<byte>>, ghost name: seq<byte>)
    requires b.Valid() && Stands(b.flat, Total(), b.p, [], true) && b.p == Room() && !WordIs(kernel, nameSlot, 0)
    requires n <= SCRIPT_STRINGS && NoneNull(kernel, strings, n)
    requires stackTop % PAGE_SIZE == 0 && TableRoom() + Total() + shift <= stackTop
    modifies b, b.page, b.frames
    ensures r == Ok ==> ScriptFitsWith(kernel, nameSlot, mem, argv, envp, strings, n, args, envs, name, ss) && all == ss + Tail(args)
    ensures r == Ok ==> AllCStrings(all) && AllCStrings(envs)
    ensures r == Ok ==> Staged(child, b.p, b.exec, all, envs, name) && b.exec + |name| <= stackTop
    ensures r == Ok ==> b.argc == |all| && b.envc == |envs| && b.argc <= Total() + SCRIPT_STRINGS
    ensures r == Ok ==> SlotAt(0, b.argc + b.envc + 4) <= b.p
    ensures r.Denied() ==> !ScriptFits(kernel, nameSlot, mem, argv, envp, strings, n)
    ensures r == Enomem ==> noVma || old(b.Slack()) < 0
    ensures r == Ok ==> !noVma
  {
    ghost var low;
    child, all := map[], [];
    r, low, args, envs, name, ss := PrepareScript(b, kernel, nameSlot, mem, argv, envp, strings, n);
    if r == Ok {
      all := ss + Tail(args);
      AllStrings(kernel, strings, ss, mem, argv, args);
      VectorStrings(mem, envp, envs);
      ScriptTableFits(b.argc, b.envc);
      r, child := PlaceArgs(b, stackTop, shift, noVma, low, all, envs, name);
    }
  }

  /** `execve` of a script whose interpreter is a COFF program: what the interpreter finds on its stack. */
  method ExecScript(b: Binprm, kernel: Space, nameSlot: nat, mem: Space, argv: nat, envp: nat, strings: nat, n: nat,
                    stackTop: nat, shift: nat, noVma: bool)
    returns (r: Status, child: Process, sp: nat, table: nat, ghost args: seq<seq<byte>>, ghost envs: seq<seq<byte>>, ghost ss: seq<seq<byte>>)
    requires b.Valid() && Stands(b.flat, Total(), b.p, [], true) && b.p == Room() && !WordIs(kernel, nameSlot, 0)
    requires n <= SCRIPT_STRINGS && NoneNull(kernel, strings, n)
    requires stackTop % PAGE_SIZE == 0 && TableRoom() + Total() + shift <= stackTop
    requires stackTop < WordValues(POINTER_SIZE)
    modifies b, b.page, b.frames
    ensures r == Ok ==> Vector(mem, argv, args) && Vector(mem, envp, envs) && |ss| == n && Pointed(kernel, strings, ss)
    ensures r == Ok ==> Header(child.mem, sp, |ss + Tail(args)|, true, table, SlotAt(table, |ss + Tail(args)| + 1))
    ensures r == Ok ==> Tables(child.mem, table, SlotAt(table, |ss + Tail(args)| + 1), child.argStart, ss + Tail(args), envs)
    ensures r.Denied() ==> !ScriptFits(kernel, nameSlot, mem, argv, envp, strings, n)
    ensures r == Enomem ==> noVma || old(b.Slack()) < 0
    ensures old(b.Slack()) >= 0 ==> (r == Ok <==> ScriptFits(kernel, nameSlot, mem, argv, envp, strings, n) && !noVma)
  {
    var space;
    ghost var all, name;
    r, space, all, args, envs, ss, name := StageScript(b, kernel, nameSlot, mem, argv, envp, strings, n, stackTop, shift, noVma);
    child := new Process(space);
    sp, table := 0, 0;
    if r == Ok {
      sp, table := child.CoffTables(b.p, b.argc, b.envc, all, envs);
    }
  }
}
