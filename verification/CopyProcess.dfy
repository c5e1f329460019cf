/**
  `copy_process`: what a new task acquires stage by stage and what the ladder of cleanup labels
  gives back. Stages and labels carry the same numbers, 0 (the task structure) to 14 (the
  namespace). What is behind a stage in other files enters as the choices of a call.
 */
module CopyProcess {
  import opened Words

  datatype Resource =
    | TaskStruct
    | UserCount | UserProcesses | GroupInfo
    | DomainModule | BinfmtModule
    | Policy | Security | Audit | SemUndo
    | FilesCount | FilesCopy
    | FsCount | FsCopy
    | SighandCount | SighandStruct
    | SignalCount | SignalLive | SignalStruct | GroupKeys
    | MmUsers | MmStruct | PageDirectory | Context | Mappings
    | Keys | Namespace

  /** The clone flags that matter here, the state of the caller and which operations succeed. */
  datatype Choices = Choices(
    newNs: bool, cloneFs: bool, thread: bool, sighand: bool, vm: bool, files: bool,
    hasBinfmt: bool, hasFiles: bool, hasMm: bool,
    allowed: bool, dup: bool, underLimit: bool, threads: bool, domain: bool, binfmt: bool, tid: bool,
    policy: bool, security: bool, audit: bool, semUndo: bool, filesOk: bool, fsOk: bool, sighandOk: bool,
    signalOk: bool, groupKeys: bool, mmOk: bool, pgd: bool, context: bool, mappings: bool,
    keys: bool, namespace: bool, threadRegs: bool, noKill: bool, noGroupExit: bool,
    exitSignalDropsLive: bool)
  {
    predicate FlagsOk()
    {
      !(newNs && cloneFs) && (thread ==> sighand) && (sighand ==> vm)
    }
  }

  /** Whether stage `n` succeeds; 15 are the registers and the last checks. */
  predicate StageOk(c: Choices, n: nat)
  {
    match n
    case 0 => c.allowed && c.dup
    case 1 => c.underLimit
    case 2 => c.threads && c.domain
    case 3 => c.hasBinfmt ==> c.binfmt
    case 4 => c.tid && c.policy
    case 5 => c.security
    case 6 => c.audit
    case 7 => c.semUndo
    case 8 => !c.hasFiles || c.files || c.filesOk
    case 9 => c.cloneFs || c.fsOk
    case 10 => c.sighand || c.thread || c.sighandOk
    case 11 => c.thread || (c.signalOk && c.groupKeys)
    case 12 => !c.hasMm || c.vm || (c.mmOk && c.pgd && c.context && c.mappings)
    case 13 => c.keys
    case 14 => c.namespace
    case _ => c.threadRegs && c.noKill && (c.thread ==> c.noGroupExit)
  }

  /** The stages below `n` succeed. */
  ghost predicate Passed(c: Choices, n: nat)
  {
    forall k: nat :: k < n ==> StageOk(c, k)
  }

  /** Stage `n` is the first that fails. */
  ghost predicate StoppedAt(c: Choices, n: nat)
  {
    n <= 15 && Passed(c, n) && !StageOk(c, n)
  }

  /** What stage `n` acquires when it succeeds, in order. */
  function Group(c: Choices, n: nat): seq<Resource>
  {
    match n
    case 0 => [TaskStruct]
    case 1 => [UserCount, UserProcesses, GroupInfo]
    case 2 => [DomainModule]
    case 3 => if c.hasBinfmt then [BinfmtModule] else []
    case 4 => [Policy]
    case 5 => [Security]
    case 6 => [Audit]
    case 7 => [SemUndo]
    case 8 => if !c.hasFiles then [] else if c.files then [FilesCount] else [FilesCopy]
    case 9 => if c.cloneFs then [FsCount] else [FsCopy]
    case 10 => if c.sighand || c.thread then [SighandCount] else [SighandStruct]
    case 11 => if c.thread then [SignalCount, SignalLive] else [SignalStruct, GroupKeys]
    case 12 => if !c.hasMm then [] else if c.vm then [MmUsers] else [MmStruct, PageDirectory, Context, Mappings]
    case 13 => [Keys]
    case 14 => [Namespace]
    case _ => []
  }

  type Stages = nat -> seq<Resource>

  function Groups(c: Choices): Stages
  {
    (n: nat) => Group(c, n)
  }

  /** Everything the stages below `n` acquire, in order. */
  function Acquired(g: Stages, n: nat): seq<Resource>
  {
    if n == 0 then [] else Acquired(g, n - 1) + g(n - 1)
  }

  function Reverse(s: seq<Resource>): seq<Resource>
  {
    if s == [] then [] else Reverse(s[1..]) + [s[0]]
  }

  lemma {:induction false} ReverseConcat(a: seq<Resource>, b: seq<Resource>)
    ensures Reverse(a + b) == Reverse(b) + Reverse(a)
  {
    if a == [] {
      assert a + b == b;
    } else {
      assert (a + b)[1..] == a[1..] + b;
      ReverseConcat(a[1..], b);
    }
  }

  /** Reversing keeps every resource as often as it was there. */
  lemma {:induction false} ReverseSame(s: seq<Resource>)
    ensures multiset(Reverse(s)) == multiset(s)
  {
    if s != [] {
      ReverseSame(s[1..]);
      assert s == [s[0]] + s[1..];
    }
  }

  // ---------------------------------------------------------------- the ladder

  /** What the code at label `n` gives back, in order. */
  function Undo(c: Choices, n: nat): seq<Resource>
  {
    match n
    case 14 => [Namespace]
    case 13 => [Keys]
    case 12 => if !c.hasMm then [] else if c.vm then [MmUsers] else [Mappings, PageDirectory, Context, MmStruct]
    case 11 =>
      if !c.thread then [GroupKeys, SignalStruct]
      else (if c.exitSignalDropsLive then [SignalLive] else []) + [SignalCount]
    case 10 => if c.sighand || c.thread then [SighandCount] else [SighandStruct]
    case 9 => if c.cloneFs then [FsCount] else [FsCopy]
    case 8 => if !c.hasFiles then [] else if c.files then [FilesCount] else [FilesCopy]
    case 7 => [SemUndo]
    case 6 => [Audit]
    case 5 => [Security]
    case 4 => [Policy]
    case 3 => if c.hasBinfmt then [BinfmtModule] else []
    case 2 => [DomainModule]
    case 1 => [GroupInfo, UserProcesses, UserCount]
    case 0 => [TaskStruct]
    case _ => []
  }

  /** The labels from `from` down to `to`, one falling into the next. */
  function Undone(u: Stages, from: nat, to: nat): seq<Resource>
    decreases from + 1 - to
  {
    if from < to then [] else Undone(u, from, to + 1) + u(to)
  }

  function Undos(c: Choices): Stages
  {
    (n: nat) => Undo(c, n)
  }

  /** Labels that give back what their stages acquired, up to `lost`, do so together. */
  lemma {:induction false} LadderTally(g: Stages, u: Stages, lost: nat -> multiset<Resource>, from: nat, to: nat)
    requires to <= from + 1 && forall n: nat :: to <= n <= from ==> multiset(u(n)) + lost(n) == multiset(g(n))
    ensures multiset(Undone(u, from, to)) + LostSum(lost, from, to) + multiset(Acquired(g, to)) == multiset(Acquired(g, from + 1))
    decreases from + 1 - to
  {
    if to <= from {
      LadderTally(g, u, lost, from, to + 1);
      Rebalance(Undone(u, from, to + 1), u(to), Acquired(g, to), g(to), LostSum(lost, from, to + 1), lost(to),
                multiset(Acquired(g, from + 1)));
    }
  }

  lemma Rebalance(above: seq<Resource>, undo: seq<Resource>, below: seq<Resource>, group: seq<Resource>,
                  lost: multiset<Resource>, here: multiset<Resource>, all: multiset<Resource>)
    requires multiset(above) + lost + multiset(below + group) == all && multiset(undo) + here == multiset(group)
    ensures multiset(above + undo) + (lost + here) + multiset(below) == all
  {}

  function LostSum(lost: nat -> multiset<Resource>, from: nat, to: nat): multiset<Resource>
    decreases from + 1 - to
  {
    if from < to then multiset{} else LostSum(lost, from, to + 1) + lost(to)
  }

  /** Labels that reverse their stages reverse the whole. */
  lemma {:induction false} LadderOrder(g: Stages, u: Stages, from: nat, to: nat)
    requires to <= from + 1 && forall n: nat :: to <= n <= from ==> u(n) == Reverse(g(n))
    ensures Undone(u, from, to) + Reverse(Acquired(g, to)) == Reverse(Acquired(g, from + 1))
    decreases from + 1 - to
  {
    if to <= from {
      LadderOrder(g, u, from, to + 1);
      ReverseConcat(Acquired(g, to), g(to));
      Regroup(Undone(u, from, to + 1), u(to), Reverse(Acquired(g, to)));
    } else {
      assert Undone(u, from, to) == [];
    }
  }

  lemma Rev1(a: Resource)
    ensures Reverse([a]) == [a]
  {
    assert [a][1..] == [];
  }

  lemma Rev2(a: Resource, b: Resource)
    ensures Reverse([a, b]) == [b, a]
  {
    Rev1(a);
    Rev1(b);
    ReverseConcat([a], [b]);
    assert [a] + [b] == [a, b];
  }

  lemma Rev4(a: Resource, b: Resource, d: Resource, e: Resource)
    ensures Reverse([a, b, d, e]) == [e, d, b, a]
  {
    Rev2(a, b);
    Rev2(d, e);
    ReverseConcat([a, b], [d, e]);
    assert [a, b] + [d, e] == [a, b, d, e];
  }

  lemma CountsReverse(c: Choices)
    ensures Undo(c, 1) == Reverse(Group(c, 1))
  {
    Rev1(UserCount);
    Rev2(UserProcesses, GroupInfo);
    ReverseConcat([UserCount], [UserProcesses, GroupInfo]);
    assert [UserCount] + [UserProcesses, GroupInfo] == [UserCount, UserProcesses, GroupInfo];
  }

  /** `exit_signal` gives back the use of the signal structure but not the count of live threads. */
  predicate Leaks(c: Choices, from: nat)
  {
    from >= 11 && c.thread && !c.exitSignalDropsLive
  }

  lemma SignalReverses(c: Choices)
    ensures !Leaks(c, 11) ==> Undo(c, 11) == Reverse(Group(c, 11))
    ensures Leaks(c, 11) ==> Reverse(Group(c, 11)) == [SignalLive] + Undo(c, 11)
  {
    Rev2(SignalCount, SignalLive);
    Rev2(SignalStruct, GroupKeys);
  }

  /** `__mmdrop` frees the page directory before the context, which was made after it. */
  predicate SwapsMm(c: Choices, from: nat)
  {
    from >= 12 && c.hasMm && !c.vm
  }

  /** Each label undoes its stage backwards. */
  lemma UndoReverses(c: Choices, n: nat)
    requires n <= 14 && n != 11 && (n == 12 ==> !SwapsMm(c, n))
    ensures Undo(c, n) == Reverse(Group(c, n))
  {
    if n == 1 {
      CountsReverse(c);
    } else if |Group(c, n)| == 1 {
      Rev1(Group(c, n)[0]);
    }
  }

  /** What label `n` does not give back. */
  function LostAt(c: Choices, n: nat): multiset<Resource>
  {
    if n == 11 && Leaks(c, n) then multiset{SignalLive} else multiset{}
  }

  /** Each label gives back what its stage acquired, save for a leak. */
  lemma UndoSame(c: Choices, n: nat)
    requires n <= 14
    ensures multiset(Undo(c, n)) + LostAt(c, n) == multiset(Group(c, n))
  {
    if n == 11 {
      SignalReverses(c);
      ReverseSame(Group(c, 11));
    } else if n == 12 && SwapsMm(c, n) {
      MmSame(c);
    } else {
      UndoReverses(c, n);
      ReverseSame(Group(c, n));
    }
  }

  lemma MmSame(c: Choices)
    requires c.hasMm && !c.vm
    ensures multiset(Undo(c, 12)) == multiset(Group(c, 12))
  {}

  function Losses(c: Choices): nat -> multiset<Resource>
  {
    (n: nat) => LostAt(c, n)
  }

  lemma {:induction false} LostTotal(c: Choices, from: nat, to: nat)
    ensures LostSum(Losses(c), from, to) == if Leaks(c, from) && to <= 11 then multiset{SignalLive} else multiset{}
    decreases from + 1 - to
  {
    if to <= from {
      LostTotal(c, from, to + 1);
      var one, none := multiset{SignalLive}, multiset{};
      assert one + none == one && none + one == one && none + none == none;
    }
  }

  /** The ladder gives back everything that was acquired, each once, if and only if nothing leaks. */
  lemma LadderConserves(c: Choices, from: nat)
    requires from <= 14
    ensures var back, taken := multiset(Undone(Undos(c), from, 0)), multiset(Acquired(Groups(c), from + 1));
            back + (if Leaks(c, from) then multiset{SignalLive} else multiset{}) == taken && (back == taken <==> !Leaks(c, from))
  {
    forall n: nat | 0 <= n <= from ensures multiset(Undos(c)(n)) + Losses(c)(n) == multiset(Groups(c)(n)) {
      UndoSame(c, n);
    }
    LadderTally(Groups(c), Undos(c), Losses(c), from, 0);
    LostTotal(c, from, 0);
    var back, taken := multiset(Undone(Undos(c), from, 0)), multiset(Acquired(Groups(c), from + 1));
    assert Leaks(c, from) ==> back[SignalLive] + 1 == taken[SignalLive];
  }

  // ---------------------------------------------------------------- order

  /** Labels above the signal stage, or all of them if nothing leaks and no address space was copied. */
  lemma LadderFrom(c: Choices, from: nat, to: nat)
    requires from <= 14 && to <= from + 1 && (!Leaks(c, from) || to > 11) && (!SwapsMm(c, from) || to > 12)
    ensures Undone(Undos(c), from, to) + Reverse(Acquired(Groups(c), to)) == Reverse(Acquired(Groups(c), from + 1))
  {
    forall n: nat | to <= n <= from ensures Undos(c)(n) == Reverse(Groups(c)(n)) {
      if n == 11 {
        SignalReverses(c);
      } else {
        UndoReverses(c, n);
      }
    }
    LadderOrder(Groups(c), Undos(c), from, to);
  }

  /** Latest first, unless something leaks or the address space was copied. */
  lemma LadderReverses(c: Choices, from: nat)
    requires from <= 14
    ensures Undone(Undos(c), from, 0) == Reverse(Acquired(Groups(c), from + 1)) <==> !Leaks(c, from) && !SwapsMm(c, from)
  {
    if Leaks(c, from) {
      LadderConserves(c, from);
      ReverseSame(Acquired(Groups(c), from + 1));
    } else if SwapsMm(c, from) {
      MmSwapped(c, from);
    } else {
      LadderFrom(c, from, 0);
      assert Undone(Undos(c), from, 0) + [] == Undone(Undos(c), from, 0);
    }
  }

  lemma {:induction false} UndonePrefix(u: Stages, from: nat, to: nat, mid: nat)
    requires to <= mid
    ensures Undone(u, from, mid) <= Undone(u, from, to)
    decreases mid - to
  {
    if to < mid && to <= from {
      UndonePrefix(u, from, to + 1, mid);
    }
  }

  /** A stage undone in another order than backwards shows in the whole. */
  lemma StageShows(g: Stages, u: Stages, from: nat, n: nat)
    requires n <= from && forall k: nat :: n < k <= from ==> u(k) == Reverse(g(k))
    requires |u(n)| > 1 && |Reverse(g(n))| > 1 && u(n)[1] != Reverse(g(n))[1]
    ensures Undone(u, from, 0) != Reverse(Acquired(g, from + 1))
  {
    LadderOrder(g, u, from, n + 1);
    ReverseConcat(Acquired(g, n), g(n));
    UndonePrefix(u, from, 0, n);
    OrdersPart(Undone(u, from, 0), Undone(u, from, n + 1), u(n), Reverse(g(n)), Reverse(Acquired(g, n)));
  }

  /** Right behind the mappings the two orders part. */
  lemma MmSwapped(c: Choices, from: nat)
    requires from <= 14 && SwapsMm(c, from)
    ensures Undone(Undos(c), from, 0) != Reverse(Acquired(Groups(c), from + 1))
  {
    forall k: nat | 12 < k <= from ensures Undos(c)(k) == Reverse(Groups(c)(k)) {
      UndoReverses(c, k);
    }
    Rev4(MmStruct, PageDirectory, Context, Mappings);
    StageShows(Groups(c), Undos(c), from, 12);
  }

  lemma OrdersPart(whole: seq<Resource>, above: seq<Resource>, s: seq<Resource>, t: seq<Resource>, below: seq<Resource>)
    requires above + s <= whole && |s| > 1 && |t| > 1 && s[1] != t[1]
    ensures whole != above + (t + below)
  {
    assert whole[|above| + 1] == (above + s)[|above| + 1] == s[1];
    assert (above + (t + below))[|above| + 1] == t[1];
  }

  // ---------------------------------------------------------------- the function

  /** `dup_mmap` fails, and `mmput` takes down an address space that has its context already. */
  predicate DropsMm(c: Choices)
  {
    c.hasMm && !c.vm && c.mmOk && c.pgd && c.context && !c.mappings
  }

  /** What stage `n` takes before it fails, in order. */
  function Tried(c: Choices, n: nat): seq<Resource>
  {
    if n == 11 && !c.thread && c.signalOk && !c.groupKeys then [SignalStruct]
    else if n == 12 && c.hasMm && !c.vm && c.mmOk then
      if !c.pgd then [MmStruct]
      else if !c.context then [MmStruct, PageDirectory]
      else if !c.mappings then [MmStruct, PageDirectory, Context]
      else []
    else []
  }

  /** What it has given back itself by then. */
  function TriedBack(c: Choices, n: nat): seq<Resource>
  {
    if n == 12 && DropsMm(c) then [PageDirectory, Context, MmStruct]
    else if n == 12 && c.hasMm && !c.vm && c.mmOk && c.pgd && !c.context then [PageDirectory, MmStruct]
    else Tried(c, n)
  }

  lemma Rotated(a: Resource, b: Resource, d: Resource)
    requires b != d
    ensures multiset([b, d, a]) == multiset([a, b, d]) && [b, d, a] != Reverse([a, b, d])
  {
    Rev1(a);
    Rev2(b, d);
    ReverseConcat([a], [b, d]);
    assert [a] + [b, d] == [a, b, d] && [b, d] + [a] == [b, d, a];
    assert ([d, b] + [a])[0] == d;
  }

  lemma Swapped(a: Resource, b: Resource)
    ensures multiset([b, a]) == multiset([a, b]) && [b, a] == Reverse([a, b])
  {
    Rev2(a, b);
    assert [a] + [b] == [a, b] && [b] + [a] == [b, a];
  }

  lemma TriedReverses(c: Choices, n: nat)
    ensures multiset(TriedBack(c, n)) == multiset(Tried(c, n)) && |TriedBack(c, n)| == |Tried(c, n)|
    ensures TriedBack(c, n) == Reverse(Tried(c, n)) <==> !(n == 12 && DropsMm(c))
  {
    var s := Tried(c, n);
    if n == 12 && DropsMm(c) {
      Rotated(MmStruct, PageDirectory, Context);
    } else if |s| == 2 {
      Swapped(MmStruct, PageDirectory);
    } else if |s| == 1 {
      Rev1(s[0]);
    }
  }

  datatype Outcome = Started | Invalid | Refused | Unwound(entry: nat)

  class Fork {
    /** Everything acquired and everything given back so far. */
    var acquired: seq<Resource>
    var released: seq<Resource>

    constructor ()
      ensures acquired == [] && released == []
    {
      acquired, released := [], [];
    }

    /** One label of the ladder: passed if the jump went there or above. */
    method Rung(c: Choices, entry: nat, n: nat, given: seq<Resource>, ghost before: seq<Resource>)
      requires given == Undo(c, n) && released == before + Undone(Undos(c), entry, n + 1)
      modifies `released
      ensures released == before + Undone(Undos(c), entry, n)
    {
      if entry >= n {
        released := released + given;
        Regroup(before, Undone(Undos(c), entry, n + 1), given);
      }
    }

    method UnwindCopies(c: Choices, entry: nat, ghost before: seq<Resource>)
      requires entry <= 14 && released == before
      modifies `released
      ensures released == before + Undone(Undos(c), entry, 8)
    {
      assert Undone(Undos(c), entry, 15) == [];
      Rung(c, entry, 14, [Namespace], before);
      Rung(c, entry, 13, [Keys], before);
      var mm := if !c.hasMm then [] else if c.vm then [MmUsers] else [Mappings, PageDirectory, Context, MmStruct];
      Rung(c, entry, 12, mm, before);
      var signal := if !c.thread then [GroupKeys, SignalStruct]
                    else (if c.exitSignalDropsLive then [SignalLive] else []) + [SignalCount];
      Rung(c, entry, 11, signal, before);
      Rung(c, entry, 10, if c.sighand || c.thread then [SighandCount] else [SighandStruct], before);
      Rung(c, entry, 9, if c.cloneFs then [FsCount] else [FsCopy], before);
      Rung(c, entry, 8, if !c.hasFiles then [] else if c.files then [FilesCount] else [FilesCopy], before);
    }

    /** The cleanup labels, entered at `entry` and falling through to the end. */
    method Unwind(c: Choices, entry: nat)
      requires entry <= 14
      modifies `released
      ensures released == old(released) + Undone(Undos(c), entry, 0)
    {
      ghost var before := released;
      UnwindCopies(c, entry, before);
      Rung(c, entry, 7, [SemUndo], before);
      Rung(c, entry, 6, [Audit], before);
      Rung(c, entry, 5, [Security], before);
      Rung(c, entry, 4, [Policy], before);
      Rung(c, entry, 3, if c.hasBinfmt then [BinfmtModule] else [], before);
      Rung(c, entry, 2, [DomainModule], before);
      Rung(c, entry, 1, [GroupInfo, UserProcesses, UserCount], before);
      Rung(c, entry, 0, [TaskStruct], before);
    }

    /** A stage done: `taken` is what it acquired. */
    method Take(c: Choices, n: nat, taken: seq<Resource>)
      requires taken == Group(c, n) && acquired == Acquired(Groups(c), n) && Passed(c, n) && StageOk(c, n)
      modifies `acquired
      ensures acquired == Acquired(Groups(c), n + 1) && Passed(c, n + 1)
    {
      acquired := acquired + taken;
    }

    /** Up to the memory policy. `entry` is -1 if there is nothing to clean up. */
    method Begin(c: Choices) returns (more: bool, entry: int)
      requires acquired == []
      modifies `acquired
      ensures more ==> entry == 4 && acquired == Acquired(Groups(c), 5) && Passed(c, 5)
      ensures !more ==> -1 <= entry <= 3 && acquired == Acquired(Groups(c), entry + 1) && StoppedAt(c, entry + 1)
    {
      more, entry := false, -1;
      if c.allowed && c.dup {
        Take(c, 0, [TaskStruct]);
        entry := 0;
        if c.underLimit {
          Take(c, 1, [UserCount, UserProcesses, GroupInfo]);
          entry := 1;
          if c.threads && c.domain {
            Take(c, 2, [DomainModule]);
            entry := 2;
            if c.hasBinfmt ==> c.binfmt {
              Take(c, 3, if c.hasBinfmt then [BinfmtModule] else []);
              entry := 3;
              if c.tid && c.policy {
                Take(c, 4, [Policy]);
                more, entry := true, 4;
              }
            }
          }
        }
      }
    }

    /** From the security blob to the file system information. */
    method CopyFirst(c: Choices) returns (more: bool, entry: nat)
      requires acquired == Acquired(Groups(c), 5) && Passed(c, 5)
      modifies `acquired
      ensures more ==> acquired == Acquired(Groups(c), 10) && Passed(c, 10)
      ensures !more ==> 4 <= entry <= 8 && acquired == Acquired(Groups(c), entry + 1) && StoppedAt(c, entry + 1)
    {
      more, entry := false, 4;
      if c.security {
        Take(c, 5, [Security]);
        entry := 5;
        if c.audit {
          Take(c, 6, [Audit]);
          entry := 6;
          if c.semUndo {
            Take(c, 7, [SemUndo]);
            entry := 7;
            if !c.hasFiles || c.files || c.filesOk {
              Take(c, 8, if !c.hasFiles then [] else if c.files then [FilesCount] else [FilesCopy]);
              entry := 8;
              if c.cloneFs || c.fsOk {
                Take(c, 9, if c.cloneFs then [FsCount] else [FsCopy]);
                more := true;
              }
            }
          }
        }
      }
    }

    /** `copy_signal`; if it fails it has given back itself what it took. */
    method CopySignal(c: Choices) returns (ok: bool)
      requires acquired == Acquired(Groups(c), 11) && Passed(c, 11)
      modifies this
      ensures (ok <==> StageOk(c, 11)) && (ok ==> Passed(c, 12))
      ensures ok ==> acquired == Acquired(Groups(c), 12) && released == old(released)
      ensures !ok ==> acquired == old(acquired) + Tried(c, 11) && released == old(released) + TriedBack(c, 11)
    {
      if c.thread {
        Take(c, 11, [SignalCount, SignalLive]);
        ok := true;
      } else if !c.signalOk {
        ok := false;
      } else if !c.groupKeys {
        acquired := acquired + [SignalStruct];
        released := released + [SignalStruct];
        ok := false;
      } else {
        Take(c, 11, [SignalStruct, GroupKeys]);
        ok := true;
      }
    }

    /** `copy_mm` with its own error exits. */
    method CopyMm(c: Choices) returns (ok: bool)
      requires acquired == Acquired(Groups(c), 12) && Passed(c, 12)
      modifies this
      ensures (ok <==> StageOk(c, 12)) && (ok ==> Passed(c, 13))
      ensures ok ==> acquired == Acquired(Groups(c), 13) && released == old(released)
      ensures !ok ==> acquired == old(acquired) + Tried(c, 12) && released == old(released) + TriedBack(c, 12)
    {
      ok := false;
      if !c.hasMm {
        Take(c, 12, []);
        ok := true;
      } else if c.vm {
        Take(c, 12, [MmUsers]);
        ok := true;
      } else if c.mmOk {
        if !c.pgd {
          acquired := acquired + [MmStruct];
          released := released + [MmStruct];
        } else if !c.context {
          acquired := acquired + [MmStruct, PageDirectory];
          released := released + [PageDirectory, MmStruct];
        } else if !c.mappings {
          acquired := acquired + [MmStruct, PageDirectory, Context];
          released := released + [PageDirectory, Context, MmStruct];
        } else {
          Take(c, 12, [MmStruct, PageDirectory, Context, Mappings]);
          ok := true;
        }
      }
    }

    /** From the signal handlers to the point of no return. */
    method CopySecond(c: Choices) returns (more: bool, entry: nat)
      requires acquired == Acquired(Groups(c), 10) && Passed(c, 10) && released == []
      modifies this
      ensures more ==> acquired == Acquired(Groups(c), 15) && released == [] && Passed(c, 16)
      ensures !more ==> 9 <= entry <= 14 && StoppedAt(c, entry + 1)
      ensures !more ==> acquired == Acquired(Groups(c), entry + 1) + Tried(c, entry + 1)
      ensures !more ==> released == TriedBack(c, entry + 1)
    {
      more, entry := false, 9;
      if c.sighand || c.thread || c.sighandOk {
        Take(c, 10, if c.sighand || c.thread then [SighandCount] else [SighandStruct]);
        more, entry := CopyThird(c);
      } else {
        NothingTried(c, 10, acquired);
      }
    }

    /** From the signal structure on. */
    method CopyThird(c: Choices) returns (more: bool, entry: nat)
      requires acquired == Acquired(Groups(c), 11) && Passed(c, 11) && released == []
      modifies this
      ensures more ==> acquired == Acquired(Groups(c), 15) && released == [] && Passed(c, 16)
      ensures !more ==> 10 <= entry <= 14 && StoppedAt(c, entry + 1)
      ensures !more ==> acquired == Acquired(Groups(c), entry + 1) + Tried(c, entry + 1)
      ensures !more ==> released == TriedBack(c, entry + 1)
    {
      more, entry := false, 10;
      var ok := CopySignal(c);
      if ok {
        entry := 11;
        ok := CopyMm(c);
        if ok {
          more, entry := CopyLast(c);
          if !more {
            NothingTried(c, entry + 1, acquired);
          }
        }
      }
    }

    /** Keys, namespace, registers, and the last two checks under the task list lock. */
    method CopyLast(c: Choices) returns (more: bool, entry: nat)
      requires acquired == Acquired(Groups(c), 13) && Passed(c, 13)
      modifies `acquired
      ensures more ==> acquired == Acquired(Groups(c), 15) && Passed(c, 16)
      ensures !more ==> 12 <= entry <= 14 && acquired == Acquired(Groups(c), entry + 1) && StoppedAt(c, entry + 1)
    {
      more, entry := false, 12;
      if c.keys {
        Take(c, 13, [Keys]);
        entry := 13;
        if c.namespace {
          Take(c, 14, [Namespace]);
          entry := 14;
          more := c.threadRegs && c.noKill && (c.thread ==> c.noGroupExit);
        }
      }
    }

    /** All stages; if one fails, the label to jump to and what the failing stage took and gave back itself. */
    method AcquireAll(c: Choices) returns (more: bool, entry: int)
      requires acquired == [] && released == []
      modifies this
      ensures more ==> acquired == Held(c) && released == [] && Passed(c, 16)
      ensures !more ==> -1 <= entry <= 14 && StoppedAt(c, entry + 1)
      ensures !more && entry < 0 ==> acquired == [] && released == []
      ensures !more && entry >= 0 ==> acquired == AllTaken(c, entry) && released == TriedBack(c, entry + 1)
    {
      more, entry := Begin(c);
      if more {
        more, entry := CopyFirst(c);
      }
      if more {
        more, entry := CopySecond(c);
      } else {
        NothingTried(c, entry + 1, acquired);
      }
    }

    /** A stage has failed: the ladder from the label behind it. */
    method GiveUp(c: Choices, entry: nat)
      requires entry <= 14 && acquired == AllTaken(c, entry) && released == TriedBack(c, entry + 1)
      modifies `released
      ensures released == AllGiven(c, entry) && Balanced(acquired, released, Leaks(c, entry))
      ensures released == Reverse(acquired) <==> InOrder(c, entry)
    {
      Unwind(c, entry);
      Settle(c, entry);
      OrderSettled(c, entry);
    }

    /** `copy_process` */
    method CopyProcess(c: Choices) returns (o: Outcome)
      requires acquired == [] && released == []
      modifies this
      ensures o == Started ==> acquired == Held(c) && Distinct(acquired) && released == [] && Passed(c, 16)
      ensures o == Invalid <==> !c.FlagsOk()
      ensures o == Invalid || o == Refused ==> acquired == [] && released == []
      ensures o == Refused ==> StoppedAt(c, 0)
      ensures o.Unwound? ==> o.entry <= 14 && StoppedAt(c, o.entry + 1)
      ensures o.Unwound? ==> acquired == AllTaken(c, o.entry) && released == AllGiven(c, o.entry)
      ensures o.Unwound? ==> Balanced(acquired, released, Leaks(c, o.entry))
      ensures o.Unwound? ==> (released == Reverse(acquired) <==> InOrder(c, o.entry))
    {
      if !c.FlagsOk() {
        o := Invalid;
      } else {
        var more, entry := AcquireAll(c);
        if more {
          HeldOnce(c);
          o := Started;
        } else if entry < 0 {
          o := Refused;
        } else {
          GiveUp(c, entry);
          o := Unwound(entry);
        }
      }
    }
  }

  lemma NothingTried(c: Choices, n: nat, taken: seq<Resource>)
    requires n != 11 && n != 12
    ensures Tried(c, n) == TriedBack(c, n) == [] && taken + Tried(c, n) == taken
  {}

  /** What a started process holds. */
  ghost function Held(c: Choices): seq<Resource>
  {
    Acquired(Groups(c), 15)
  }

  /** What was taken when the stage behind `entry` failed. */
  ghost function AllTaken(c: Choices, entry: nat): seq<Resource>
  {
    Acquired(Groups(c), entry + 1) + Tried(c, entry + 1)
  }

  /** What was given back then: by the stage itself, and by the ladder. */
  ghost function AllGiven(c: Choices, entry: nat): seq<Resource>
  {
    TriedBack(c, entry + 1) + Undone(Undos(c), entry, 0)
  }

  /** Nothing leaks, and no address space with a context is taken down. */
  predicate InOrder(c: Choices, entry: nat)
  {
    !Leaks(c, entry) && !SwapsMm(c, entry) && !(entry == 11 && DropsMm(c))
  }

  /** What was given back is what was acquired, each as often, if and only if nothing leaks. */
  ghost predicate Balanced(acquired: seq<Resource>, released: seq<Resource>, leaks: bool)
  {
    && multiset(released) + (if leaks then multiset{SignalLive} else multiset{}) == multiset(acquired)
    && (multiset(released) == multiset(acquired) <==> !leaks)
  }

  lemma SettleParts(taken: seq<Resource>, took: seq<Resource>, gave: seq<Resource>, undone: seq<Resource>, leaks: bool)
    requires multiset(took) == multiset(gave)
    requires multiset(undone) + (if leaks then multiset{SignalLive} else multiset{}) == multiset(taken)
    ensures Balanced(taken + took, gave + undone, leaks)
  {
    if leaks {
      assert multiset(gave + undone)[SignalLive] + 1 == multiset(taken + took)[SignalLive];
    }
  }

  lemma Settle(c: Choices, entry: nat)
    requires entry <= 14
    ensures Balanced(AllTaken(c, entry), AllGiven(c, entry), Leaks(c, entry))
  {
    LadderConserves(c, entry);
    TriedReverses(c, entry + 1);
    SettleParts(Acquired(Groups(c), entry + 1), Tried(c, entry + 1), TriedBack(c, entry + 1), Undone(Undos(c), entry, 0), Leaks(c, entry));
  }

  /** Everything is given back latest first if and only if nothing leaks and no address space with a context goes. */
  lemma OrderSettled(c: Choices, entry: nat)
    requires entry <= 14
    ensures AllGiven(c, entry) == Reverse(AllTaken(c, entry)) <==> InOrder(c, entry)
  {
    TriedReverses(c, entry + 1);
    LadderReverses(c, entry);
    ReverseConcat(Acquired(Groups(c), entry + 1), Tried(c, entry + 1));
    ReverseLength(Tried(c, entry + 1));
    SameParts(TriedBack(c, entry + 1), Undone(Undos(c), entry, 0), Reverse(Tried(c, entry + 1)), Reverse(Acquired(Groups(c), entry + 1)));
  }

  lemma ReverseLength(s: seq<Resource>)
    ensures |Reverse(s)| == |s|
  {
    ReverseSame(s);
    assert |multiset(Reverse(s))| == |multiset(s)|;
  }

  lemma SameParts(a: seq<Resource>, b: seq<Resource>, a': seq<Resource>, b': seq<Resource>)
    requires |a| == |a'|
    ensures a + b == a' + b' <==> a == a' && b == b'
  {
    if a + b == a' + b' {
      assert a == (a + b)[..|a|] && a' == (a' + b')[..|a|];
      assert b == (a + b)[|a|..] && b' == (a' + b')[|a|..];
    }
  }

  // ---------------------------------------------------------------- held once

  function StageOf(r: Resource): nat
  {
    match r
    case TaskStruct => 0
    case UserCount | UserProcesses | GroupInfo => 1
    case DomainModule => 2
    case BinfmtModule => 3
    case Policy => 4
    case Security => 5
    case Audit => 6
    case SemUndo => 7
    case FilesCount | FilesCopy => 8
    case FsCount | FsCopy => 9
    case SighandCount | SighandStruct => 10
    case SignalCount | SignalLive | SignalStruct | GroupKeys => 11
    case MmUsers | MmStruct | PageDirectory | Context | Mappings => 12
    case Keys => 13
    case Namespace => 14
  }

  ghost predicate Distinct(s: seq<Resource>)
  {
    forall i, j :: 0 <= i < j < |s| ==> s[i] != s[j]
  }

  /** All of stage `n`, no two the same. */
  ghost predicate OneStage(s: seq<Resource>, n: nat)
  {
    Distinct(s) && forall i :: 0 <= i < |s| ==> StageOf(s[i]) == n
  }

  lemma EarlyStages(c: Choices, n: nat)
    requires n < 9
    ensures OneStage(Group(c, n), n)
  {}

  lemma SignalStages(c: Choices, n: nat)
    requires 9 <= n < 12
    ensures OneStage(Group(c, n), n)
  {}

  lemma LateStages(c: Choices, n: nat)
    requires n >= 12
    ensures OneStage(Group(c, n), n)
  {}

  lemma DistinctConcat(a: seq<Resource>, b: seq<Resource>, n: nat)
    requires Distinct(a) && OneStage(b, n) && forall i :: 0 <= i < |a| ==> StageOf(a[i]) < n
    ensures Distinct(a + b) && forall i :: 0 <= i < |a + b| ==> StageOf((a + b)[i]) < n + 1
  {}

  lemma {:induction false} StagesDistinct(g: Stages, n: nat)
    requires forall k: nat :: k < n ==> OneStage(g(k), k)
    ensures var all := Acquired(g, n);
            Distinct(all) && forall i :: 0 <= i < |all| ==> StageOf(all[i]) < n
  {
    if n > 0 {
      StagesDistinct(g, n - 1);
      DistinctConcat(Acquired(g, n - 1), g(n - 1), n - 1);
    }
  }

  /** A new task holds each resource exactly once. */
  lemma HeldOnce(c: Choices)
    ensures Distinct(Held(c))
  {
    forall k: nat | k < 15 ensures OneStage(Groups(c)(k), k) {
      if k < 9 {
        EarlyStages(c, k);
      } else if k < 12 {
        SignalStages(c, k);
      } else {
        LateStages(c, k);
      }
    }
    StagesDistinct(Groups(c), 15);
  }
}
