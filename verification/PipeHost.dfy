/**
  The ring with any number of calls on it, which sleep and go on where they were.
  Every operation is a step of `PipeSystem`, so that what holds of its runs holds of the ring.
 */
module PipeHost {
  import opened Words
  import opened PipeModel
  import opened PipeSections
  import opened PipeSystem
  import opened PipeTheorems
  import opened PipeRuns
  import opened UserMemory
  import opened PipeRing

  /** The locals of a call: what is left of its vector, `total_len`, `ret` and `do_wakeup`. */
  datatype Task = Task(writer: bool, u: UserSpace, segs: seq<Iovec>, nonblock: bool, left: nat, moved: nat, wake: bool, phase: Phase)

  function WokenTask(t: Task): Task
  {
    if t.phase.Asleep? then t.(phase := Asleep(true)) else t
  }

  function WakeTasks(tasks: map<nat, Task>, broadcast: bool): map<nat, Task>
  {
    if broadcast then map c | c in tasks :: WokenTask(tasks[c]) else tasks
  }

  ghost predicate UserAt(tasks: map<nat, Task>, users: set<UserSpace>, c: nat)
  {
    c in tasks ==> tasks[c].u in users
  }

  /** The memories that the tasks work on are among `users`. */
  ghost predicate UsersIn(tasks: map<nat, Task>, users: set<UserSpace>)
  {
    forall c: nat :: UserAt(tasks, users, c)
  }

  lemma UsersStay(tasks: map<nat, Task>, users: set<UserSpace>, broadcast: bool, c: nat, t: Task)
    requires UsersIn(tasks, users) && t.u in users
    ensures UsersIn(WakeTasks(tasks, broadcast)[c := t], users) && UsersIn(WakeTasks(tasks, broadcast), users)
  {
    var woken := WakeTasks(tasks, broadcast);
    var tasks' := woken[c := t];
    forall d: nat ensures UserAt(woken, users, d) {
      assert UserAt(tasks, users, d);
    }
    forall d: nat ensures UserAt(tasks', users, d) {
      assert UserAt(woken, users, d);
    }
  }

  /** A reader that is under way goes on behind the `moved` addresses it has filled. */
  ghost predicate Reads(t: Task, call: Call, cells: seq<nat>)
  {
    && call.Reader? && !t.writer && t.nonblock == call.nonblock && t.phase == call.phase
    && t.left == call.want && t.moved == |call.got| && t.wake == call.wake
    && (Running(call) ==> t.moved <= |cells| && Cells(t.segs) == cells[t.moved..] && 0 < t.left == |Cells(t.segs)|)
  }

  /** A writer that is under way goes on with the bytes behind the `moved` that were accepted. */
  ghost predicate Writes(t: Task, call: Call, cells: seq<nat>)
  {
    && call.Writer? && t.writer && t.nonblock == call.nonblock && t.phase == call.phase && t.moved == call.done
    && t.u.Fetch(cells) == call.data
    && (Running(call) ==>
          && t.moved <= |call.data| && t.u.Fetch(Cells(t.segs)) == call.data[t.moved..]
          && 0 < t.left == |call.data| - t.moved && (call.phase.Entering? ==> t.moved == 0))
  }

  ghost predicate MatchAt(tasks: map<nat, Task>, calls: map<nat, Call>, cells: map<nat, seq<nat>>, c: nat)
  {
    c in tasks && c in calls && c in cells ==> Reads(tasks[c], calls[c], cells[c]) || Writes(tasks[c], calls[c], cells[c])
  }

  /** Each task is at the place of its call; `cells` are the addresses the calls started with. */
  ghost predicate AllMatch(tasks: map<nat, Task>, calls: map<nat, Call>, cells: map<nat, seq<nat>>)
  {
    tasks.Keys == calls.Keys == cells.Keys && forall c: nat :: MatchAt(tasks, calls, cells, c)
  }

  /** A new state of task `c`, and waking of the others, on both sides. */
  lemma MatchOthers(tasks: map<nat, Task>, calls: map<nat, Call>, cells: map<nat, seq<nat>>, c: nat, t: Task, call: Call, broadcast: bool)
    requires AllMatch(tasks, calls, cells) && c in tasks && (Reads(t, call, cells[c]) || Writes(t, call, cells[c]))
    ensures AllMatch(WakeTasks(tasks, broadcast)[c := t], Others(calls, broadcast)[c := call], cells)
  {
    var tasks', calls' := WakeTasks(tasks, broadcast)[c := t], Others(calls, broadcast)[c := call];
    forall d: nat ensures MatchAt(tasks', calls', cells, d) {
      assert MatchAt(tasks, calls, cells, d);
    }
  }

  lemma MatchWoken(tasks: map<nat, Task>, calls: map<nat, Call>, cells: map<nat, seq<nat>>)
    requires AllMatch(tasks, calls, cells)
    ensures AllMatch(WakeTasks(tasks, true), WakeAll(calls), cells)
  {
    var tasks', calls' := WakeTasks(tasks, true), WakeAll(calls);
    forall d: nat ensures MatchAt(tasks', calls', cells, d) {
      assert MatchAt(tasks, calls, cells, d);
    }
  }

  lemma MatchStarted(tasks: map<nat, Task>, calls: map<nat, Call>, cells: map<nat, seq<nat>>, c: nat, t: Task, call: Call, all: seq<nat>)
    requires AllMatch(tasks, calls, cells) && c !in tasks && (Reads(t, call, all) || Writes(t, call, all))
    ensures AllMatch(tasks[c := t], calls[c := call], cells[c := all])
  {
    var tasks', calls', cells' := tasks[c := t], calls[c := call], cells[c := all];
    forall d: nat ensures MatchAt(tasks', calls', cells', d) {
      assert MatchAt(tasks, calls, cells, d);
    }
  }

  // ---------------------------------------------------------------- steps

  /** The step that a reader makes, and what it leaves. */
  lemma ReadNext(s: Sys, c: nat, env: Env) returns (r: ReadEnd, call: Call, s': Sys)
    requires Ready(s) && Enabled(s, RunRead(c, env))
    ensures s.calls[c].want > 0 && LiveBufs(s.pipe.bufs)
    ensures r == ReadLoop(s.pipe, s.calls[c].want, s.calls[c].got, s.calls[c].wake, s.calls[c].nonblock, env)
    ensures call == Reader(r.want, r.got, r.wake, s.calls[c].nonblock, PhaseOf(r.out, r.wake))
    ensures Next(s, RunRead(c, env), s') && s'.pipe == r.pipe && s'.calls == Others(s.calls, r.out.Sleep? && r.wake)[c := call]
  {
    r := ReadEndOf(s, c, env);
    ReadLoopMeaning(s.pipe, s.calls[c].want, s.calls[c].got, s.calls[c].wake, s.calls[c].nonblock, env);
    call := Reader(r.want, r.got, r.wake, s.calls[c].nonblock, PhaseOf(r.out, r.wake));
    s' := AfterRead(s, c, r);
  }

  /** What `PipeModel` says about a section of a writer. */
  ghost function WriteSectionOf(p: Pipe, call: Call, env: Env): WriteEnd
    requires LiveBufs(p.bufs) && call.Writer? && call.done < |call.data|
  {
    if call.phase.Entering? then WriteEnter(p, call.data, call.nonblock, env)
    else WriteLoop(p, call.data, call.done, false, call.nonblock, env)
  }

  /** The step that a writer makes, and what it leaves. */
  lemma WriteNext(s: Sys, c: nat, env: Env) returns (r: WriteEnd, call: Call, s': Sys)
    requires Ready(s) && Enabled(s, RunWrite(c, env))
    ensures s.calls[c].done < |s.calls[c].data| && LiveBufs(s.pipe.bufs)
    ensures r == WriteSectionOf(Resumed(s, c), s.calls[c], env)
    ensures call == Writer(s.calls[c].data, r.done, s.calls[c].nonblock, PhaseOf(r.out, r.wake))
    ensures Next(s, RunWrite(c, env), s') && s'.calls == Others(s.calls, r.out.Sleep? && r.wake)[c := call]
    ensures s'.pipe == if r.out.Sleep? then r.pipe.(waiting := r.pipe.waiting + 1) else r.pipe
  {
    r := WriteEndOf(s, c, env);
    RunWriteMeaning(s, c, env);
    call := Writer(s.calls[c].data, r.done, s.calls[c].nonblock, PhaseOf(r.out, r.wake));
    s' := AfterWrite(s, c, r);
  }

  /** `ReadSection` on a vector that is a value. */
  method ReadVector(pipe: PipeInfo, t: Task, signal: bool, ghost before: seq<byte>, ghost r: ReadEnd)
    returns (segs: seq<Iovec>, want: nat, ret: nat, wake: bool, out: Outcome)
    requires pipe.Valid() && LiveBufs(pipe.view) && 0 < t.left == |Cells(t.segs)| && t.moved == |before|
    requires r == ReadLoop(pipe.Abs(), t.left, before, t.wake, t.nonblock, Env(Sound(Cells(t.segs), t.u.bad), signal, 0))
    modifies pipe, pipe.bufs, t.u
    ensures pipe.Valid() && r == ReadEnd(pipe.Abs(), want, r.got, wake, out) && ret == |r.got| && before <= r.got
    ensures Delivered(t.u, old(t.u.stores), Cells(t.segs), r.got[|before|..], false)
    ensures out.Sleep? ==> Cells(segs) == Cells(t.segs)[|r.got| - |before|..] && want == |Cells(segs)| > 0
    ensures pipe.pages <= old(pipe.pages)
  {
    var v := new UserVector(t.segs);
    ghost var got;
    want, ret, wake, out, got := pipe.ReadSection(t.u, v, t.left, t.moved, t.wake, t.nonblock, signal, before);
    segs := v.segs;
  }

  /** One section of a reader; `r` is what `PipeModel` says about it. */
  method ReadOn(pipe: PipeInfo, t: Task, signal: bool, ghost call: Call, ghost all: seq<nat>, ghost r: ReadEnd)
    returns (t': Task, broadcast: bool)
    requires pipe.Valid() && Reads(t, call, all) && Running(call) && LiveBufs(pipe.view)
    requires r == ReadLoop(pipe.Abs(), call.want, call.got, call.wake, call.nonblock, Env(Sound(Cells(t.segs), t.u.bad), signal, 0))
    modifies pipe, pipe.bufs, t.u
    ensures pipe.Valid() && pipe.Abs() == r.pipe && broadcast == (r.out.Sleep? && r.wake)
    ensures Reads(t', Reader(r.want, r.got, r.wake, call.nonblock, PhaseOf(r.out, r.wake)), all)
    ensures |r.got| >= t.moved && Delivered(t.u, old(t.u.stores), all[t.moved..], r.got[t.moved..], false)
    ensures pipe.pages <= old(pipe.pages) && t'.u == t.u
  {
    var segs, want, ret, wake, out := ReadVector(pipe, t, signal, call.got, r);
    t' := t.(segs := segs, left := want, moved := ret, wake := wake, phase := PhaseOf(out, wake));
    broadcast := out.Sleep? && wake;
    if out.Sleep? {
      assert all[t.moved..][ret - t.moved..] == all[ret..];
    }
  }

  /** `WriteEntry` or `WriteSection` on a vector that is a value. */
  method WriteVector(pipe: PipeInfo, t: Task, signal: bool, avail: nat, ghost call: Call, ghost r: WriteEnd)
    returns (segs: seq<Iovec>, left: nat, ret: nat, wake: bool, out: Outcome)
    requires pipe.Valid() && LiveBufs(pipe.view) && call.Writer? && t.phase == call.phase && t.nonblock == call.nonblock
    requires t.moved == call.done < |call.data| && t.u.Fetch(Cells(t.segs)) == call.data[t.moved..]
    requires t.left == |call.data| - t.moved && (call.phase.Entering? ==> t.moved == 0)
    requires r == WriteSectionOf(pipe.Abs(), call, Env(Sound(Cells(t.segs), t.u.bad), signal, avail))
    modifies pipe, pipe.bufs, pipe.pages
    ensures pipe.Valid() && r == WriteEnd(pipe.Abs(), ret, wake, out)
    ensures out.Sleep? ==> ret <= |call.data| && t.u.Fetch(Cells(segs)) == call.data[ret..] && 0 < left == |call.data| - ret
    ensures fresh(pipe.pages - old(pipe.pages))
  {
    var v := new UserVector(t.segs);
    if t.phase.Entering? {
      assert call.data[0..] == call.data;
      left, ret, wake, out := pipe.WriteEntry(t.u, v, t.left, t.nonblock, signal, avail, call.data);
    } else {
      left, ret, wake, out := pipe.WriteSection(t.u, v, t.left, t.moved, false, t.nonblock, signal, avail, call.data);
    }
    segs := v.segs;
  }

  /** One section of a writer, which is counted as waiting while it sleeps. */
  method WriteOn(pipe: PipeInfo, t: Task, signal: bool, avail: nat, ghost call: Call, ghost all: seq<nat>, ghost r: WriteEnd)
    returns (t': Task, broadcast: bool)
    requires pipe.Valid() && Writes(t, call, all) && Running(call) && LiveBufs(pipe.view)
    requires r == WriteSectionOf(pipe.Abs(), call, Env(Sound(Cells(t.segs), t.u.bad), signal, avail))
    modifies pipe, pipe.bufs, pipe.pages
    ensures pipe.Valid() && broadcast == (r.out.Sleep? && r.wake)
    ensures pipe.Abs() == if r.out.Sleep? then r.pipe.(waiting := r.pipe.waiting + 1) else r.pipe
    ensures Writes(t', Writer(call.data, r.done, call.nonblock, PhaseOf(r.out, r.wake)), all)
    ensures fresh(pipe.pages - old(pipe.pages)) && t'.u == t.u
  {
    var segs, left, ret, wake, out := WriteVector(pipe, t, signal, avail, call, r);
    t' := t.(segs := segs, left := left, moved := ret, wake := wake, phase := PhaseOf(out, wake));
    broadcast := out.Sleep? && wake;
    if out.Sleep? {
      pipe.waitingWriters := pipe.waitingWriters + 1;
    }
  }

  /** A reader of the system runs until it leaves or sleeps. */
  method ReadTask(pipe: PipeInfo, t: Task, signal: bool, ghost s: Sys, ghost c: nat, ghost all: seq<nat>, ghost env: Env)
    returns (t': Task, broadcast: bool, ghost call: Call, ghost s': Sys)
    requires pipe.Valid() && s.pipe == pipe.Abs() && Ready(s) && env == Env(Sound(Cells(t.segs), t.u.bad), signal, 0)
    requires c in s.calls && Reads(t, s.calls[c], all) && Enabled(s, RunRead(c, env))
    modifies pipe, pipe.bufs, t.u
    ensures pipe.Valid() && s'.pipe == pipe.Abs() && pipe.pages <= old(pipe.pages) && t'.u == t.u
    ensures Next(s, RunRead(c, env), s') && s'.calls == Others(s.calls, broadcast)[c := call] && Reads(t', call, all)
    ensures t.moved <= |call.got| && Delivered(t.u, old(t.u.stores), all[t.moved..], call.got[t.moved..], false)
  {
    ghost var r;
    r, call, s' := ReadNext(s, c, env);
    t', broadcast := ReadOn(pipe, t, signal, s.calls[c], all, r);
  }

  /** A writer of the system runs until it leaves or sleeps; a sleeping writer is no longer counted as waiting when it goes on. */
  method WriteTask(pipe: PipeInfo, t: Task, signal: bool, avail: nat, ghost s: Sys, ghost c: nat, ghost all: seq<nat>, ghost env: Env)
    returns (t': Task, broadcast: bool, ghost call: Call, ghost s': Sys)
    requires pipe.Valid() && s.pipe == pipe.Abs() && Ready(s) && env == Env(Sound(Cells(t.segs), t.u.bad), signal, avail)
    requires c in s.calls && Writes(t, s.calls[c], all) && Enabled(s, RunWrite(c, env))
    modifies pipe, pipe.bufs, pipe.pages
    ensures pipe.Valid() && s'.pipe == pipe.Abs() && fresh(pipe.pages - old(pipe.pages)) && t'.u == t.u
    ensures Next(s, RunWrite(c, env), s') && s'.calls == Others(s.calls, broadcast)[c := call] && Writes(t', call, all)
  {
    ghost var r;
    r, call, s' := WriteNext(s, c, env);
    if t.phase.Asleep? && pipe.waitingWriters > 0 {
      pipe.waitingWriters := pipe.waitingWriters - 1;
    }
    t', broadcast := WriteOn(pipe, t, signal, avail, s.calls[c], all, r);
  }

  /** Task `c` went on, and others may have been woken. */
  ghost predicate Went(tasks: map<nat, Task>, c: nat, tasks': map<nat, Task>)
  {
    c in tasks && c in tasks' && tasks'[c].u == tasks[c].u && tasks'[c].writer == tasks[c].writer &&
    exists broadcast :: tasks' == WakeTasks(tasks, broadcast)[c := tasks'[c]]
  }

  lemma WentUsers(tasks: map<nat, Task>, c: nat, tasks': map<nat, Task>, users: set<UserSpace>)
    requires UsersIn(tasks, users) && Went(tasks, c, tasks')
    ensures UsersIn(tasks', users)
  {
    var broadcast :| tasks' == WakeTasks(tasks, broadcast)[c := tasks'[c]];
    assert UserAt(tasks, users, c);
    UsersStay(tasks, users, broadcast, c, tasks'[c]);
  }

  /** What can happen to a pipe. */
  datatype Op =
    | DoStart(c: nat, writer: bool, u: UserSpace, segs: seq<Iovec>, nonblock: bool)
    | DoRead(c: nat, signal: bool)
    | DoWrite(c: nat, signal: bool, avail: nat)
    | DoReturn(c: nat)
    | DoOpen(dr: nat, dw: nat)
    | DoClose(dr: nat, dw: nat)

  /** The step is that of the operation; what it finds in memory is left open. */
  ghost predicate Matches(op: Op, st: Step)
  {
    match op
    case DoStart(c, true, u, segs, nonblock) => st == StartWrite(c, u.Fetch(Cells(segs)), nonblock)
    case DoStart(c, false, _, segs, nonblock) => st == StartRead(c, |Cells(segs)|, nonblock)
    case DoRead(c, signal) => st.RunRead? && st.c == c && st.env.signal == signal
    case DoWrite(c, signal, avail) => st.RunWrite? && st.c == c && st.env.signal == signal && st.env.pages == avail
    case DoReturn(c) => st == Finish(c)
    case DoOpen(dr, dw) => st == Open(dr, dw)
    case DoClose(dr, dw) => st == Close(dr, dw)
  }

  ghost predicate MatchedAt(ops: seq<Op>, steps: seq<Step>, k: nat)
  {
    k < |ops| && k < |steps| ==> Matches(ops[k], steps[k])
  }

  ghost predicate AllMatched(ops: seq<Op>, steps: seq<Step>)
  {
    |ops| == |steps| && forall k: nat :: MatchedAt(ops, steps, k)
  }

  lemma MatchedMore(ops: seq<Op>, n: nat, steps: seq<Step>, st: Step)
    requires n < |ops| && AllMatched(ops[..n], steps) && Matches(ops[n], st)
    ensures AllMatched(ops[..n + 1], steps + [st])
  {
    var ops', steps' := ops[..n + 1], steps + [st];
    forall k: nat ensures MatchedAt(ops', steps', k) {
      assert MatchedAt(ops[..n], steps, k);
    }
  }

  // ---------------------------------------------------------------- the pipe with its calls

  lemma RunGrows(states: seq<Sys>, steps: seq<Step>, st: Step, s: Sys)
    requires IsRun(states, steps) && Next(states[|steps|], st, s)
    ensures IsRun(states + [s], steps + [st])
  {
    var states', steps' := states + [s], steps + [st];
    forall i | 0 <= i < |steps'| ensures Next(states'[i], steps'[i], states'[i + 1]) {
      if i < |steps| {
        assert states'[i] == states[i] && steps'[i] == steps[i] && states'[i + 1] == states[i + 1];
      }
    }
  }

  class Host {
    const pipe: PipeInfo
    var tasks: map<nat, Task>
    ghost var cells: map<nat, seq<nat>>
    /** The run so far. */
    ghost var states: seq<Sys>
    ghost var steps: seq<Step>

    ghost function Now(): Sys
      requires states != []
      reads `states
    {
      states[|states| - 1]
    }

    ghost predicate Valid()
      reads this, pipe, pipe.bufs, PagesOf(pipe.live)
    {
      pipe.Valid() && IsRun(states, steps) && Now().pipe == pipe.Abs() && AllMatch(tasks, Now().calls, cells)
    }

    constructor ()
      ensures Valid() && tasks == map[] && steps == [] && fresh(pipe) && fresh(pipe.bufs) && pipe.pages == {}
    {
      pipe := new PipeInfo();
      tasks, cells := map[], map[];
      states, steps := [Sys(Pipe([], false, 1, 1, 0), map[], [], [])], [];
    }

    /** One more step of the run. */
    method Record(ghost st: Step, ghost s: Sys, tasks': map<nat, Task>, ghost cells': map<nat, seq<nat>>)
      requires IsRun(states, steps) && Next(Now(), st, s) && pipe.Valid() && s.pipe == pipe.Abs() && AllMatch(tasks', s.calls, cells')
      modifies this
      ensures Valid() && Now() == s && tasks == tasks' && cells == cells'
      ensures steps == old(steps) + [st] && states == old(states) + [s]
    {
      RunGrows(states, steps, st, s);
      states, steps := states + [s], steps + [st];
      tasks, cells := tasks', cells';
    }

    lemma InvHolds()
      requires Valid()
      ensures Ready(Now())
    {
      RunInv(states, steps, |steps|);
      InvReady(Now());
    }

    /** A call of `pipe_readv` or `pipe_writev` begins; a null call ends at once. */
    method Start(c: nat, writer: bool, u: UserSpace, segs: seq<Iovec>, total: nat, nonblock: bool)
      requires Valid() && c !in tasks && total == |Cells(segs)|
      requires if writer then pipe.writers > 0 else pipe.readers > 0
      modifies this
      ensures Valid() && tasks.Keys == old(tasks.Keys) + {c} && old(states) <= states
      ensures tasks[c].u == u && forall d :: d in old(tasks) ==> tasks[d] == old(tasks)[d]
      ensures steps == old(steps) + [if writer then StartWrite(c, u.Fetch(Cells(segs)), nonblock) else StartRead(c, total, nonblock)]
    {
      var phase := if total == 0 then Returned(Count(0)) else Entering;
      var t := Task(writer, u, segs, nonblock, total, 0, false, phase);
      ghost var s, all := Now(), Cells(segs);
      ghost var data := u.Fetch(all);
      ghost var call := if writer then Writer(data, 0, nonblock, phase) else Reader(total, [], false, nonblock, phase);
      assert all[0..] == all && data[0..] == data;
      MatchStarted(tasks, s.calls, cells, c, t, call, all);
      Record(if writer then StartWrite(c, data, nonblock) else StartRead(c, total, nonblock), s.(calls := s.calls[c := call]),
             tasks[c := t], cells[c := all]);
    }

    /** The scheduler may let a task go on that enters, was woken or has a signal pending. */
    predicate Schedulable(c: nat, writer: bool, signal: bool)
      reads this
    {
      && c in tasks && tasks[c].writer == writer
      && (tasks[c].phase.Entering? || (tasks[c].phase.Asleep? && (tasks[c].phase.woken || signal)))
    }

    /** What the surroundings of a section are. */
    ghost function EnvOf(c: nat, signal: bool, avail: nat): Env
      requires c in tasks
      reads this
    {
      Env(Sound(Cells(tasks[c].segs), tasks[c].u.bad), signal, avail)
    }

    /** A reader runs until it leaves or sleeps. */
    method RunReader(c: nat, signal: bool)
      requires Valid() && Schedulable(c, false, signal)
      modifies this, pipe, pipe.bufs, tasks[c].u
      ensures Valid() && old(states) <= states && Went(old(tasks), c, tasks) && pipe.pages <= old(pipe.pages)
      ensures steps == old(steps) + [RunRead(c, old(EnvOf(c, signal, 0)))]
      ensures var n := old(tasks[c].moved);
              && cells == old(cells) && n <= |cells[c]| && Now().calls[c].Reader? && n <= |Now().calls[c].got|
              && Delivered(old(tasks[c].u), old(tasks[c].u.stores), cells[c][n..], Now().calls[c].got[n..], false)
    {
      var t := tasks[c];
      ghost var s, env := Now(), EnvOf(c, signal, 0);
      InvHolds();
      assert MatchAt(tasks, s.calls, cells, c);
      var t', broadcast, call, s' := ReadTask(pipe, t, signal, s, c, cells[c], env);
      MatchOthers(tasks, s.calls, cells, c, t', call, broadcast);
      Record(RunRead(c, env), s', WakeTasks(tasks, broadcast)[c := t'], cells);
    }

    /** A writer runs until it leaves or sleeps; while it sleeps it is counted as waiting. */
    method RunWriter(c: nat, signal: bool, avail: nat)
      requires Valid() && Schedulable(c, true, signal)
      modifies this, pipe, pipe.bufs, pipe.pages
      ensures Valid() && old(states) <= states && Went(old(tasks), c, tasks) && fresh(pipe.pages - old(pipe.pages))
      ensures steps == old(steps) + [RunWrite(c, old(EnvOf(c, signal, avail)))]
    {
      var t := tasks[c];
      ghost var s, env := Now(), EnvOf(c, signal, avail);
      InvHolds();
      assert MatchAt(tasks, s.calls, cells, c);
      var t', broadcast, call, s' := WriteTask(pipe, t, signal, avail, s, c, cells[c], env);
      MatchOthers(tasks, s.calls, cells, c, t', call, broadcast);
      Record(RunWrite(c, env), s', WakeTasks(tasks, broadcast)[c := t'], cells);
    }

    /** The bytes that were moved for a returned call are those its result tells of. */
    ghost predicate Answers(c: nat)
      requires states != []
      reads this
    {
      && c in tasks && tasks[c].phase.Returned? && c in Now().calls && var call := Now().calls[c];
      if tasks[c].writer
      then call.Writer? && call.done <= |call.data| && call.data[..call.done] == BytesOf(Now().accepted, c) && ResultIs(tasks[c].phase.ret, call.done)
      else call.Reader? && call.got == BytesOf(Now().delivered, c) && ResultIs(tasks[c].phase.ret, |call.got|)
    }

    /** However the operations went, each result that was returned tells how many bytes were moved. */
    lemma Answered(c: nat)
      requires Valid() && c in tasks && tasks[c].phase.Returned?
      ensures Answers(c)
    {
      assert MatchAt(tasks, Now().calls, cells, c);
      ReturnsCountBytes(states, steps, |steps|, c);
    }

    /** A call that leaves sends the wakeup it owes and returns. */
    method Return(c: nat) returns (ret: Ret)
      requires Valid() && c in tasks && tasks[c].phase.Leaving?
      modifies this
      ensures Valid() && old(states) <= states && Went(old(tasks), c, tasks)
      ensures steps == old(steps) + [Finish(c)] && tasks[c].phase == Returned(ret) && Answers(c)
    {
      var t := tasks[c];
      ret := t.phase.ret;
      var t' := t.(phase := Returned(ret));
      ghost var s := Now();
      assert MatchAt(tasks, s.calls, cells, c);
      ghost var call := s.calls[c].(phase := Returned(ret));
      MatchOthers(tasks, s.calls, cells, c, t', call, t.phase.owes);
      Record(Finish(c), s.(calls := Others(s.calls, t.phase.owes)[c := call]), WakeTasks(tasks, t.phase.owes)[c := t'], cells);
      Answered(c);
    }

    /** Another end is opened. */
    method OpenEnd(dr: nat, dw: nat)
      requires Valid() && (pipe.readers > 0 || pipe.writers > 0)
      modifies this, pipe
      ensures Valid() && old(states) <= states && steps == old(steps) + [Open(dr, dw)] && tasks == old(tasks) && pipe.pages == old(pipe.pages)
    {
      ghost var s := Now();
      pipe.readers, pipe.writers := pipe.readers + dr, pipe.writers + dw;
      Record(Open(dr, dw), s.(pipe := s.pipe.(readers := s.pipe.readers + dr, writers := s.pipe.writers + dw)), tasks, cells);
    }

    /** A call under way holds an end open. */
    predicate Closable(dr: nat, dw: nat)
      reads this, pipe
    {
      && dr <= pipe.readers && dw <= pipe.writers
      && forall c :: c in tasks && !tasks[c].phase.Returned? ==> if tasks[c].writer then dw < pipe.writers else dr < pipe.readers
    }

    /** `pipe_release` of ends that no call under way needs; all sleepers are woken. */
    method CloseEnd(dr: nat, dw: nat)
      requires Valid() && Closable(dr, dw)
      modifies this, pipe
      ensures Valid() && old(states) <= states && steps == old(steps) + [Close(dr, dw)]
      ensures tasks == WakeTasks(old(tasks), true) && pipe.pages == old(pipe.pages)
    {
      ghost var s := Now();
      forall c | c in s.calls && Active(s.calls[c])
        ensures if s.calls[c].Reader? then dr < s.pipe.readers else dw < s.pipe.writers
      {
        assert MatchAt(tasks, s.calls, cells, c);
      }
      pipe.readers, pipe.writers := pipe.readers - dr, pipe.writers - dw;
      MatchWoken(tasks, s.calls, cells);
      Record(Close(dr, dw), s.(pipe := s.pipe.(readers := s.pipe.readers - dr, writers := s.pipe.writers - dw), calls := WakeAll(s.calls)),
             WakeTasks(tasks, true), cells);
    }

    /** The operation can happen now. */
    predicate Allowed(op: Op)
      reads this, pipe
    {
      match op
      case DoStart(c, writer, _, _, _) => c !in tasks && if writer then pipe.writers > 0 else pipe.readers > 0
      case DoRead(c, signal) => Schedulable(c, false, signal)
      case DoWrite(c, signal, _) => Schedulable(c, true, signal)
      case DoReturn(c) => c in tasks && tasks[c].phase.Leaving?
      case DoOpen(_, _) => pipe.readers > 0 || pipe.writers > 0
      case DoClose(dr, dw) => Closable(dr, dw)
    }

    /** The step of the system that it is. */
    ghost function StepOf(op: Op): Step
      requires Allowed(op)
      reads this, pipe
    {
      match op
      case DoStart(c, writer, u, segs, nonblock) =>
        if writer then StartWrite(c, u.Fetch(Cells(segs)), nonblock) else StartRead(c, |Cells(segs)|, nonblock)
      case DoRead(c, signal) => RunRead(c, EnvOf(c, signal, 0))
      case DoWrite(c, signal, avail) => RunWrite(c, EnvOf(c, signal, avail))
      case DoReturn(c) => Finish(c)
      case DoOpen(dr, dw) => Open(dr, dw)
      case DoClose(dr, dw) => Close(dr, dw)
    }

    /** One operation. */
    method Do(op: Op, ghost users: set<UserSpace>)
      requires Valid() && Allowed(op) && UsersIn(tasks, users) && (op.DoStart? ==> op.u in users)
      modifies this, pipe, pipe.bufs, pipe.pages, users
      ensures Valid() && old(states) <= states && steps == old(steps) + [old(StepOf(op))]
      ensures UsersIn(tasks, users) && fresh(pipe.pages - old(pipe.pages))
    {
      ghost var before := tasks;
      match op
      case DoStart(c, writer, u, segs, nonblock) =>
        Start(c, writer, u, segs, |Cells(segs)|, nonblock);
        forall d: nat ensures UserAt(tasks, users, d) {
          assert UserAt(before, users, d);
        }
      case DoRead(c, signal) =>
        assert UserAt(before, users, c);
        RunReader(c, signal);
        WentUsers(before, c, tasks, users);
      case DoWrite(c, signal, avail) =>
        RunWriter(c, signal, avail);
        WentUsers(before, c, tasks, users);
      case DoReturn(c) =>
        var _ := Return(c);
        WentUsers(before, c, tasks, users);
      case DoOpen(dr, dw) => OpenEnd(dr, dw);
      case DoClose(dr, dw) =>
        CloseEnd(dr, dw);
        forall d: nat ensures UserAt(tasks, users, d) {
          assert UserAt(before, users, d);
        }
    }

    /** Any operations one after the other, up to the first that cannot happen. */
    method RunAll(ops: seq<Op>, ghost users: set<UserSpace>) returns (done: nat)
      requires Valid() && UsersIn(tasks, users) && forall op :: op in ops && op.DoStart? ==> op.u in users
      modifies this, pipe, pipe.bufs, pipe.pages, users
      ensures Valid() && done <= |ops| && (done < |ops| ==> !Allowed(ops[done]))
      ensures old(states) <= states && old(steps) <= steps
      ensures AllMatched(ops[..done], steps[|old(steps)|..])
      ensures UsersIn(tasks, users) && fresh(pipe.pages - old(pipe.pages))
    {
      done := 0;
      ghost var start, since := steps, [];
      while done < |ops| && Allowed(ops[done])
        invariant Valid() && done <= |ops| && old(states) <= states && steps == start + since
        invariant AllMatched(ops[..done], since)
        invariant UsersIn(tasks, users) && fresh(pipe.pages - old(pipe.pages))
      {
        ghost var st := StepOf(ops[done]);
        Do(ops[done], users);
        MatchedMore(ops, done, since, st);
        Regroup(start, since, [st]);
        since := since + [st];
        done := done + 1;
      }
      assert steps[|start|..] == since;
    }

    /** The ring holds what was accepted and not yet delivered, in order. */
    lemma RingIsFifo()
      requires Valid()
      ensures var s := Now();
              Flat(s.delivered) <= Flat(s.accepted) && Contents(pipe.view) == Flat(s.accepted)[|Flat(s.delivered)|..]
    {
      Fifo(states, steps, |steps|);
    }

    /** `FIONREAD` is the number of bytes accepted less the number delivered. */
    method CountBytes() returns (count: nat)
      requires Valid()
      ensures count == |Flat(Now().accepted)| - |Flat(Now().delivered)|
    {
      count := pipe.Fionread();
      RingIsFifo();
    }
  }
}
