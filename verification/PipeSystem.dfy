/**
  Any number of readers and writers on one pipe.

  One step is one critical section under the pipe semaphore; the wakeup that a call
  sends after dropping the semaphore is a step of its own. `wake_up` wakes every sleeper.
  A call that has returned stays in the table with its result, and every call has its
  own number, so the logs say which call moved which bytes.
 */
module PipeSystem {
  import opened Words
  import opened PipeModel
  import opened PipeSections

  datatype Phase = Entering | Asleep(woken: bool) | Leaving(ret: Ret, owes: bool) | Returned(ret: Ret)

  /** `want` bytes are still wanted, `got` were delivered; `data[..done]` was accepted. */
  datatype Call =
    | Reader(want: nat, got: seq<byte>, wake: bool, nonblock: bool, phase: Phase)
    | Writer(data: seq<byte>, done: nat, nonblock: bool, phase: Phase)

  /** The bytes one call moved in one critical section. */
  datatype Piece = Piece(call: nat, bytes: seq<byte>)

  datatype Sys = Sys(pipe: Pipe, calls: map<nat, Call>, accepted: seq<Piece>, delivered: seq<Piece>)

  datatype Step =
    | StartRead(c: nat, want: nat, nonblock: bool)
    | StartWrite(c: nat, data: seq<byte>, nonblock: bool)
    | RunRead(c: nat, env: Env)
    | RunWrite(c: nat, env: Env)
    | Finish(c: nat)
    | Open(dr: nat, dw: nat)
    | Close(dr: nat, dw: nat)

  // ---------------------------------------------------------------- logs

  function Flat(log: seq<Piece>): seq<byte>
  {
    if log == [] then [] else Flat(log[..|log| - 1]) + log[|log| - 1].bytes
  }

  function BytesOf(log: seq<Piece>, c: nat): seq<byte>
  {
    if log == [] then []
    else
      var last := log[|log| - 1];
      BytesOf(log[..|log| - 1], c) + (if last.call == c then last.bytes else [])
  }

  function PiecesOf(log: seq<Piece>, c: nat): nat
  {
    if log == [] then 0
    else PiecesOf(log[..|log| - 1], c) + (if log[|log| - 1].call == c then 1 else 0)
  }

  function Logged(log: seq<Piece>, c: nat, bytes: seq<byte>): seq<Piece>
  {
    if bytes == [] then log else log + [Piece(c, bytes)]
  }

  lemma LoggedMeaning(log: seq<Piece>, c: nat, bytes: seq<byte>)
    ensures Flat(Logged(log, c, bytes)) == Flat(log) + bytes
    ensures BytesOf(Logged(log, c, bytes), c) == BytesOf(log, c) + bytes
    ensures PiecesOf(Logged(log, c, bytes), c) == PiecesOf(log, c) + (if bytes == [] then 0 else 1)
  {
    var log' := log + [Piece(c, bytes)];
    assert log'[..|log'| - 1] == log;
  }

  lemma LoggedOther(log: seq<Piece>, c: nat, bytes: seq<byte>, d: nat)
    requires d != c
    ensures BytesOf(Logged(log, c, bytes), d) == BytesOf(log, d)
    ensures PiecesOf(Logged(log, c, bytes), d) == PiecesOf(log, d)
  {
    var log' := log + [Piece(c, bytes)];
    assert log'[..|log'| - 1] == log;
  }

  // ---------------------------------------------------------------- transitions

  predicate Active(call: Call)
  {
    !call.phase.Returned?
  }

  predicate Running(call: Call)
  {
    call.phase.Entering? || call.phase.Asleep?
  }

  predicate SleepingWriter(call: Call)
  {
    call.Writer? && call.phase.Asleep?
  }

  function Woken(call: Call): Call
  {
    if call.phase.Asleep? then call.(phase := Asleep(true)) else call
  }

  function WakeAll(calls: map<nat, Call>): map<nat, Call>
  {
    map c | c in calls :: Woken(calls[c])
  }

  function PhaseOf(out: Outcome, wake: bool): Phase
  {
    match out
    case Leave(ret) => Leaving(ret, wake)
    case Sleep => Asleep(false)
  }

  function Others(calls: map<nat, Call>, broadcast: bool): map<nat, Call>
  {
    if broadcast then WakeAll(calls) else calls
  }

  predicate CanRun(call: Call, env: Env)
  {
    call.phase.Entering? || (call.phase.Asleep? && (call.phase.woken || env.signal))
  }

  ghost predicate Enabled(s: Sys, st: Step)
  {
    match st
    case StartRead(c, want, nonblock) => c !in s.calls && s.pipe.readers > 0
    case StartWrite(c, data, nonblock) => c !in s.calls && s.pipe.writers > 0
    case RunRead(c, env) => c in s.calls && s.calls[c].Reader? && CanRun(s.calls[c], env)
    case RunWrite(c, env) => c in s.calls && s.calls[c].Writer? && CanRun(s.calls[c], env)
    case Finish(c) => c in s.calls && s.calls[c].phase.Leaving?
    case Open(dr, dw) => s.pipe.readers > 0 || s.pipe.writers > 0
    case Close(dr, dw) =>
      && dr <= s.pipe.readers && dw <= s.pipe.writers
      && (forall c :: c in s.calls && Active(s.calls[c]) ==>
            if s.calls[c].Reader? then dr < s.pipe.readers else dw < s.pipe.writers)
  }

  /** What the section functions ask of the state: `Reachable` states always have it. */
  ghost predicate Ready(s: Sys)
  {
    && LiveBufs(s.pipe.bufs)
    && (forall c :: c in s.calls && Running(s.calls[c]) ==>
          match s.calls[c]
          case Reader(want, _, _, _, _) => want > 0
          case Writer(data, done, _, phase) => done < |data| && (phase.Entering? ==> done == 0))
  }

  ghost function ReadEndOf(s: Sys, c: nat, env: Env): ReadEnd
    requires Ready(s) && Enabled(s, RunRead(c, env))
  {
    var r := s.calls[c];
    ReadLoop(s.pipe, r.want, r.got, r.wake, r.nonblock, env)
  }

  ghost function AfterRead(s: Sys, c: nat, r: ReadEnd): Sys
    requires c in s.calls && s.calls[c].Reader? && |s.calls[c].got| <= |r.got|
  {
    var call := s.calls[c];
    Sys(r.pipe,
        Others(s.calls, r.out.Sleep? && r.wake)
          [c := Reader(r.want, r.got, r.wake, call.nonblock, PhaseOf(r.out, r.wake))],
        s.accepted,
        Logged(s.delivered, c, r.got[|call.got|..]))
  }

  /** A resuming writer stops being counted in `PIPE_WAITING_WRITERS`. */
  ghost function Resumed(s: Sys, c: nat): Pipe
    requires c in s.calls
  {
    if s.calls[c].phase.Asleep? && s.pipe.waiting > 0
    then s.pipe.(waiting := s.pipe.waiting - 1) else s.pipe
  }

  ghost function WriteEndOf(s: Sys, c: nat, env: Env): WriteEnd
    requires Ready(s) && Enabled(s, RunWrite(c, env))
  {
    var w := s.calls[c];
    if w.phase.Entering? then
      WriteEnter(Resumed(s, c), w.data, w.nonblock, env)
    else
      WriteLoop(Resumed(s, c), w.data, w.done, false, w.nonblock, env)
  }

  ghost function AfterWrite(s: Sys, c: nat, r: WriteEnd): Sys
    requires c in s.calls && s.calls[c].Writer? && s.calls[c].done <= r.done <= |s.calls[c].data|
  {
    var call := s.calls[c];
    Sys(if r.out.Sleep? then r.pipe.(waiting := r.pipe.waiting + 1) else r.pipe,
        Others(s.calls, r.out.Sleep? && r.wake)
          [c := Writer(call.data, r.done, call.nonblock, PhaseOf(r.out, r.wake))],
        Logged(s.accepted, c, call.data[call.done..r.done]),
        s.delivered)
  }

  /** The effect of a step. Closing the last end frees the pipe, after which no call can start. */
  ghost predicate Effect(s: Sys, st: Step, s': Sys)
    requires Enabled(s, st) && Ready(s)
  {
    match st
    case StartRead(c, want, nonblock) =>
      s' == s.(calls := s.calls[c := Reader(want, [], false, nonblock,
                                            if want == 0 then Returned(Count(0)) else Entering)])
    case StartWrite(c, data, nonblock) =>
      s' == s.(calls := s.calls[c := Writer(data, 0, nonblock,
                                            if data == [] then Returned(Count(0)) else Entering)])
    case RunRead(c, env) =>
      ReadLoopMeaning(s.pipe, s.calls[c].want, s.calls[c].got, s.calls[c].wake, s.calls[c].nonblock, env);
      s' == AfterRead(s, c, ReadEndOf(s, c, env))
    case RunWrite(c, env) =>
      RunWriteMeaning(s, c, env);
      s' == AfterWrite(s, c, WriteEndOf(s, c, env))
    case Finish(c) =>
      var call := s.calls[c];
      s' == s.(calls := Others(s.calls, call.phase.owes)[c := call.(phase := Returned(call.phase.ret))])
    case Open(dr, dw) =>
      s' == s.(pipe := s.pipe.(readers := s.pipe.readers + dr, writers := s.pipe.writers + dw))
    case Close(dr, dw) =>
      s' == s.(pipe := s.pipe.(readers := s.pipe.readers - dr, writers := s.pipe.writers - dw),
               calls := WakeAll(s.calls))
  }

  ghost predicate Next(s: Sys, st: Step, s': Sys)
  {
    Enabled(s, st) && (Ready(s) ==> Effect(s, st, s'))
  }

  /** A new pipe, as `get_pipe_inode` makes it: one reader, one writer, no page. */
  ghost predicate Initial(s: Sys)
  {
    s == Sys(Pipe([], false, 1, 1, 0), map[], [], [])
  }

  ghost predicate IsRun(states: seq<Sys>, steps: seq<Step>)
  {
    && |states| == |steps| + 1
    && Initial(states[0])
    && forall i :: 0 <= i < |steps| ==> Next(states[i], steps[i], states[i + 1])
  }

  lemma RunWriteMeaning(s: Sys, c: nat, env: Env)
    requires Ready(s) && Enabled(s, RunWrite(c, env))
    ensures var w, r := s.calls[c], WriteEndOf(s, c, env);
            && w.done <= |w.data|
            && WriteKeeps(Resumed(s, c), w.data, w.done, r)
            && WriteTells(Resumed(s, c), w.data, w.done, false, r)
            && WriteReturns(w.data, r) && (w.done == 0 ==> WriteAtomic(w.data, r))
  {
    var w := s.calls[c];
    if w.phase.Entering? {
      WriteEnterMeaning(Resumed(s, c), w.data, w.nonblock, env);
    } else {
      WriteLoopMeaning(Resumed(s, c), w.data, w.done, false, w.nonblock, env);
    }
  }
}
