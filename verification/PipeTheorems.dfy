/**
  What holds in every state of every run of a pipe: the stream is a FIFO, small writes
  are atomic, return values count bytes, and no wakeup is lost.
 */
module PipeTheorems {
  import opened Words
  import opened PipeModel
  import opened PipeSections
  import opened PipeSystem

  // ---------------------------------------------------------------- the stream

  ghost predicate StreamInv(s: Sys)
  {
    LiveBufs(s.pipe.bufs) && Flat(s.accepted) == Flat(s.delivered) + Contents(s.pipe.bufs)
  }

  ghost predicate ResultIs(ret: Ret, moved: nat)
  {
    match ret
    case Count(n) => n == moved
    case Err(_) => moved == 0
  }

  ghost predicate ReaderInv(call: Call, log: seq<Piece>, c: nat)
    requires call.Reader?
  {
    && call.got == BytesOf(log, c)
    && (Running(call) ==> call.want > 0)
    && (call.phase.Entering? ==> call.got == [])
    && (call.phase.Asleep? && call.got != [] ==> call.wake)
    && (call.phase.Leaving? || call.phase.Returned? ==> ResultIs(call.phase.ret, |call.got|))
  }

  ghost predicate WriterInv(call: Call, log: seq<Piece>, c: nat)
    requires call.Writer?
  {
    && call.done <= |call.data|
    && call.data[..call.done] == BytesOf(log, c)
    && (Running(call) ==> call.done < |call.data|)
    && (call.phase.Entering? ==> call.done == 0)
    && (call.phase.Leaving? || call.phase.Returned? ==> ResultIs(call.phase.ret, call.done))
    && (call.done == 0 ==> PiecesOf(log, c) == 0)
    && (|call.data| <= PAGE_SIZE && call.done != 0 ==> call.done == |call.data| && PiecesOf(log, c) == 1)
  }

  ghost predicate CallInv(call: Call, s: Sys, c: nat)
  {
    && (call.Reader? ==> ReaderInv(call, s.delivered, c))
    && (call.Writer? ==> WriterInv(call, s.accepted, c))
  }

  ghost predicate CallsInv(s: Sys)
  {
    && (forall c :: c in s.calls ==> CallInv(s.calls[c], s, c))
    && (forall c :: c !in s.calls ==> BytesOf(s.delivered, c) == [] == BytesOf(s.accepted, c) && PiecesOf(s.accepted, c) == 0)
  }

  lemma InvReady(s: Sys)
    requires StreamInv(s) && CallsInv(s)
    ensures Ready(s)
  {
    forall c | c in s.calls && Running(s.calls[c])
      ensures match s.calls[c]
              case Reader(want, _, _, _, _) => want > 0
              case Writer(data, done, _, phase) => done < |data| && (phase.Entering? ==> done == 0)
    {
      assert CallInv(s.calls[c], s, c);
    }
  }

  lemma StreamReadStep(s: Sys, c: nat, r: ReadEnd)
    requires StreamInv(s) && c in s.calls && s.calls[c].Reader?
    requires ReadKeeps(s.pipe, s.calls[c].want, s.calls[c].got, r)
    ensures StreamInv(AfterRead(s, c, r))
  {
    var bytes := r.got[|s.calls[c].got|..];
    LoggedMeaning(s.delivered, c, bytes);
    Regroup(Flat(s.delivered), bytes, Contents(r.pipe.bufs));
  }

  lemma StreamWriteStep(s: Sys, c: nat, r: WriteEnd)
    requires StreamInv(s) && c in s.calls && s.calls[c].Writer? && s.calls[c].done <= |s.calls[c].data|
    requires WriteKeeps(Resumed(s, c), s.calls[c].data, s.calls[c].done, r)
    ensures StreamInv(AfterWrite(s, c, r))
  {
    var bytes := s.calls[c].data[s.calls[c].done..r.done];
    LoggedMeaning(s.accepted, c, bytes);
    Regroup(Flat(s.delivered), Contents(s.pipe.bufs), bytes);
  }

  lemma StreamStep(s: Sys, st: Step, s': Sys)
    requires StreamInv(s) && Ready(s) && Enabled(s, st) && Effect(s, st, s')
    ensures StreamInv(s')
  {
    match st
    case RunRead(c, env) =>
      var call := s.calls[c];
      ReadLoopMeaning(s.pipe, call.want, call.got, call.wake, call.nonblock, env);
      StreamReadStep(s, c, ReadEndOf(s, c, env));
    case RunWrite(c, env) =>
      RunWriteMeaning(s, c, env);
      StreamWriteStep(s, c, WriteEndOf(s, c, env));
    case _ =>
  }

  /** Steps that leave the logs alone keep the facts about every call. */
  lemma CallsKept(s: Sys, calls: map<nat, Call>, broadcast: bool)
    requires CallsInv(s) && calls == Others(s.calls, broadcast)
    ensures forall c :: c in calls ==> c in s.calls && CallInv(calls[c], s, c)
  {
    forall c | c in calls ensures c in s.calls && CallInv(calls[c], s, c) {
      assert CallInv(s.calls[c], s, c);
    }
  }

  lemma ReaderStep(call: Call, log: seq<Piece>, c: nat, p: Pipe, r: ReadEnd, call': Call)
    requires call.Reader? && ReaderInv(call, log, c) && Running(call)
    requires call.got <= r.got && ReadTells(p, call.got, call.wake, r) && ReadReturns(r)
    requires call' == Reader(r.want, r.got, r.wake, call.nonblock, PhaseOf(r.out, r.wake))
    ensures ReaderInv(call', Logged(log, c, r.got[|call.got|..]), c)
  {
    LoggedMeaning(log, c, r.got[|call.got|..]);
    PrefixRest(call.got, r.got);
  }

  lemma CallsReadStep(s: Sys, c: nat, env: Env, s': Sys)
    requires StreamInv(s) && CallsInv(s) && Ready(s)
    requires Enabled(s, RunRead(c, env)) && Effect(s, RunRead(c, env), s')
    ensures CallsInv(s')
  {
    var call, r := s.calls[c], ReadEndOf(s, c, env);
    ReadLoopMeaning(s.pipe, call.want, call.got, call.wake, call.nonblock, env);
    var bytes := r.got[|call.got|..];
    CallsKept(s, Others(s.calls, r.out.Sleep? && r.wake), r.out.Sleep? && r.wake);
    assert CallInv(call, s, c);
    ReaderStep(call, s.delivered, c, s.pipe, r, s'.calls[c]);
    forall d | d != c
      ensures BytesOf(s'.delivered, d) == BytesOf(s.delivered, d)
      ensures d in s'.calls ==> CallInv(s'.calls[d], s', d)
    {
      LoggedOther(s.delivered, c, bytes, d);
    }
  }

  lemma WriterStep(call: Call, log: seq<Piece>, c: nat, r: WriteEnd, call': Call)
    requires call.Writer? && WriterInv(call, log, c) && Running(call)
    requires call.done <= r.done <= |call.data|
    requires r.out.Sleep? ==> r.done < |call.data|
    requires WriteReturns(call.data, r) && (call.done == 0 ==> WriteAtomic(call.data, r))
    requires call' == Writer(call.data, r.done, call.nonblock, PhaseOf(r.out, r.wake))
    ensures WriterInv(call', Logged(log, c, call.data[call.done..r.done]), c)
  {
    var bytes := call.data[call.done..r.done];
    LoggedMeaning(log, c, bytes);
    PrefixSplit(call.data, call.done, r.done);
  }

  lemma CallsWriteStep(s: Sys, c: nat, env: Env, s': Sys)
    requires StreamInv(s) && CallsInv(s) && Ready(s)
    requires Enabled(s, RunWrite(c, env)) && Effect(s, RunWrite(c, env), s')
    ensures CallsInv(s')
  {
    var call, r := s.calls[c], WriteEndOf(s, c, env);
    RunWriteMeaning(s, c, env);
    CallsKept(s, Others(s.calls, r.out.Sleep? && r.wake), r.out.Sleep? && r.wake);
    var bytes := call.data[call.done..r.done];
    assert CallInv(call, s, c);
    WriterStep(call, s.accepted, c, r, s'.calls[c]);
    forall d | d != c
      ensures BytesOf(s'.accepted, d) == BytesOf(s.accepted, d)
      ensures PiecesOf(s'.accepted, d) == PiecesOf(s.accepted, d)
      ensures d in s'.calls ==> CallInv(s'.calls[d], s', d)
    {
      LoggedOther(s.accepted, c, bytes, d);
    }
  }

  lemma CallsFinish(s: Sys, c: nat, s': Sys)
    requires CallsInv(s) && Ready(s) && Enabled(s, Finish(c)) && Effect(s, Finish(c), s')
    ensures CallsInv(s')
  {
    CallsKept(s, Others(s.calls, s.calls[c].phase.owes), s.calls[c].phase.owes);
    assert CallInv(s.calls[c], s, c);
  }

  lemma CallsStep(s: Sys, st: Step, s': Sys)
    requires StreamInv(s) && CallsInv(s) && Ready(s) && Enabled(s, st) && Effect(s, st, s')
    ensures CallsInv(s')
  {
    match st
    case RunRead(c, env) => CallsReadStep(s, c, env, s');
    case RunWrite(c, env) => CallsWriteStep(s, c, env, s');
    case Finish(c) => CallsFinish(s, c, s');
    case Close(_, _) => CallsKept(s, WakeAll(s.calls), true);
    case _ =>
  }
}
