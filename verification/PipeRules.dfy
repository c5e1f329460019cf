/**
  When a pipe call returns, what it returns and when it waits, for a call whose user memory is
  sound: the read and write rules of POSIX.1 for pipes, and how `pipe_poll` announces them.
 */
module PipeRules {
  import opened Words
  import opened PipeModel
  import opened PipeSections

  /** What a reader does once the pipe is empty and it still wants bytes. */
  function OutcomeWhenDry(p: Pipe, got: nat, nonblock: bool, signal: bool): Outcome
  {
    if p.writers == 0 then Leave(Count(got))
    else if p.waiting > 0 then
      if signal then Leave(CountOr(got, ERESTARTSYS)) else Sleep
    else if got > 0 then Leave(Count(got))
    else if nonblock then Leave(Err(EAGAIN))
    else if signal then Leave(Err(ERESTARTSYS)) else Sleep
  }

  /** A read takes as many bytes as it wants and the pipe has, and waits only on a dry pipe. */
  lemma {:induction false} ReadRule(p: Pipe, want: nat, got: seq<byte>, wake: bool, nonblock: bool, env: Env)
    requires LiveBufs(p.bufs) && 0 < want <= env.fault
    ensures var r, all := ReadLoop(p, want, got, wake, nonblock, env), Contents(p.bufs);
            && r.got == got + all[..Min(want, |all|)]
            && r.out == if want <= |all| then Leave(Count(|got| + want))
                        else OutcomeWhenDry(p, |got| + |all|, nonblock, env.signal)
    decreases |p.bufs|
  {
    if p.bufs != [] {
      var b := p.bufs[0];
      var chars := Min(|b.data|, want);
      assert LiveBuf(b);
      TakeMeaning(p, chars);
      if chars < want {
        assert b.data[..chars] == b.data;
        ReadRule(Take(p, chars), want - chars, got + b.data, true, nonblock,
                 env.(fault := env.fault - chars));
        ReadRuleStep(p, want, got, b.data);
      } else {
        ReadRuleLast(p, want);
      }
    } else {
      assert got + [] == got;
    }
  }

  lemma ReadRuleLast(p: Pipe, want: nat)
    requires p.bufs != [] && want <= |p.bufs[0].data|
    ensures want <= |Contents(p.bufs)| && Contents(p.bufs)[..want] == p.bufs[0].data[..want]
  {}

  lemma ReadRuleStep(p: Pipe, want: nat, got: seq<byte>, head: seq<byte>)
    requires p.bufs != [] && head == p.bufs[0].data && |head| < want
    ensures var all, rest := Contents(p.bufs), Contents(p.bufs[1..]);
            && |all| == |head| + |rest|
            && (got + head) + rest[..Min(want - |head|, |rest|)] == got + all[..Min(want, |all|)]
  {
    var all, rest := Contents(p.bufs), Contents(p.bufs[1..]);
    assert all == head + rest;
    assert all[..Min(want, |all|)] == head + rest[..Min(want - |head|, |rest|)];
  }

  /** The bytes that fit into `slots` free slots of the ring. */
  function PagesRoom(slots: nat): nat
  {
    if slots == 0 then 0 else PAGE_SIZE + PagesRoom(slots - 1)
  }

  function Room(p: Pipe): nat
    requires |p.bufs| <= PIPE_BUFFERS
  {
    PagesRoom(PIPE_BUFFERS - |p.bufs|)
  }

  function OutcomeWhenFull(done: nat, nonblock: bool, signal: bool): Outcome
  {
    if nonblock then Leave(CountOr(done, EAGAIN))
    else if signal then Leave(CountOr(done, ERESTARTSYS)) else Sleep
  }

  /** A write with pages to be had fills the free slots, and waits only on a full ring. */
  lemma {:induction false} WriteRule(p: Pipe, data: seq<byte>, done: nat, wake: bool, nonblock: bool, env: Env)
    requires LiveBufs(p.bufs) && done < |data| && p.readers > 0
    requires |data| - done <= env.fault && PIPE_BUFFERS - |p.bufs| <= env.pages
    ensures var r := WriteLoop(p, data, done, wake, nonblock, env);
            if |data| - done <= Room(p)
            then r.done == |data| && r.out == Leave(Count(|data|))
            else r.done == done + Room(p) && r.out == OutcomeWhenFull(r.done, nonblock, env.signal)
    decreases PIPE_BUFFERS - |p.bufs|
  {
    if |p.bufs| < PIPE_BUFFERS {
      var chars := Min(PAGE_SIZE, |data| - done);
      var q := Insert(p, data[done..done + chars]);
      if done + chars < |data| {
        InsertMeaning(p, data[done..done + chars]);
        var pages := if p.spare then env.pages else env.pages - 1;
        WriteRule(q, data, done + chars, true, nonblock,
                  env.(fault := env.fault - chars, pages := pages));
      }
    }
  }

  /**
    A write of at most a page, with sound memory and pages to be had, succeeds at once exactly
    when a slot is free or it fits behind the newest bytes; otherwise nothing is written.
   */
  lemma SmallWriteRule(p: Pipe, data: seq<byte>, nonblock: bool, env: Env)
    requires LiveBufs(p.bufs) && 0 < |data| <= PAGE_SIZE && p.readers > 0
    requires |data| <= env.fault && PIPE_BUFFERS <= env.pages
    ensures var r := WriteEnter(p, data, nonblock, env);
            if |p.bufs| < PIPE_BUFFERS || CanMerge(p, |data|)
            then r.out == Leave(Count(|data|))
            else r.pipe == p && !r.wake && r.out == OutcomeWhenFull(0, nonblock, env.signal)
  {
    if !CanMerge(p, |data|) {
      WriteRule(p, data, 0, false, nonblock, env);
    }
  }

  datatype Poll = Poll(readable: bool, writable: bool, error: bool)

  /** `pipe_poll` for a file open both ways; the hang-up bit depends on the file's open history. */
  function PipePoll(p: Pipe): Poll
  {
    Poll(|p.bufs| > 0, |p.bufs| < PIPE_BUFFERS, p.readers == 0)
  }

  /** A non-blocking read fails with EAGAIN exactly if poll does not announce bytes and nobody may write any. */
  lemma PollAnnounces(p: Pipe, want: nat, data: seq<byte>, env: Env)
    requires LiveBufs(p.bufs) && 0 < want <= env.fault
    requires 0 < |data| <= env.fault && PIPE_BUFFERS <= env.pages
    ensures ReadLoop(p, want, [], false, true, env).out == Leave(Err(EAGAIN))
       <==> !PipePoll(p).readable && p.writers > 0 && p.waiting == 0
    ensures PipePoll(p).writable && !PipePoll(p).error ==>
              var r := WriteEnter(p, data, true, env);
              r.out.Leave? && r.out.ret.Count? && Min(PAGE_SIZE, |data|) <= r.out.ret.n
    ensures PipePoll(p).error <==> WriteEnter(p, data, true, env).out == Leave(Err(EPIPE))
  {
    ReadRule(p, want, [], false, true, env);
    if p.bufs != [] { assert LiveBuf(p.bufs[0]); }
    if p.readers > 0 {
      if CanMerge(p, |data|) {
        var chars := MergeSize(|data|);
        if chars < |data| {
          MergeMeaning(p, data[..chars]);
          WriteRule(Merge(p, data[..chars]), data, chars, true, true, env.(fault := env.fault - chars));
        }
      } else {
        WriteRule(p, data, 0, false, true, env);
      }
    }
  }
}
