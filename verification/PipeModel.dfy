/**
  The critical sections of `pipe_readv` and `pipe_writev` on values.

  A live ring slot is the pair of its bytes and the room left behind them in its page.
  Each function below is what one call does from taking the pipe semaphore until it
  either returns or goes to sleep in `pipe_wait`. Failures of the surroundings
  (a faulty user page, a pending signal, no free page) come in through `Env`.
 */
module PipeModel {
  import opened Words

  const PIPE_BUFFERS: Positive

  datatype Errno = EPIPE | EFAULT | ENOMEM | EAGAIN | ERESTARTSYS

  /** The `ssize_t` a call returns: a count of bytes or a negated error number. */
  datatype Ret = Count(n: nat) | Err(e: Errno)

  datatype Buf = Buf(data: seq<byte>, room: nat)

  /** `spare` says that `tmp_page` holds a page. */
  datatype Pipe = Pipe(bufs: seq<Buf>, spare: bool, readers: nat, writers: nat, waiting: nat)

  /**
    What the surroundings do during one critical section: `fault` user bytes can be copied
    before the first faulty address, a signal is pending or not, and `pages` pages can
    still be allocated.
   */
  datatype Env = Env(fault: nat, signal: bool, pages: nat)

  datatype Outcome = Leave(ret: Ret) | Sleep

  /** `wake` is `do_wakeup` at the end; a call that goes to sleep has woken the others if it is set. */
  datatype ReadEnd = ReadEnd(pipe: Pipe, want: nat, got: seq<byte>, wake: bool, out: Outcome)

  datatype WriteEnd = WriteEnd(pipe: Pipe, done: nat, wake: bool, out: Outcome)

  predicate LiveBuf(b: Buf)
  {
    0 < |b.data| && |b.data| + b.room <= PAGE_SIZE
  }

  predicate LiveBufs(bufs: seq<Buf>)
  {
    |bufs| <= PIPE_BUFFERS && forall i :: 0 <= i < |bufs| ==> LiveBuf(bufs[i])
  }

  /** The bytes held by a pipe, oldest first. */
  function Contents(bufs: seq<Buf>): seq<byte>
  {
    if bufs == [] then [] else bufs[0].data + Contents(bufs[1..])
  }

  function Min(a: nat, b: nat): nat
  {
    if a < b then a else b
  }

  function CountOr(n: nat, e: Errno): Ret
  {
    if n == 0 then Err(e) else Count(n)
  }

  /** Takes `n` bytes off the oldest buffer; an emptied buffer gives its page back. */
  function Take(p: Pipe, n: nat): Pipe
    requires p.bufs != [] && n <= |p.bufs[0].data|
  {
    var b := p.bufs[0];
    if n == |b.data| then
      p.(bufs := p.bufs[1..], spare := true)
    else
      p.(bufs := [Buf(b.data[n..], b.room)] + p.bufs[1..])
  }

  /** The `for (;;)` of `pipe_readv` until it leaves or sleeps. */
  function ReadLoop(p: Pipe, want: nat, got: seq<byte>, wake: bool, nonblock: bool, env: Env): ReadEnd
    requires LiveBufs(p.bufs) && 0 < want
    decreases |p.bufs|
  {
    if p.bufs != [] then
      var chars := Min(|p.bufs[0].data|, want);
      if env.fault < chars then
        ReadEnd(p, want, got, wake, Leave(CountOr(|got|, EFAULT)))
      else
        var p' := Take(p, chars);
        var got' := got + p.bufs[0].data[..chars];
        var wake' := wake || chars == |p.bufs[0].data|;
        if chars == want then
          ReadEnd(p', 0, got', wake', Leave(Count(|got'|)))
        else
          ReadLoop(p', want - chars, got', wake', nonblock, env.(fault := env.fault - chars))
    else if p.writers == 0 then
      ReadEnd(p, want, got, wake, Leave(Count(|got|)))
    else if p.waiting == 0 && got != [] then
      ReadEnd(p, want, got, wake, Leave(Count(|got|)))
    else if p.waiting == 0 && nonblock then
      ReadEnd(p, want, got, wake, Leave(Err(EAGAIN)))
    else if env.signal then
      ReadEnd(p, want, got, wake, Leave(CountOr(|got|, ERESTARTSYS)))
    else
      ReadEnd(p, want, got, wake, Sleep)
  }

  function Longer(b: Buf, bytes: seq<byte>): Buf
    requires |bytes| <= b.room
  {
    Buf(b.data + bytes, b.room - |bytes|)
  }

  /** Appends bytes to the newest buffer, behind the bytes it holds. */
  function Merge(p: Pipe, bytes: seq<byte>): Pipe
    requires p.bufs != [] && |bytes| <= p.bufs[|p.bufs| - 1].room
  {
    var k := |p.bufs| - 1;
    p.(bufs := p.bufs[..k] + [Longer(p.bufs[k], bytes)])
  }

  /** Puts a page holding `bytes` into the next free slot. */
  function Insert(p: Pipe, bytes: seq<byte>): Pipe
    requires |bytes| <= PAGE_SIZE
  {
    p.(bufs := p.bufs + [Buf(bytes, PAGE_SIZE - |bytes|)], spare := false)
  }

  /** The number of bytes `pipe_writev` tries to merge, `total_len & (PAGE_SIZE-1)`. */
  function MergeSize(total: nat): (chars: nat)
    ensures chars <= total && chars < PAGE_SIZE
    ensures total < PAGE_SIZE ==> chars == total
    ensures total == PAGE_SIZE ==> chars == 0
  {
    RemainderFacts(total, PAGE_SIZE);
    total % PAGE_SIZE
  }

  predicate CanMerge(p: Pipe, total: nat)
  {
    p.bufs != [] && MergeSize(total) != 0 && MergeSize(total) <= p.bufs[|p.bufs| - 1].room
  }

  /** `pipe_writev` from its first taking of the semaphore. */
  function WriteEnter(p: Pipe, data: seq<byte>, nonblock: bool, env: Env): WriteEnd
    requires LiveBufs(p.bufs) && data != []
  {
    if p.readers == 0 then
      WriteEnd(p, 0, false, Leave(Err(EPIPE)))
    else if CanMerge(p, |data|) then
      var chars := MergeSize(|data|);
      if env.fault < chars then
        WriteEnd(p, 0, true, Leave(Err(EFAULT)))
      else
        var p' := Merge(p, data[..chars]);
        if chars == |data| then
          WriteEnd(p', chars, true, Leave(Count(chars)))
        else
          MergeKeepsLive(p, data[..chars]);
          WriteLoop(p', data, chars, true, nonblock, env.(fault := env.fault - chars))
    else
      WriteLoop(p, data, 0, false, nonblock, env)
  }

  lemma MergeKeepsLive(p: Pipe, bytes: seq<byte>)
    requires LiveBufs(p.bufs) && p.bufs != [] && |bytes| <= p.bufs[|p.bufs| - 1].room
    ensures LiveBufs(Merge(p, bytes).bufs)
  {
    assert LiveBuf(p.bufs[|p.bufs| - 1]);
  }

  /** The `for (;;)` of `pipe_writev`, with `data[done..]` still to go, until it leaves or sleeps. */
  function WriteLoop(p: Pipe, data: seq<byte>, done: nat, wake: bool, nonblock: bool, env: Env): WriteEnd
    requires LiveBufs(p.bufs) && done < |data|
    decreases PIPE_BUFFERS - |p.bufs|
  {
    if p.readers == 0 then
      WriteEnd(p, done, wake, Leave(CountOr(done, EPIPE)))
    else if |p.bufs| < PIPE_BUFFERS then
      if !p.spare && env.pages == 0 then
        WriteEnd(p, done, wake, Leave(CountOr(done, ENOMEM)))
      else
        var pages := if p.spare then env.pages else env.pages - 1;
        var chars := Min(PAGE_SIZE, |data| - done);
        if env.fault < chars then
          WriteEnd(p.(spare := true), done, true, Leave(CountOr(done, EFAULT)))
        else
          var p' := Insert(p, data[done..done + chars]);
          if done + chars == |data| then
            WriteEnd(p', done + chars, true, Leave(Count(done + chars)))
          else
            WriteLoop(p', data, done + chars, true, nonblock,
                      env.(fault := env.fault - chars, pages := pages))
    else if nonblock then
      WriteEnd(p, done, wake, Leave(CountOr(done, EAGAIN)))
    else if env.signal then
      WriteEnd(p, done, wake, Leave(CountOr(done, ERESTARTSYS)))
    else
      WriteEnd(p, done, wake, Sleep)
  }
}
