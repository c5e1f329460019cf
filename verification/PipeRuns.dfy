/** The results about every run of a pipe. */
module PipeRuns {
  import opened Words
  import opened PipeModel
  import opened PipeSections
  import opened PipeSystem
  import opened PipeTheorems
  import opened PipeWakeups

  lemma {:induction false} RunInv(states: seq<Sys>, steps: seq<Step>, i: nat)
    requires IsRun(states, steps) && i < |states|
    ensures StreamInv(states[i]) && CallsInv(states[i]) && SleepInv(states[i])
  {
    if i == 0 {
      assert states[0].calls == map[];
      assert Sleepers(map[]) == {};
    } else {
      RunInv(states, steps, i - 1);
      var s, st, s' := states[i - 1], steps[i - 1], states[i];
      assert Next(s, st, states[i - 1 + 1]);
      InvReady(s);
      StreamStep(s, st, s');
      CallsStep(s, st, s');
      SleepStep(s, st, s');
    }
  }

  /** The pipe is a FIFO: what was delivered is a prefix of what was accepted, the rest is in the ring. */
  lemma Fifo(states: seq<Sys>, steps: seq<Step>, i: nat)
    requires IsRun(states, steps) && i < |states|
    ensures var s := states[i];
            && Flat(s.delivered) <= Flat(s.accepted)
            && Contents(s.pipe.bufs) == Flat(s.accepted)[|Flat(s.delivered)|..]
  {
    RunInv(states, steps, i);
  }

  /**
    A finished call returned the number of bytes it moved: a reader got exactly the bytes logged
    for it, a writer the first bytes of its data, and an error means that nothing was moved.
   */
  lemma ReturnsCountBytes(states: seq<Sys>, steps: seq<Step>, i: nat, c: nat)
    requires IsRun(states, steps) && i < |states| && c in states[i].calls
    requires states[i].calls[c].phase.Returned?
    ensures var s, call := states[i], states[i].calls[c];
            && (call.Reader? ==> call.got == BytesOf(s.delivered, c) && ResultIs(call.phase.ret, |call.got|))
            && (call.Writer? ==> call.done <= |call.data| && call.data[..call.done] == BytesOf(s.accepted, c)
                                 && ResultIs(call.phase.ret, call.done))
  {
    RunInv(states, steps, i);
    assert CallInv(states[i].calls[c], states[i], c);
  }

  lemma {:induction false} NoPieces(log: seq<Piece>, c: nat)
    requires PiecesOf(log, c) == 0
    ensures BytesOf(log, c) == [] && forall j :: 0 <= j < |log| ==> log[j].call != c
  {
    if log != [] {
      var n := |log| - 1;
      NoPieces(log[..n], c);
      assert forall j :: 0 <= j < n ==> log[j] == log[..n][j];
    }
  }

  lemma {:induction false} OnePiece(log: seq<Piece>, c: nat) returns (k: nat)
    requires PiecesOf(log, c) == 1
    ensures k < |log| && log[k] == Piece(c, BytesOf(log, c))
    ensures forall j :: 0 <= j < |log| && j != k ==> log[j].call != c
  {
    var n := |log| - 1;
    if log[n].call == c {
      k := n;
      NoPieces(log[..n], c);
      assert [] + log[n].bytes == log[n].bytes;
      assert forall j :: 0 <= j < n ==> log[j] == log[..n][j];
    } else {
      k := OnePiece(log[..n], c);
      assert BytesOf(log, c) == BytesOf(log[..n], c) + [];
      assert forall j :: 0 <= j < n ==> log[j] == log[..n][j];
    }
  }

  lemma {:induction false} FlatSplit(log: seq<Piece>, k: nat) returns (before: seq<byte>, after: seq<byte>)
    requires k < |log|
    ensures Flat(log) == before + log[k].bytes + after
  {
    var n := |log| - 1;
    if k == n {
      before, after := Flat(log[..n]), [];
    } else {
      var a := [];
      before, a := FlatSplit(log[..n], k);
      after := a + log[n].bytes;
      assert before + log[k].bytes + a + log[n].bytes == before + log[k].bytes + after;
    }
  }

  /** A write of at most a page is in the stream as one contiguous piece, or not at all. */
  lemma SmallWritesAtomic(states: seq<Sys>, steps: seq<Step>, i: nat, c: nat)
    requires IsRun(states, steps) && i < |states| && c in states[i].calls
    requires states[i].calls[c].Writer? && |states[i].calls[c].data| <= PAGE_SIZE
    ensures var s, call := states[i], states[i].calls[c];
            || (call.done == 0 && forall j :: 0 <= j < |s.accepted| ==> s.accepted[j].call != c)
            || (&& (exists k :: 0 <= k < |s.accepted| && s.accepted[k] == Piece(c, call.data)
                                && forall j :: 0 <= j < |s.accepted| && j != k ==> s.accepted[j].call != c)
                && (exists before, after :: Flat(s.accepted) == before + call.data + after)
                && (call.phase.Leaving? || call.phase.Returned? ==> call.phase.ret == Count(|call.data|)))
  {
    var s, call := states[i], states[i].calls[c];
    RunInv(states, steps, i);
    assert CallInv(call, s, c);
    if call.done == 0 {
      NoPieces(s.accepted, c);
    } else {
      assert call.data[..|call.data|] == call.data;
      var k := OnePiece(s.accepted, c);
      var before, after := FlatSplit(s.accepted, k);
    }
  }

  /** Somebody sleeping without having been woken has a reason, or a wakeup is on its way. */
  lemma NoLostWakeup(states: seq<Sys>, steps: seq<Step>, i: nat, c: nat)
    requires IsRun(states, steps) && i < |states| && c in states[i].calls
    requires states[i].calls[c].phase == Asleep(false)
    ensures var s, call := states[i], states[i].calls[c];
            || WakeupOwed(s)
            || (call.Reader? && s.pipe.bufs == [] && s.pipe.writers > 0 && (call.got != [] ==> WokenWriter(s)))
            || (call.Writer? && |s.pipe.bufs| == PIPE_BUFFERS && s.pipe.readers > 0)
  {
    RunInv(states, steps, i);
  }

  /**
    When every active call sleeps unwoken, either all are readers without a byte on an empty pipe
    that still has writers, or all are writers on a full ring that still has readers.
   */
  lemma NeverBothStuck(states: seq<Sys>, steps: seq<Step>, i: nat)
    requires IsRun(states, steps) && i < |states|
    requires forall c :: c in states[i].calls && Active(states[i].calls[c]) ==>
               states[i].calls[c].phase == Asleep(false)
    ensures var s := states[i];
            || (forall c :: c in s.calls && Active(s.calls[c]) ==>
                  s.calls[c].Reader? && s.calls[c].got == [] && s.pipe.bufs == [] && s.pipe.writers > 0)
            || (forall c :: c in s.calls && Active(s.calls[c]) ==>
                  s.calls[c].Writer? && |s.pipe.bufs| == PIPE_BUFFERS && s.pipe.readers > 0)
  {
    RunInv(states, steps, i);
    var s := states[i];
    assert !WakeupOwed(s) && !WokenWriter(s);
    assert forall c :: c in s.calls && Active(s.calls[c]) ==>
      ReaderMaySleep(s, s.calls[c]) && WriterMaySleep(s, s.calls[c]);
  }
}
