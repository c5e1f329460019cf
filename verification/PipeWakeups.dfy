/**
  No wakeup is lost: whoever sleeps without having been woken sleeps for a reason,
  or somebody still owes a wakeup.
 */
module PipeWakeups {
  import opened PipeModel
  import opened PipeSections
  import opened PipeSystem
  import opened PipeTheorems

  ghost function Sleepers(calls: map<nat, Call>): set<nat>
  {
    set c | c in calls && SleepingWriter(calls[c])
  }

  /** `PIPE_WAITING_WRITERS` counts the writers in `pipe_wait`. */
  ghost predicate WaitInv(s: Sys)
  {
    s.pipe.waiting == |Sleepers(s.calls)|
  }

  /** An active call keeps its end open. */
  ghost predicate EndsInv(s: Sys)
  {
    forall c :: c in s.calls && Active(s.calls[c]) ==>
      if s.calls[c].Reader? then s.pipe.readers > 0 else s.pipe.writers > 0
  }

  /** A drained pipe has a page in hand, unless it never had one. */
  ghost predicate SpareInv(s: Sys)
  {
    s.pipe.bufs == [] && !s.pipe.spare ==> Sleepers(s.calls) == {}
  }

  ghost predicate OwesWakeup(call: Call)
  {
    call.phase.Leaving? && call.phase.owes
  }

  ghost predicate WakeupOwed(s: Sys)
  {
    exists c :: c in s.calls && OwesWakeup(s.calls[c])
  }

  ghost predicate WokenWriter(s: Sys)
  {
    exists c :: c in s.calls && SleepingWriter(s.calls[c]) && s.calls[c].phase.woken
  }

  /** Why a reader may sleep: nothing to read, and if it already holds bytes a writer is on its way. */
  ghost predicate ReaderMaySleep(s: Sys, call: Call)
  {
    call.Reader? && call.phase == Asleep(false) ==>
      s.pipe.bufs == [] && s.pipe.writers > 0 && (call.got != [] ==> WokenWriter(s))
  }

  /** Why a writer may sleep: no free slot. */
  ghost predicate WriterMaySleep(s: Sys, call: Call)
  {
    call.Writer? && call.phase == Asleep(false) ==>
      |s.pipe.bufs| == PIPE_BUFFERS && s.pipe.readers > 0
  }

  ghost predicate WakeInv(s: Sys)
  {
    WakeupOwed(s) ||
    forall c :: c in s.calls ==> ReaderMaySleep(s, s.calls[c]) && WriterMaySleep(s, s.calls[c])
  }

  ghost predicate SleepInv(s: Sys)
  {
    WaitInv(s) && EndsInv(s) && SpareInv(s) && WakeInv(s)
  }

  // ---------------------------------------------------------------- bookkeeping

  lemma SleepersUpdate(calls: map<nat, Call>, c: nat, call: Call, broadcast: bool)
    ensures Sleepers(Others(calls, broadcast)[c := call])
         == Sleepers(calls) - {c} + (if SleepingWriter(call) then {c} else {})
  {}

  lemma WaitStep(s: Sys, c: nat, r: WriteEnd)
    requires WaitInv(s) && c in s.calls && s.calls[c].Writer? && Running(s.calls[c])
    requires s.calls[c].done <= r.done <= |s.calls[c].data| && r.pipe.waiting == Resumed(s, c).waiting
    ensures WaitInv(AfterWrite(s, c, r))
  {
    var s' := AfterWrite(s, c, r);
    var before := Sleepers(s.calls);
    SleepersUpdate(s.calls, c, s'.calls[c], r.out.Sleep? && r.wake);
    assert c in before <==> s.calls[c].phase.Asleep?;
    if c in before {
      assert |before - {c}| == |before| - 1;
    } else {
      assert before - {c} == before;
    }
    if r.out.Sleep? {
      assert |before - {c} + {c}| == |before - {c}| + 1;
    }
  }

  lemma WaitUnchanged(s: Sys, s': Sys, broadcast: bool, c: nat, call: Call)
    requires WaitInv(s) && s'.pipe.waiting == s.pipe.waiting
    requires s'.calls == Others(s.calls, broadcast)[c := call]
    requires !SleepingWriter(call) && (c in s.calls ==> !SleepingWriter(s.calls[c]))
    ensures WaitInv(s') && Sleepers(s'.calls) == Sleepers(s.calls)
  {
    SleepersUpdate(s.calls, c, call, broadcast);
    assert Sleepers(s.calls) - {c} + {} == Sleepers(s.calls);
  }

  lemma EndsStep(s: Sys, st: Step, s': Sys)
    requires EndsInv(s) && Ready(s) && Enabled(s, st) && Effect(s, st, s')
    ensures EndsInv(s')
  {
    match st
    case RunRead(c, env) =>
      var call := s.calls[c];
      ReadLoopMeaning(s.pipe, call.want, call.got, call.wake, call.nonblock, env);
    case RunWrite(c, env) => RunWriteMeaning(s, c, env);
    case _ =>
  }

  // ---------------------------------------------------------------- wakeups

  /** After a broadcast nobody but the caller sleeps unwoken. */
  lemma BroadcastWakes(s': Sys, calls: map<nat, Call>, c: nat, call: Call)
    requires s'.calls == WakeAll(calls)[c := call]
    requires ReaderMaySleep(s', call) && WriterMaySleep(s', call)
    ensures WakeInv(s')
  {
    forall d | d in s'.calls ensures ReaderMaySleep(s', s'.calls[d]) && WriterMaySleep(s', s'.calls[d]) {
      if d != c { assert s'.calls[d] == Woken(calls[d]); }
    }
  }

  lemma OwedStays(s: Sys, s': Sys, c: nat, call: Call)
    requires s'.calls == s.calls[c := call]
    requires WakeupOwed(s) && (c in s.calls ==> !OwesWakeup(s.calls[c]))
    ensures WakeupOwed(s')
  {
    var d :| d in s.calls && OwesWakeup(s.calls[d]);
    assert s'.calls[d] == s.calls[d];
  }

  lemma LeavingOwes(s': Sys, c: nat)
    requires c in s'.calls && OwesWakeup(s'.calls[c])
    ensures WakeInv(s')
  {}

  /** A call that sends no wakeup and leaves the ring as full as it was changes nobody's reason. */
  lemma QuietStep(s: Sys, s': Sys, c: nat, call: Call)
    requires WakeInv(s) && s'.calls == s.calls[c := call]
    requires |s'.pipe.bufs| == |s.pipe.bufs|
    requires s'.pipe.readers == s.pipe.readers && s'.pipe.writers == s.pipe.writers
    requires c in s.calls ==> Running(s.calls[c])
    requires ReaderMaySleep(s', call) && WriterMaySleep(s', call)
    requires c in s.calls && SleepingWriter(s.calls[c]) ==> s.pipe.bufs != []
    ensures WakeInv(s')
  {
    if WakeupOwed(s) {
      OwedStays(s, s', c, call);
    } else {
      forall d | d in s'.calls ensures ReaderMaySleep(s', s'.calls[d]) && WriterMaySleep(s', s'.calls[d]) {
        if d != c {
          assert ReaderMaySleep(s, s.calls[d]) && WriterMaySleep(s, s.calls[d]);
          if WokenWriter(s) && s.pipe.bufs == [] {
            var w :| w in s.calls && SleepingWriter(s.calls[w]) && s.calls[w].phase.woken;
            assert s'.calls[w] == s.calls[w];
          }
        }
      }
    }
  }

  lemma WakeReadStep(s: Sys, c: nat, env: Env, s': Sys)
    requires CallsInv(s) && SleepInv(s) && Ready(s)
    requires Enabled(s, RunRead(c, env)) && Effect(s, RunRead(c, env), s')
    ensures SleepInv(s')
  {
    var call, r := s.calls[c], ReadEndOf(s, c, env);
    ReadLoopMeaning(s.pipe, call.want, call.got, call.wake, call.nonblock, env);
    var b := r.out.Sleep? && r.wake;
    WaitUnchanged(s, s', b, c, s'.calls[c]);
    EndsStep(s, RunRead(c, env), s');
    assert CallInv(call, s, c);
    if b {
      SleepingReaderHasWriter(s, s', c);
      BroadcastWakes(s', s.calls, c, s'.calls[c]);
    } else if r.wake {
      LeavingOwes(s', c);
    } else {
      QuietStep(s, s', c, s'.calls[c]);
    }
  }

  /** A reader that goes to sleep with bytes in hand has just woken a waiting writer. */
  lemma SleepingReaderHasWriter(s: Sys, s': Sys, c: nat)
    requires WaitInv(s) && c in s.calls && s.calls[c].Reader? && c in s'.calls
    requires s'.calls == WakeAll(s.calls)[c := s'.calls[c]] && s'.calls[c].Reader?
    requires s'.pipe.bufs == [] && s'.pipe.writers > 0
    requires s'.calls[c].got != [] ==> s.pipe.waiting > 0
    ensures ReaderMaySleep(s', s'.calls[c])
  {
    if s.pipe.waiting > 0 {
      assert Sleepers(s.calls) != {};
      var w :| w in Sleepers(s.calls);
      assert s'.calls[w] == Woken(s.calls[w]);
    }
  }

  lemma SpareWriteStep(s: Sys, c: nat, env: Env, s': Sys)
    requires SpareInv(s) && Ready(s)
    requires Enabled(s, RunWrite(c, env)) && Effect(s, RunWrite(c, env), s')
    ensures SpareInv(s')
  {
    var r := WriteEndOf(s, c, env);
    RunWriteMeaning(s, c, env);
    SleepersUpdate(s.calls, c, s'.calls[c], r.out.Sleep? && r.wake);
    assert r.out.Sleep? ==> r.pipe.bufs != [];
  }

  lemma WakeWriteStep(s: Sys, c: nat, env: Env, s': Sys)
    requires SleepInv(s) && Ready(s)
    requires Enabled(s, RunWrite(c, env)) && Effect(s, RunWrite(c, env), s')
    ensures SleepInv(s')
  {
    var call, r := s.calls[c], WriteEndOf(s, c, env);
    RunWriteMeaning(s, c, env);
    WaitStep(s, c, r);
    EndsStep(s, RunWrite(c, env), s');
    SpareWriteStep(s, c, env, s');
    if r.out.Sleep? && r.wake {
      BroadcastWakes(s', s.calls, c, s'.calls[c]);
    } else if r.wake {
      LeavingOwes(s', c);
    } else {
      WakeQuietWrite(s, c, env, s');
    }
  }

  /** A writer that moved nothing and wakes nobody is one that nobody can be waiting for. */
  lemma WakeQuietWrite(s: Sys, c: nat, env: Env, s': Sys)
    requires SleepInv(s) && Ready(s)
    requires Enabled(s, RunWrite(c, env)) && Effect(s, RunWrite(c, env), s')
    requires !WriteEndOf(s, c, env).wake
    ensures WakeInv(s')
  {
    var call, r := s.calls[c], WriteEndOf(s, c, env);
    RunWriteMeaning(s, c, env);
    if WakeupOwed(s) {
      OwedStays(s, s', c, s'.calls[c]);
    } else if call.phase.Asleep? && s.pipe.bufs == [] {
      assert c in Sleepers(s.calls);
      assert s.pipe.readers == 0;
      forall d | d in s'.calls ensures ReaderMaySleep(s', s'.calls[d]) && WriterMaySleep(s', s'.calls[d]) {
        assert d != c ==> s'.calls[d] == s.calls[d] && WriterMaySleep(s, s.calls[d]);
      }
    } else {
      QuietStep(s, s', c, s'.calls[c]);
    }
  }

  lemma SleepStep(s: Sys, st: Step, s': Sys)
    requires CallsInv(s) && SleepInv(s) && Ready(s) && Enabled(s, st) && Effect(s, st, s')
    ensures SleepInv(s')
  {
    match st
    case RunRead(c, env) => WakeReadStep(s, c, env, s');
    case RunWrite(c, env) => WakeWriteStep(s, c, env, s');
    case StartRead(c, want, nonblock) => SleepStart(s, st, c, s');
    case StartWrite(c, data, nonblock) => SleepStart(s, st, c, s');
    case Finish(c) => SleepFinish(s, c, s');
    case Open(_, _) => SleepOpen(s, st, s');
    case Close(_, _) => SleepClose(s, st, s');
  }

  lemma SleepStart(s: Sys, st: Step, c: nat, s': Sys)
    requires SleepInv(s) && Ready(s) && Enabled(s, st) && Effect(s, st, s')
    requires (st.StartRead? || st.StartWrite?) && c == st.c
    ensures SleepInv(s')
  {
    EndsStep(s, st, s');
    WaitUnchanged(s, s', false, c, s'.calls[c]);
    QuietStep(s, s', c, s'.calls[c]);
  }

  lemma SleepFinish(s: Sys, c: nat, s': Sys)
    requires SleepInv(s) && Ready(s) && Enabled(s, Finish(c)) && Effect(s, Finish(c), s')
    ensures SleepInv(s')
  {
    EndsStep(s, Finish(c), s');
    WaitUnchanged(s, s', s.calls[c].phase.owes, c, s'.calls[c]);
    if s.calls[c].phase.owes {
      BroadcastWakes(s', s.calls, c, s'.calls[c]);
    } else if WakeupOwed(s) {
      OwedStays(s, s', c, s'.calls[c]);
    } else {
      forall d | d in s'.calls ensures ReaderMaySleep(s', s'.calls[d]) && WriterMaySleep(s', s'.calls[d]) {
        if d != c {
          assert ReaderMaySleep(s, s.calls[d]) && WriterMaySleep(s, s.calls[d]);
          if WokenWriter(s) {
            var w :| w in s.calls && SleepingWriter(s.calls[w]) && s.calls[w].phase.woken;
            assert s'.calls[w] == s.calls[w];
          }
        }
      }
    }
  }

  lemma SleepOpen(s: Sys, st: Step, s': Sys)
    requires SleepInv(s) && Ready(s) && st.Open? && Enabled(s, st) && Effect(s, st, s')
    ensures SleepInv(s')
  {
    EndsStep(s, st, s');
    assert WokenWriter(s) ==> WokenWriter(s');
    assert WakeupOwed(s) ==> WakeupOwed(s');
    if !WakeupOwed(s) {
      forall d | d in s'.calls ensures ReaderMaySleep(s', s'.calls[d]) && WriterMaySleep(s', s'.calls[d]) {
        assert ReaderMaySleep(s, s.calls[d]) && WriterMaySleep(s, s.calls[d]);
      }
    }
  }

  lemma SleepClose(s: Sys, st: Step, s': Sys)
    requires SleepInv(s) && Ready(s) && st.Close? && Enabled(s, st) && Effect(s, st, s')
    ensures SleepInv(s')
  {
    EndsStep(s, st, s');
    assert Sleepers(s'.calls) == Sleepers(s.calls);
    forall d | d in s'.calls ensures ReaderMaySleep(s', s'.calls[d]) && WriterMaySleep(s', s'.calls[d]) {
      assert s'.calls[d] == Woken(s.calls[d]);
    }
  }
}
