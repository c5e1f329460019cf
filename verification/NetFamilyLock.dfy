/**
  The lock around `net_families`: readers bump a counter and wait until the spinlock is free,
  writers take the spinlock and give it back as long as the counter is not zero. Each load, store
  or atomic operation on shared memory is one step, and memory is sequentially consistent.
 */
module NetFamilyLock {
  import opened Options

  type Family = nat

  /** What a writer is there for: `sock_register` or `sock_unregister`. */
  datatype WriterOp = Register(slot: nat, family: Family) | Unregister(slot: nat)

  /**
    Where a thread stands. A reader in its section remembers what each of its loads of
    `net_families[slot]` returned.
   */
  datatype Thread =
    | Idle
    | ReaderCounted(slot: nat)
    | ReaderIn(slot: nat, loads: seq<Option<Family>>)
    | WriterSpinning(op: WriterOp)
    | WriterHolding(op: WriterOp)
    | WriterBacking(op: WriterOp)
    | WriterIn(op: WriterOp)
    | WriterFound(op: WriterOp, empty: bool)
    | WriterLeaving(op: WriterOp)

  datatype State = State(lockct: int, holder: Option<nat>, families: map<nat, Family>, threads: map<nat, Thread>)

  datatype Step =
    | ReadStart(slot: nat) | ReadEnter | ReadLoad | ReadExit
    | WriteStart(op: WriterOp) | WriteLock | WriteCheck | WriteBackOff | WriteLook | WriteStore | WriteUnlock

  function Load(families: map<nat, Family>, slot: nat): Option<Family>
  {
    if slot in families then Some(families[slot]) else None
  }

  /** `sock_register` stores its family, `sock_unregister` NULL. */
  function Stored(families: map<nat, Family>, op: WriterOp): map<nat, Family>
  {
    match op
    case Register(slot, f) => families[slot := f]
    case Unregister(slot) => families - {slot}
  }

  ghost predicate Enabled(s: State, t: nat, st: Step)
  {
    t in s.threads &&
    match (st, s.threads[t])
    case (ReadStart(_), Idle) => true
    case (ReadEnter, ReaderCounted(_)) => s.holder == None
    case (ReadLoad, ReaderIn(_, _)) => true
    case (ReadExit, ReaderIn(_, _)) => true
    case (WriteStart(_), Idle) => true
    case (WriteLock, WriterSpinning(_)) => s.holder == None
    case (WriteCheck, WriterHolding(_)) => true
    case (WriteBackOff, WriterBacking(_)) => true
    case (WriteLook, WriterIn(Register(_, _))) => true
    case (WriteStore, WriterIn(Unregister(_))) => true
    case (WriteStore, WriterFound(_, true)) => true
    case (WriteUnlock, WriterFound(_, false)) => true
    case (WriteUnlock, WriterLeaving(_)) => true
    case _ => false
  }

  ghost function Next(s: State, t: nat, st: Step): State
    requires Enabled(s, t, st)
  {
    var me := s.threads[t];
    match st
    case ReadStart(slot) => s.(lockct := s.lockct + 1, threads := s.threads[t := ReaderCounted(slot)])
    case ReadEnter => s.(threads := s.threads[t := ReaderIn(me.slot, [])])
    case ReadLoad => s.(threads := s.threads[t := me.(loads := me.loads + [Load(s.families, me.slot)])])
    case ReadExit => s.(lockct := s.lockct - 1, threads := s.threads[t := Idle])
    case WriteStart(op) => s.(threads := s.threads[t := WriterSpinning(op)])
    case WriteLock => s.(holder := Some(t), threads := s.threads[t := WriterHolding(me.op)])
    case WriteCheck =>
      s.(threads := s.threads[t := if s.lockct != 0 then WriterBacking(me.op) else WriterIn(me.op)])
    case WriteBackOff => s.(holder := None, threads := s.threads[t := WriterSpinning(me.op)])
    case WriteLook => s.(threads := s.threads[t := WriterFound(me.op, Load(s.families, me.op.slot) == None)])
    case WriteStore => s.(families := Stored(s.families, me.op), threads := s.threads[t := WriterLeaving(me.op)])
    case WriteUnlock => s.(holder := None, threads := s.threads[t := Idle])
  }

  // ---------------------------------------------------------------- invariant

  predicate Counted(th: Thread)
  {
    th.ReaderCounted? || th.ReaderIn?
  }

  predicate HasLock(th: Thread)
  {
    th.WriterHolding? || th.WriterBacking? || Writing(th)
  }

  predicate Writing(th: Thread)
  {
    th.WriterIn? || th.WriterFound? || th.WriterLeaving?
  }

  ghost function Readers(threads: map<nat, Thread>): set<nat>
  {
    set t | t in threads && Counted(threads[t])
  }

  ghost predicate Excludes(s: State)
  {
    forall r, w :: r in s.threads && w in s.threads && s.threads[r].ReaderIn? ==> !Writing(s.threads[w])
  }

  /** Every load a reader made in its section returned what the slot holds now. */
  ghost predicate LoadsAgree(s: State)
  {
    forall t, i :: t in s.threads && s.threads[t].ReaderIn? && 0 <= i < |s.threads[t].loads| ==>
      s.threads[t].loads[i] == Load(s.families, s.threads[t].slot)
  }

  /** What a registration found is still so, and what a writer stored is still there. */
  ghost predicate SlotsAgree(s: State)
  {
    forall t :: t in s.threads ==>
      match s.threads[t]
      case WriterFound(op, empty) => op.Register? && (empty <==> Load(s.families, op.slot) == None)
      case WriterLeaving(Register(slot, family)) => Load(s.families, slot) == Some(family)
      case WriterLeaving(Unregister(slot)) => Load(s.families, slot) == None
      case _ => true
  }

  ghost predicate Inv(s: State)
  {
    && s.lockct == |Readers(s.threads)|
    && (forall t :: t in s.threads && HasLock(s.threads[t]) ==> s.holder == Some(t))
    && (s.holder.Some? ==> s.holder.value in s.threads && HasLock(s.threads[s.holder.value]))
    && Excludes(s)
    && LoadsAgree(s)
    && SlotsAgree(s)
  }

  lemma ReadersUpdate(threads: map<nat, Thread>, t: nat, th: Thread)
    requires t in threads
    ensures |Readers(threads[t := th])|
         == |Readers(threads)| + (if Counted(th) then 1 else 0) - (if Counted(threads[t]) then 1 else 0)
  {
    var before, after := Readers(threads), Readers(threads[t := th]);
    var others := before - {t};
    assert t !in others && |others + {t}| == |others| + 1;
    assert after == if Counted(th) then others + {t} else others;
    assert before == if Counted(threads[t]) then others + {t} else others;
  }

  /** Every step of every thread keeps the invariant. */
  lemma NextKeepsInv(s: State, t: nat, st: Step)
    requires Inv(s) && Enabled(s, t, st)
    ensures Inv(Next(s, t, st))
  {
    var s' := Next(s, t, st);
    ReadersUpdate(s.threads, t, s'.threads[t]);
    assert s'.threads == s.threads[t := s'.threads[t]];
    if st.WriteCheck? && s.lockct == 0 {
      NoReadersWhenZero(s);
    }
  }

  lemma NoReadersWhenZero(s: State)
    requires Inv(s) && s.lockct == 0
    ensures forall t :: t in s.threads ==> !Counted(s.threads[t])
  {
    forall t | t in s.threads ensures !Counted(s.threads[t]) {
      assert t !in Readers(s.threads);
    }
  }

  ghost predicate Initial(s: State)
  {
    s.lockct == 0 && s.holder == None && forall t :: t in s.threads ==> s.threads[t] == Idle
  }

  ghost predicate IsRun(states: seq<State>, steps: seq<(nat, Step)>)
  {
    && |states| == |steps| + 1 && Initial(states[0])
    && forall i :: 0 <= i < |steps| ==>
         Enabled(states[i], steps[i].0, steps[i].1) && states[i + 1] == Next(states[i], steps[i].0, steps[i].1)
  }

  lemma {:induction false} RunInv(states: seq<State>, steps: seq<(nat, Step)>, i: nat)
    requires IsRun(states, steps) && i < |states|
    ensures Inv(states[i])
  {
    if i == 0 {
      assert Readers(states[0].threads) == {};
    } else {
      RunInv(states, steps, i - 1);
      NextKeepsInv(states[i - 1], steps[i - 1].0, steps[i - 1].1);
      assert states[i - 1 + 1] == Next(states[i - 1], steps[i - 1].0, steps[i - 1].1);
    }
  }

  /** No writer is in its section while a reader is in its own, for any number of threads. */
  lemma MutualExclusion(states: seq<State>, steps: seq<(nat, Step)>, i: nat, r: nat, w: nat)
    requires IsRun(states, steps) && i < |states| && r in states[i].threads && w in states[i].threads
    ensures !(states[i].threads[r].ReaderIn? && Writing(states[i].threads[w]))
    ensures r != w ==> !(HasLock(states[i].threads[r]) && HasLock(states[i].threads[w]))
  {
    RunInv(states, steps, i);
  }

  /** All loads a reader makes between lock and unlock return the same, so a slot found filled stays filled. */
  lemma SlotIsStable(states: seq<State>, steps: seq<(nat, Step)>, i: nat, r: nat)
    requires IsRun(states, steps) && i < |states| && r in states[i].threads && states[i].threads[r].ReaderIn?
    ensures var me := states[i].threads[r];
            forall j :: 0 <= j < |me.loads| ==> me.loads[j] == Load(states[i].families, me.slot)
  {
    RunInv(states, steps, i);
  }

  predicate Starting(st: Step)
  {
    st.ReadStart? || st.WriteStart?
  }

  /** Whoever is under way, somebody under way can move; a waiting reader waits only for a writer that can move. */
  lemma NeverStuck(states: seq<State>, steps: seq<(nat, Step)>, i: nat, t: nat)
    requires IsRun(states, steps) && i < |states| && t in states[i].threads && states[i].threads[t] != Idle
    ensures exists u, st :: Enabled(states[i], u, st) && !Starting(st)
    ensures (exists st :: Enabled(states[i], t, st) && !Starting(st))
         || (states[i].holder.Some? && exists st :: Enabled(states[i], states[i].holder.value, st) && !Starting(st))
  {
    RunInv(states, steps, i);
    var s := states[i];
    var u := if s.holder.Some? then s.holder.value else t;
    var th := s.threads[u];
    var st := match th
              case ReaderCounted(_) => ReadEnter
              case ReaderIn(_, _) => ReadExit
              case WriterSpinning(_) => WriteLock
              case WriterHolding(_) => WriteCheck
              case WriterBacking(_) => WriteBackOff
              case WriterIn(op) => if op.Register? then WriteLook else WriteStore
              case WriterFound(_, empty) => if empty then WriteStore else WriteUnlock
              case _ => WriteUnlock;
    assert Enabled(s, u, st) && !Starting(st);
  }

  /**
    A slot changes only when a writer of that slot stores, and then no reader is in its section. An empty
    slot gets the family that is registered; a filled one can only be emptied, never replaced.
   */
  lemma SlotChanges(states: seq<State>, steps: seq<(nat, Step)>, i: nat, slot: nat)
    requires IsRun(states, steps) && i < |steps| && Load(states[i].families, slot) != Load(states[i + 1].families, slot)
    ensures var s, t := states[i], steps[i].0;
            && steps[i].1 == WriteStore && t in s.threads && Writing(s.threads[t]) && s.threads[t].op.slot == slot
            && (forall r :: r in s.threads ==> !s.threads[r].ReaderIn?)
            && (if slot in s.families then s.threads[t].op.Unregister? && Load(states[i + 1].families, slot) == None
                else s.threads[t].op.Register? && Load(states[i + 1].families, slot) == Some(s.threads[t].op.family))
  {
    RunInv(states, steps, i);
    var s, t := states[i], steps[i].0;
    assert Enabled(s, t, steps[i].1) && states[i + 1] == Next(s, t, steps[i].1);
  }

  /** When a writer is about to unlock, its slot holds what it stored, or the family that was there before it. */
  lemma WriterSeesItsSlot(states: seq<State>, steps: seq<(nat, Step)>, i: nat, t: nat)
    requires IsRun(states, steps) && i < |states| && t in states[i].threads && Enabled(states[i], t, WriteUnlock)
    ensures var op, now := states[i].threads[t].op, Load(states[i].families, states[i].threads[t].op.slot);
            if op.Unregister? then now == None
            else if states[i].threads[t].WriterLeaving? then now == Some(op.family)
            else now != None
  {
    RunInv(states, steps, i);
  }
}
