/** The queue of transport provider messages behind `getmsg` and `putmsg`, and binding over it. */
module TpiQueue {
  import opened Words

  /** `sizeof(long)` of the emulated programs, left open. */
  const LONG: LongSize

  type LongSize = n: nat | n == 4 || n == 8 witness 4

  const T_CONN_REQ := 0
  const T_BIND_REQ := 6
  const T_CONN_CON := 12
  const T_DISCON_IND := 13
  const T_BIND_ACK := 17
  const T_ERROR_ACK := 18
  const T_OK_ACK := 19

  const TACCES := 3
  const TNOADDR := 5
  const TOUTSTATE := 6
  const TBADSEQ := 7
  const TSYSERR := 8

  const EINVAL := 22
  const EACCES := 13
  const EADDRINUSE := 98
  const EADDRNOTAVAIL := 99
  const EFAULT := 14
  const ENOMEM := 12

  /** `struct T_primsg`: `length` of the bytes of `data` are still to be read. */
  class Message {
    var next: Message?
    var length: nat
    const data: seq<byte>

    constructor (data: seq<byte>)
      ensures this.data == data && length == |data| && next == null
    {
      this.data, length, next := data, |data|, null;
    }
  }

  /** The contents of the messages of a queue. */
  ghost function Datas(q: seq<Message>): seq<seq<byte>>
  {
    if q == [] then [] else Datas(q[..|q| - 1]) + [q[|q| - 1].data]
  }

  lemma {:induction false} DatasMeaning(q: seq<Message>)
    ensures |Datas(q)| == |q| && forall i :: 0 <= i < |q| ==> Datas(q)[i] == q[i].data
  {
    if q != [] {
      DatasMeaning(q[..|q| - 1]);
    }
  }

  lemma {:induction false} DatasFront(it: Message, q: seq<Message>)
    ensures Datas([it] + q) == [it.data] + Datas(q)
  {
    if q == [] {
      assert [it] + q == [it] && [it][..0] == [];
    } else {
      var n := |q| - 1;
      DatasFront(it, q[..n]);
      assert ([it] + q)[..n + 1] == [it] + q[..n];
      Regroup([it.data], Datas(q[..n]), [q[n].data]);
    }
  }

  lemma {:induction false} DatasBack(q: seq<Message>, it: Message)
    ensures Datas(q + [it]) == Datas(q) + [it.data]
  {
    assert (q + [it])[..|q|] == q;
  }

  ghost function Messages(q: seq<Message>): set<Message>
  {
    set m | m in q
  }

  lemma MessagesFront(it: Message, q: seq<Message>)
    ensures Messages([it] + q) == Messages(q) + {it}
  {}

  lemma MessagesBack(q: seq<Message>, it: Message)
    ensures Messages(q + [it]) == Messages(q) + {it}
  {}

  ghost function Sum(sizes: seq<nat>): nat
  {
    if sizes == [] then 0 else Sum(sizes[..|sizes| - 1]) + sizes[|sizes| - 1]
  }

  lemma {:induction false} SumPrefix(sizes: seq<nat>, i: nat)
    requires i <= |sizes|
    ensures Sum(sizes[..i]) <= Sum(sizes)
    decreases |sizes|
  {
    if i < |sizes| {
      var init := sizes[..|sizes| - 1];
      SumPrefix(init, i);
      assert init[..i] == sizes[..i];
    } else {
      assert sizes[..i] == sizes;
    }
  }

  lemma SumNext(sizes: seq<nat>, i: nat)
    requires i < |sizes|
    ensures Sum(sizes[..i + 1]) == Sum(sizes[..i]) + sizes[i]
  {
    assert sizes[..i + 1][..i] == sizes[..i];
  }

  /** What an acknowledgement adds in front of the queue, if there is memory for it. */
  ghost function Front(memory: bool, ack: seq<byte>): seq<seq<byte>>
  {
    if memory then [ack] else []
  }

  datatype State = Unbound | Idle | WaitConnInd | DataTransfer

  function OkAck(prim: nat): seq<byte>
  {
    Encode(T_OK_ACK, LONG) + Encode(prim, LONG)
  }

  function ErrorAck(prim: nat, tli: nat, unix: nat): (s: seq<byte>)
    ensures |s| == 4 * LONG
  {
    Encode(T_ERROR_ACK, LONG) + Encode(prim, LONG) + (Encode(tli, LONG) + Encode(unix, LONG))
  }

  /** `sizeof(struct T_ok_ack)` or `sizeof(struct T_error_ack)` */
  function AckSize(ok: bool): nat
  {
    if ok then 2 * LONG else 4 * LONG
  }

  ghost predicate IsErrorAck(data: seq<byte>)
  {
    exists tli: nat, unix: nat :: data == ErrorAck(T_BIND_REQ, tli, unix)
  }

  /** The request with the primitive replaced, as long as the request was. */
  function BindAck(ctl: seq<byte>): (s: seq<byte>)
    ensures |s| == |ctl|
  {
    if |ctl| < LONG then Encode(T_BIND_ACK, LONG)[..|ctl|] else Encode(T_BIND_ACK, LONG) + ctl[LONG..]
  }

  /** A confirmation echoes the request, as a bind acknowledgement does. */
  function ConnCon(ctl: seq<byte>): seq<byte>
  {
    if |ctl| < LONG then Encode(T_CONN_CON, LONG)[..|ctl|] else Encode(T_CONN_CON, LONG) + ctl[LONG..]
  }

  function DisconInd(error: int): seq<byte>
  {
    Encode(T_DISCON_IND, LONG) + Encode(Negated(error), LONG) + Encode(0, LONG)
  }

  /** `struct T_bind_req` and the bytes it came in. */
  datatype BindRequest = BindRequest(ctl: seq<byte>, addressOffset: int, addressLength: int, connections: nat)
  {
    predicate HasAddress()
    {
      addressOffset != 0 && addressLength != 0
    }

    function Target(): State
    {
      if connections != 0 then WaitConnInd else Idle
    }
  }

  /**
    What happens during a bind: whether the request lies in user memory, an error of the scratch space,
    whether the request can be copied, what the socket call returns, whether the answer and the
    acknowledgement can be allocated and the answer be copied.
   */
  datatype Chances = Chances(area: bool, stack: int, copy: bool, bind: int, answerMemory: bool, answerCopy: bool, ackMemory: bool)
  {
    predicate Reached(state: State)
    {
      area && state == Unbound && stack == 0 && copy
    }

    predicate Accepted(state: State, req: BindRequest)
    {
      Reached(state) && (req.HasAddress() ==> bind == 0)
    }

    predicate Faults(state: State, req: BindRequest)
    {
      !area || (state == Unbound && stack == 0 && !copy) || (Accepted(state, req) && answerMemory && !answerCopy)
    }

    /** The socket is bound, but the answer cannot be made or the acknowledgement not be read with one call. */
    predicate BoundUnanswered(state: State, req: BindRequest)
    {
      Accepted(state, req) && req.HasAddress() && !(answerMemory && answerCopy && |req.ctl| >= AckSize(true))
    }

    predicate Connects(state: State)
    {
      area && (state == Unbound || state == Idle) && stack == 0 && copy
    }

    /** A connect gets as far as its answer. */
    predicate Replies(state: State, connect: int)
    {
      Connects(state) && answerMemory && (connect == 0 ==> answerCopy)
    }

    /** A connect request is turned down before it is read. */
    predicate TurnsDown(state: State)
    {
      area && ((state != Unbound && state != Idle) || stack != 0)
    }

    function ConnectRefusal(state: State): seq<byte>
    {
      if state != Unbound && state != Idle then ErrorAck(T_CONN_REQ, TOUTSTATE, 0)
      else ErrorAck(T_CONN_REQ, TSYSERR, Negated(stack))
    }

    /** The TLI and UNIX error of a bind that is not accepted. */
    function Errors(state: State, req: BindRequest): (nat, nat)
    {
      if state != Unbound then (TOUTSTATE, 0)
      else if stack != 0 then (TSYSERR, Negated(stack))
      else
        var error := if req.HasAddress() then bind else 0;
        if error == -EINVAL then (TOUTSTATE, 0)
        else if error == -EACCES then (TACCES, 0)
        else if error == -EADDRNOTAVAIL || error == -EADDRINUSE then (TNOADDR, 0)
        else (TSYSERR, Negated(error))
    }

    function Refusal(state: State, req: BindRequest): seq<byte>
    {
      ErrorAck(T_BIND_REQ, Errors(state, req).0, Errors(state, req).1)
    }
  }

  /** `-error` */
  function Negated(error: int): nat
  {
    if error < 0 then -error else 0
  }

  /** `Fault`: an error is returned. `Crash`: the answer would be linked behind a NULL `plast`. */
  datatype Reply = Sent | Fault | Crash

  /** `struct T_private` */
  class Endpoint {
    var state: State
    var offset: nat
    var pfirst: Message?
    var plast: Message?
    /** The messages from `pfirst` along `next`. */
    ghost var queue: seq<Message>

    constructor ()
      ensures List() && Aligned() && queue == [] && state == Unbound
    {
      state, offset, pfirst, plast, queue := Unbound, 0, null, null, [];
    }

    ghost predicate LinkAt(i: int)
      reads `queue, queue
    {
      0 <= i < |queue| ==> queue[i].next == if i + 1 < |queue| then queue[i + 1] else null
    }

    ghost predicate DifferAt(i: int, j: int)
      reads `queue
    {
      0 <= i < j < |queue| ==> queue[i] != queue[j]
    }

    /** `pfirst` and `plast` delimit an acyclic list. */
    ghost predicate List()
      reads `pfirst, `plast, `queue, queue
    {
      && pfirst == (if queue == [] then null else queue[0])
      && plast == (if queue == [] then null else queue[|queue| - 1])
      && (forall i :: LinkAt(i)) && (forall i, j :: DifferAt(i, j))
    }

    ghost predicate WholeAt(i: int)
      reads `queue, queue
    {
      0 < i < |queue| ==> queue[i].length == |queue[i].data|
    }

    /** `offset` is how much of the first message has been read; the others are whole. */
    ghost predicate Aligned()
      reads `offset, `queue, queue
    {
      && (if queue == [] then offset == 0 else offset + queue[0].length == |queue[0].data|)
      && forall i :: WholeAt(i)
    }

    /** Nothing of the first message has been read. */
    ghost predicate Unread()
      reads `offset, `queue, queue
    {
      Aligned() && offset == 0
    }

    /** `timod_ok` and `timod_error`: the acknowledgement goes in front, whatever has been read of the first message. */
    method PushFront(it: Message)
      requires List() && it !in queue && it.length == |it.data|
      modifies `pfirst, `plast, `queue, it`next
      ensures List() && queue == [it] + old(queue)
      ensures old(Aligned()) ==> (Aligned() <==> offset == 0)
    {
      it.next := pfirst;
      pfirst := it;
      if plast == null {
        plast := it;
      }
      ghost var rest := queue;
      queue := [it] + queue;
      forall i ensures LinkAt(i) {
        assert old(LinkAt(i - 1));
      }
      forall i, j ensures DifferAt(i, j) {
        assert old(DifferAt(i - 1, j - 1));
        assert 0 < j < |queue| ==> queue[j] == rest[j - 1];
      }
      if old(Aligned()) && offset == 0 {
        forall i ensures WholeAt(i) {
          assert old(WholeAt(i - 1));
        }
      }
    }

    /** The answer to a request goes behind its acknowledgement. */
    method Append(it: Message)
      requires List() && queue != [] && it !in queue && it.length == |it.data| && it.next == null
      modifies `plast, `queue, plast`next
      ensures List() && queue == old(queue) + [it]
      ensures old(Aligned()) ==> Aligned()
    {
      ghost var before := queue;
      plast.next := it;
      plast := it;
      queue := queue + [it];
      forall i ensures LinkAt(i) {
        assert old(LinkAt(i)) && old(DifferAt(i, |queue| - 1));
        assert 0 <= i < |before| ==> queue[i] == before[i];
        assert 0 <= i < |before| - 1 ==> before[i] != before[|before| - 1] by {
          assert old(DifferAt(i, |queue| - 1));
        }
      }
      forall i, j ensures DifferAt(i, j) {
        assert old(DifferAt(i, j));
      }
      if old(Aligned()) {
        forall i ensures WholeAt(i) {
          assert old(WholeAt(i));
        }
      }
    }

    /** `kfree` of the first message. */
    method Pop()
      requires List() && queue != [] && forall i :: WholeAt(i)
      modifies `pfirst, `plast, `queue, `offset
      ensures List() && Aligned() && queue == old(queue)[1..] && offset == 0
    {
      assert LinkAt(0);
      pfirst := pfirst.next;
      if pfirst == null {
        plast := null;
      }
      offset := 0;
      ghost var before := queue;
      queue := queue[1..];
      forall i ensures LinkAt(i) {
        assert old(LinkAt(i + 1));
      }
      forall i, j ensures DifferAt(i, j) {
        assert old(DifferAt(i + 1, j + 1));
      }
      forall i ensures WholeAt(i) {
        assert old(WholeAt(i + 1));
      }
      assert old(WholeAt(1));
    }

    /** The queue part of `do_getmsg`: up to `max` bytes of the first message; 1 (`MORECTL`) if bytes are left. */
    method GetMsg(max: nat, fault: bool) returns (r: int, piece: seq<byte>)
      requires List() && Aligned() && queue != []
      modifies this, pfirst`length
      ensures List() && Aligned() && state == old(state)
      ensures fault ==> r == -EFAULT && piece == [] && queue == old(queue) && offset == old(offset)
      ensures !fault ==>
        var m, from := old(queue)[0], old(offset);
        && from + |piece| <= |m.data| && piece == m.data[from..from + |piece|] && |piece| <= max
        && (r == 0 || r == 1)
        && (r == 1 ==> queue == old(queue) && offset == from + |piece| && |piece| == max)
        && (r == 0 ==> queue == old(queue)[1..] && offset == 0 && from + |piece| == |m.data|)
        && (r == 0 <==> old(queue[0].length) <= max)
    {
      piece := [];
      if fault {
        r := -EFAULT;
      } else {
        var l := if max <= pfirst.length then max else pfirst.length;
        piece := pfirst.data[offset..offset + l];
        pfirst.length := pfirst.length - l;
        r := if pfirst.length != 0 then 1 else 0;
        offset := if r == 1 then offset + l else offset;
        forall i ensures LinkAt(i) && WholeAt(i) {
          assert old(LinkAt(i)) && old(WholeAt(i)) && old(DifferAt(0, i));
        }
        if r == 0 {
          Pop();
        }
      }
    }

    /** One more piece, behind those that were read from `start` on. */
    method ReadPiece(max: nat, before: seq<byte>, ghost m: Message, ghost start: nat) returns (done: bool, pieces: seq<byte>)
      requires List() && Aligned() && queue != [] && m == queue[0] && start <= offset && before == m.data[start..offset]
      modifies this, pfirst`length
      ensures List() && Aligned() && state == old(state)
      ensures done <==> |m.data| - old(offset) <= max
      ensures done ==> pieces == m.data[start..] && queue == old(queue)[1..]
      ensures !done ==> queue == old(queue) && offset == old(offset) + max && pieces == m.data[start..offset]
    {
      ghost var from := offset;
      var r, piece := GetMsg(max, false);
      SliceSplit(m.data, start, from, from + |piece|);
      done, pieces := r == 0, before + piece;
      assert done ==> m.data[start..|m.data|] == m.data[start..];
    }

    /** Reads the first message piece by piece; if no request comes in between, the pieces make up the message. */
    method ReadMessage(sizes: seq<nat>) returns (done: bool, pieces: seq<byte>)
      requires List() && Aligned() && queue != []
      modifies this, pfirst`length
      ensures List() && Aligned() && state == old(state)
      ensures done <==> sizes != [] && Sum(sizes) >= old(queue[0].length)
      ensures done ==> pieces == old(queue[0].data[offset..]) && queue == old(queue)[1..]
      ensures !done ==> queue == old(queue) && old(offset) <= offset && pieces == queue[0].data[old(offset)..offset]
    {
      ghost var m, total, start, all := queue[0], queue[0].length, offset, queue;
      done, pieces := false, [];
      var i := 0;
      while i < |sizes| && !done
        invariant List() && Aligned() && state == old(state) && i <= |sizes|
        invariant !done ==> queue == all && offset == start + Sum(sizes[..i]) && offset <= |m.data| && pieces == m.data[start..offset]
        invariant done ==> pieces == m.data[start..] && queue == all[1..]
        invariant if done then i > 0 && total <= Sum(sizes[..i]) else i > 0 ==> Sum(sizes[..i]) < total
      {
        SumNext(sizes, i);
        done, pieces := ReadPiece(sizes[i], pieces, m, start);
        i := i + 1;
      }
      SumPrefix(sizes, i);
      assert !done ==> sizes[..i] == sizes;
    }

    method PushNew(data: seq<byte>, ghost unread: bool)
      requires List() && (unread ==> Unread())
      modifies `pfirst, `plast, `queue
      ensures List() && (unread ==> Unread()) && queue != []
      ensures Datas(queue) == [data] + Datas(old(queue)) && fresh(Messages(queue) - old(Messages(queue)))
      ensures plast == old(plast) || fresh(plast)
    {
      var it := new Message(data);
      PushFront(it);
      DatasFront(it, old(queue));
      MessagesFront(it, old(queue));
    }

    method AppendNew(data: seq<byte>, ghost unread: bool)
      requires List() && queue != [] && (unread ==> Unread())
      modifies `plast, `queue, plast`next
      ensures List() && (unread ==> Unread())
      ensures Datas(queue) == Datas(old(queue)) + [data] && fresh(Messages(queue) - old(Messages(queue)))
    {
      var it := new Message(data);
      DatasBack(queue, it);
      MessagesBack(queue, it);
      Append(it);
    }

    /** `timod_ok` and `timod_error` with the allocation they begin with. */
    method Acknowledge(data: seq<byte>, memory: bool, ghost unread: bool)
      requires List() && (unread ==> Unread())
      modifies `pfirst, `plast, `queue
      ensures List() && (unread ==> Unread())
      ensures Datas(queue) == Front(memory, data) + Datas(old(queue))
      ensures !memory ==> queue == old(queue)
      ensures plast == old(plast) || fresh(plast)
      ensures fresh(Messages(queue) - old(Messages(queue))) && (queue == [] <==> !memory && old(queue) == [])
    {
      if memory {
        PushNew(data, unread);
      } else {
        assert [] + Datas(queue) == Datas(queue);
      }
    }

    /** An acknowledgement in front and the answer at the end. False if there is no last message to link it to. */
    method Answer(ack: seq<byte>, answer: seq<byte>, memory: bool, ghost unread: bool) returns (ok: bool)
      requires List() && (unread ==> Unread())
      modifies `pfirst, `plast, `queue, (if plast == null then {} else {plast})`next
      ensures List() && (unread ==> Unread())
      ensures ok <==> memory || old(queue) != []
      ensures fresh(Messages(queue) - old(Messages(queue))) && state == old(state)
      ensures !ok ==> queue == old(queue)
      ensures ok ==> Datas(queue) == Front(memory, ack) + Datas(old(queue)) + [answer]
    {
      Acknowledge(ack, memory, unread);
      ok := plast != null;
      if ok {
        AppendNew(answer, unread);
      }
    }

    /** The last part of a bind: the refusal, or the answer if there is memory for it. */
    method Respond(accepted: bool, refusal: seq<byte>, ack: seq<byte>, answer: seq<byte>, env: Chances, ghost unread: bool) returns (r: Reply)
      requires List() && (unread ==> Unread())
      modifies `pfirst, `plast, `queue, (if plast == null then {} else {plast})`next
      ensures List() && (unread ==> Unread())
      ensures r == Crash <==> accepted && env.answerMemory && env.answerCopy && !env.ackMemory && old(queue) == []
      ensures r == Fault <==> accepted && env.answerMemory && !env.answerCopy
      ensures r == Sent && accepted && env.answerMemory ==> Datas(queue) == Front(env.ackMemory, ack) + Datas(old(queue)) + [answer]
      ensures r == Sent && !(accepted && env.answerMemory) ==> Datas(queue) == Front(env.ackMemory, refusal) + Datas(old(queue))
      ensures r != Sent ==> queue == old(queue)
      ensures fresh(Messages(queue) - old(Messages(queue))) && state == old(state)
    {
      if !accepted || !env.answerMemory {
        Acknowledge(refusal, env.ackMemory, unread);
        r := Sent;
      } else if !env.answerCopy {
        r := Fault;
      } else {
        var ok := Answer(ack, answer, env.ackMemory, unread);
        r := if ok then Sent else Crash;
      }
    }

    /** The T_BIND_REQ case of `do_putmsg`. */
    method BindRequest(req: BindRequest, env: Chances, ghost unread: bool) returns (r: Reply, espRestored: bool)
      requires List() && (unread ==> Unread())
      modifies `state, `pfirst, `plast, `queue, (if plast == null then {} else {plast})`next
      ensures List() && (unread ==> Unread())
      ensures state == if env.Reached(old(state)) && env.bind == 0 && req.HasAddress() then req.Target() else old(state)
      ensures r == Crash <==> env.Accepted(old(state), req) && env.answerMemory && env.answerCopy && !env.ackMemory && old(queue) == []
      ensures r == Fault <==> env.Faults(old(state), req)
      ensures espRestored <==> !(env.area && old(state) == Unbound && env.stack == 0 && !env.copy)
      ensures r == Sent && env.Accepted(old(state), req) && env.answerMemory ==>
        Datas(queue) == Front(env.ackMemory, OkAck(T_BIND_REQ)) + Datas(old(queue)) + [BindAck(req.ctl)]
      ensures r == Sent && !(env.Accepted(old(state), req) && env.answerMemory) ==>
        Datas(queue) == Front(env.ackMemory, env.Refusal(old(state), req)) + Datas(old(queue))
      ensures r != Sent ==> queue == old(queue)
      ensures fresh(Messages(queue) - old(Messages(queue)))
    {
      r, espRestored := Sent, true;
      if !env.area {
        r := Fault;
      } else if state != Unbound || env.stack != 0 {
        Acknowledge(env.Refusal(state, req), env.ackMemory, unread);
      } else if !env.copy {
        r, espRestored := Fault, false;
      } else {
        r := TryBind(req, env, unread);
      }
    }

    /** The request has been read: bind if there is an address, and answer. */
    method TryBind(req: BindRequest, env: Chances, ghost unread: bool) returns (r: Reply)
      requires List() && (unread ==> Unread()) && env.Reached(state)
      modifies `state, `pfirst, `plast, `queue, (if plast == null then {} else {plast})`next
      ensures List() && (unread ==> Unread())
      ensures state == if env.bind == 0 && req.HasAddress() then req.Target() else old(state)
      ensures r == Crash <==> env.Accepted(old(state), req) && env.answerMemory && env.answerCopy && !env.ackMemory && old(queue) == []
      ensures r == Fault <==> env.Accepted(old(state), req) && env.answerMemory && !env.answerCopy
      ensures r == Sent && env.Accepted(old(state), req) && env.answerMemory ==>
        Datas(queue) == Front(env.ackMemory, OkAck(T_BIND_REQ)) + Datas(old(queue)) + [BindAck(req.ctl)]
      ensures r == Sent && !(env.Accepted(old(state), req) && env.answerMemory) ==>
        Datas(queue) == Front(env.ackMemory, env.Refusal(old(state), req)) + Datas(old(queue))
      ensures r != Sent ==> queue == old(queue)
      ensures fresh(Messages(queue) - old(Messages(queue)))
    {
      var refusal := env.Refusal(state, req);
      var error := if req.HasAddress() then env.bind else 0;
      if req.HasAddress() && error == 0 {
        state := req.Target();
      }
      r := Respond(error == 0, refusal, OkAck(T_BIND_REQ), BindAck(req.ctl), env, unread);
    }

    /** The T_CONN_REQ case of `do_putmsg`; `connect` is what the socket call returns, `ctl` the request. */
    method ConnectRequest(ctl: seq<byte>, connect: int, env: Chances, ghost unread: bool) returns (r: Reply, espRestored: bool)
      requires List() && (unread ==> Unread())
      modifies `state, `pfirst, `plast, `queue, (if plast == null then {} else {plast})`next
      ensures List() && (unread ==> Unread())
      ensures state == if env.Connects(old(state)) && connect == 0 && env.answerMemory && env.answerCopy then DataTransfer else old(state)
      ensures r == Crash <==> env.Replies(old(state), connect) && !env.ackMemory && old(queue) == []
      ensures espRestored <==> !(env.area && (old(state) == Unbound || old(state) == Idle) && env.stack == 0 && !env.copy)
      ensures r == Fault <==> !env.TurnsDown(old(state)) && !env.Replies(old(state), connect)
      ensures r == Sent && env.Replies(old(state), connect) ==>
        Datas(queue) == Front(env.ackMemory, OkAck(T_CONN_REQ)) + Datas(old(queue)) + [if connect == 0 then ConnCon(ctl) else DisconInd(connect)]
      ensures env.TurnsDown(old(state)) ==> Datas(queue) == Front(env.ackMemory, env.ConnectRefusal(old(state))) + Datas(old(queue))
      ensures r != Sent ==> queue == old(queue)
      ensures fresh(Messages(queue) - old(Messages(queue)))
    {
      r, espRestored := Fault, true;
      if !env.area {
      } else if (state != Unbound && state != Idle) || env.stack != 0 {
        Acknowledge(env.ConnectRefusal(state), env.ackMemory, unread);
        r := Sent;
      } else if !env.copy {
        espRestored := false;
      } else {
        r := TryConnect(if connect == 0 then ConnCon(ctl) else DisconInd(connect), connect, env, unread);
      }
    }

    /** The request has been read and the socket call made: answer if the answer can be made. */
    method TryConnect(answer: seq<byte>, connect: int, env: Chances, ghost unread: bool) returns (r: Reply)
      requires List() && (unread ==> Unread()) && env.Connects(state)
      modifies `state, `pfirst, `plast, `queue, (if plast == null then {} else {plast})`next
      ensures List() && (unread ==> Unread())
      ensures state == if connect == 0 && env.answerMemory && env.answerCopy then DataTransfer else old(state)
      ensures r == Crash <==> env.Replies(old(state), connect) && !env.ackMemory && old(queue) == []
      ensures r == Fault <==> !env.Replies(old(state), connect)
      ensures r == Sent ==> Datas(queue) == Front(env.ackMemory, OkAck(T_CONN_REQ)) + Datas(old(queue)) + [answer]
      ensures r != Sent ==> queue == old(queue)
      ensures fresh(Messages(queue) - old(Messages(queue)))
    {
      r := Fault;
      if env.answerMemory && (connect == 0 ==> env.answerCopy) {
        if connect == 0 {
          state := DataTransfer;
        }
        var ok := Answer(OkAck(T_CONN_REQ), answer, env.ackMemory, unread);
        r := if ok then Sent else Crash;
      }
    }

    /** What is left to do for TI_BIND once the request is in: read the acknowledgement and, if it is good, the answer. */
    method BindReplies(len: nat) returns (r: Bound)
      requires List() && Aligned() && offset == 0 && 1 <= |queue| <= 2
      requires |queue| == 1 ==> IsErrorAck(queue[0].data)
      requires |queue| == 2 ==> queue[0].data == OkAck(T_BIND_REQ) && |queue[1].data| == len
      modifies this, queue
      ensures List() && Aligned() && state == old(state)
      ensures r != SysError && (queue == [] <==> len >= AckSize(old(|queue|) == 2))
      ensures r == if queue != [] then Broken else if old(|queue|) == 2 then Success else Refused
    {
      PrimOf();
      ghost var m, n := queue[0], |queue|;
      var x, first := GetMsg(len, false);
      if x != 0 {
        r := Broken;
      } else {
        assert first == m.data && |queue| == n - 1;
        var prim := Decode(first[..LONG]);
        if prim == T_ERROR_ACK {
          r := Refused;
        } else if prim != T_OK_ACK {
          r := BadSequence;
        } else {
          var y, second := GetMsg(len, false);
          r := if y != 0 then Broken else Success;
        }
      }
    }

    /** TI_BIND of `timod_ioctl`, on an empty queue and with memory for the acknowledgement. */
    method TiBind(req: BindRequest, env: Chances) returns (r: Bound)
      requires List() && Aligned() && queue == [] && env.ackMemory
      modifies this
      ensures List() && Aligned()
      ensures queue == [] <==> r == SysError || |req.ctl| >= AckSize(env.Accepted(old(state), req) && env.answerMemory)
      ensures r == SysError <==> env.Faults(old(state), req)
      ensures r != SysError ==>
        r == if queue != [] then Broken else if env.Accepted(old(state), req) && env.answerMemory then Success else Refused
      ensures state == if env.Accepted(old(state), req) && req.HasAddress() then req.Target() else old(state)
      ensures r != Success && state != old(state) <==> env.BoundUnanswered(old(state), req)
    {
      var reply, restored := BindRequest(req, env, true);
      if reply != Sent {
        r := SysError;
      } else {
        BindQueue(queue, env, old(state), req);
        r := BindReplies(|req.ctl|);
      }
    }
  }

  /** The queue that a bind request leaves if it was empty. */
  lemma BindQueue(q: seq<Message>, env: Chances, state: State, req: BindRequest)
    requires Datas(q) == if env.Accepted(state, req) && env.answerMemory then [OkAck(T_BIND_REQ)] + [] + [BindAck(req.ctl)]
                         else [env.Refusal(state, req)] + []
    ensures if env.Accepted(state, req) && env.answerMemory
            then |q| == 2 && q[0].data == OkAck(T_BIND_REQ) && |q[1].data| == |req.ctl|
            else |q| == 1 && IsErrorAck(q[0].data)
  {
    DatasMeaning(q);
    var errors := env.Errors(state, req);
    assert env.Refusal(state, req) == ErrorAck(T_BIND_REQ, errors.0, errors.1);
  }

  datatype Bound = Success | Refused | BadSequence | Broken | SysError

  lemma PrimOf()
    ensures |OkAck(T_BIND_REQ)| == 2 * LONG && Decode(OkAck(T_BIND_REQ)[..LONG]) == T_OK_ACK
    ensures forall tli, unix :: Decode(ErrorAck(T_BIND_REQ, tli, unix)[..LONG]) == T_ERROR_ACK
  {
    assert WordValues(4) >= 256 by {
      assert WordValues(1) == 256;
    }
    StoreLoad(T_OK_ACK, LONG);
    StoreLoad(T_ERROR_ACK, LONG);
    assert OkAck(T_BIND_REQ)[..LONG] == Encode(T_OK_ACK, LONG);
    forall tli: nat, unix: nat ensures Decode(ErrorAck(T_BIND_REQ, tli, unix)[..LONG]) == T_ERROR_ACK {
      assert ErrorAck(T_BIND_REQ, tli, unix)[..LONG] == Encode(T_ERROR_ACK, LONG);
    }
  }
}
