/**
  What the critical sections of a pipe mean for the byte stream: a read section moves
  bytes from the front of the stream, a write section puts bytes at its end, and
  the wakeup flag is set whenever somebody could be waiting for the change.
 */
module PipeSections {
  import opened Words
  import opened PipeModel

  lemma {:induction false} ContentsConcat(a: seq<Buf>, b: seq<Buf>)
    ensures Contents(a + b) == Contents(a) + Contents(b)
  {
    if a == [] {
      assert a + b == b;
    } else {
      ContentsConcat(a[1..], b);
      assert (a + b)[1..] == a[1..] + b;
      Regroup(a[0].data, Contents(a[1..]), Contents(b));
    }
  }

  lemma ContentsOne(b: Buf)
    ensures Contents([b]) == b.data
  {
    assert [b][1..] == [];
  }

  lemma TakeMeaning(p: Pipe, n: nat)
    requires LiveBufs(p.bufs) && p.bufs != [] && 0 < n <= |p.bufs[0].data|
    ensures LiveBufs(Take(p, n).bufs)
    ensures Contents(p.bufs) == p.bufs[0].data[..n] + Contents(Take(p, n).bufs)
  {
    var b := p.bufs[0];
    assert b.data == b.data[..n] + b.data[n..];
    assert LiveBuf(b);
    if n < |b.data| {
      var rest := [Buf(b.data[n..], b.room)];
      assert (rest + p.bufs[1..])[1..] == p.bufs[1..];
    }
  }

  lemma MergeMeaning(p: Pipe, bytes: seq<byte>)
    requires LiveBufs(p.bufs) && p.bufs != [] && |bytes| <= p.bufs[|p.bufs| - 1].room
    ensures LiveBufs(Merge(p, bytes).bufs)
    ensures Contents(Merge(p, bytes).bufs) == Contents(p.bufs) + bytes
  {
    MergeKeepsLive(p, bytes);
    var k := |p.bufs| - 1;
    var b := p.bufs[k];
    var b' := Longer(b, bytes);
    assert p.bufs == p.bufs[..k] + [b];
    ContentsConcat(p.bufs[..k], [b]);
    ContentsConcat(p.bufs[..k], [b']);
    ContentsOne(b);
    ContentsOne(b');
  }

  lemma InsertMeaning(p: Pipe, bytes: seq<byte>)
    requires LiveBufs(p.bufs) && |p.bufs| < PIPE_BUFFERS && 0 < |bytes| <= PAGE_SIZE
    ensures LiveBufs(Insert(p, bytes).bufs)
    ensures Contents(Insert(p, bytes).bufs) == Contents(p.bufs) + bytes
  {
    var b := Buf(bytes, PAGE_SIZE - |bytes|);
    ContentsConcat(p.bufs, [b]);
    ContentsOne(b);
  }

  /** The ends, the counters and the stream after a read section. */
  ghost predicate ReadKeeps(p: Pipe, want: nat, got: seq<byte>, r: ReadEnd)
  {
    && LiveBufs(r.pipe.bufs)
    && r.pipe.readers == p.readers && r.pipe.writers == p.writers && r.pipe.waiting == p.waiting
    && got <= r.got && |r.got| - |got| + r.want == want
    && Contents(p.bufs) == r.got[|got|..] + Contents(r.pipe.bufs)
  }

  /** Who is told about a read section. */
  ghost predicate ReadTells(p: Pipe, got: seq<byte>, wake: bool, r: ReadEnd)
  {
    && (wake ==> r.wake)
    && |r.pipe.bufs| <= |p.bufs|
    && r.pipe.spare == (p.spare || |r.pipe.bufs| < |p.bufs|)
    && (!r.wake ==> |r.pipe.bufs| == |p.bufs|)
    && (r.out.Sleep? ==> r.pipe.bufs == [] && p.writers > 0 && r.want > 0)
    && (r.out.Sleep? && r.got != [] ==> p.waiting > 0)
    && (r.out.Sleep? && |got| < |r.got| ==> r.wake)
  }

  /** The value `pipe_readv` returns is the number of bytes moved; an error means none. */
  ghost predicate ReadReturns(r: ReadEnd)
  {
    r.out.Leave? ==>
      match r.out.ret
      case Count(n) => n == |r.got|
      case Err(_) => r.got == []
  }

  lemma ReadKeepsStep(p: Pipe, want: nat, got: seq<byte>, chars: nat, r: ReadEnd)
    requires LiveBufs(p.bufs) && p.bufs != [] && 0 < chars <= |p.bufs[0].data| && chars <= want
    requires ReadKeeps(Take(p, chars), want - chars, got + p.bufs[0].data[..chars], r)
    ensures ReadKeeps(p, want, got, r)
  {
    TakeMeaning(p, chars);
    var got' := got + p.bufs[0].data[..chars];
    assert r.got[|got|..] == p.bufs[0].data[..chars] + r.got[|got'|..];
  }

  lemma {:induction false} ReadKeepsAll(p: Pipe, want: nat, got: seq<byte>, wake: bool, nonblock: bool, env: Env)
    requires LiveBufs(p.bufs) && 0 < want
    ensures ReadKeeps(p, want, got, ReadLoop(p, want, got, wake, nonblock, env))
    decreases |p.bufs|
  {
    if p.bufs != [] {
      var b := p.bufs[0];
      var chars := Min(|b.data|, want);
      assert LiveBuf(b);
      if chars <= env.fault {
        TakeMeaning(p, chars);
        var r := ReadLoop(p, want, got, wake, nonblock, env);
        var p', got' := Take(p, chars), got + b.data[..chars];
        if chars < want {
          ReadKeepsAll(p', want - chars, got', true, nonblock, env.(fault := env.fault - chars));
          ReadKeepsStep(p, want, got, chars, r);
        } else {
          assert r.got == got' && r.pipe == p' && r.want == 0;
          assert got'[|got|..] == b.data[..chars];
        }
      }
    }
  }

  lemma {:induction false} ReadTellsAll(p: Pipe, want: nat, got: seq<byte>, wake: bool, nonblock: bool, env: Env)
    requires LiveBufs(p.bufs) && 0 < want
    ensures var r := ReadLoop(p, want, got, wake, nonblock, env);
            |got| <= |r.got| && ReadTells(p, got, wake, r) && ReadReturns(r)
    decreases |p.bufs|
  {
    if p.bufs != [] {
      var b := p.bufs[0];
      var chars := Min(|b.data|, want);
      if chars <= env.fault && chars < want {
        assert LiveBuf(b);
        ReadTellsAll(Take(p, chars), want - chars, got + b.data[..chars], true, nonblock,
                     env.(fault := env.fault - chars));
      }
    }
  }

  /** A read section takes exactly what it returns off the front of the stream. */
  lemma ReadLoopMeaning(p: Pipe, want: nat, got: seq<byte>, wake: bool, nonblock: bool, env: Env)
    requires LiveBufs(p.bufs) && 0 < want
    ensures var r := ReadLoop(p, want, got, wake, nonblock, env);
            ReadKeeps(p, want, got, r) && ReadTells(p, got, wake, r) && ReadReturns(r)
  {
    ReadKeepsAll(p, want, got, wake, nonblock, env);
    ReadTellsAll(p, want, got, wake, nonblock, env);
  }

  ghost predicate WriteKeeps(p: Pipe, data: seq<byte>, done: nat, r: WriteEnd)
    requires done <= |data|
  {
    && LiveBufs(r.pipe.bufs)
    && r.pipe.readers == p.readers && r.pipe.writers == p.writers && r.pipe.waiting == p.waiting
    && done <= r.done <= |data|
    && Contents(r.pipe.bufs) == Contents(p.bufs) + data[done..r.done]
  }

  ghost predicate WriteTells(p: Pipe, data: seq<byte>, done: nat, wake: bool, r: WriteEnd)
  {
    && (wake ==> r.wake)
    && (!r.wake ==> r.pipe == p && r.done == done)
    && (r.out.Sleep? ==> |r.pipe.bufs| == PIPE_BUFFERS && p.readers > 0 && r.done < |data|)
    && (|p.bufs| < PIPE_BUFFERS && p.readers > 0 && p.spare ==> r.wake)
    && (r.pipe.bufs == [] ==> p.bufs == [] && (p.spare ==> r.pipe.spare))
  }

  ghost predicate WriteReturns(data: seq<byte>, r: WriteEnd)
  {
    r.out.Leave? ==>
      match r.out.ret
      case Count(n) => 0 < n == r.done
      case Err(_) => r.done == 0
  }

  /** A write of at most one page moves everything in one section or nothing. */
  ghost predicate WriteAtomic(data: seq<byte>, r: WriteEnd)
  {
    |data| <= PAGE_SIZE ==>
      if r.out == Leave(Count(|data|)) then r.done == |data| else r.done == 0
  }

  lemma WriteKeepsStep(p: Pipe, data: seq<byte>, done: nat, mid: nat, q: Pipe, r: WriteEnd)
    requires done <= mid <= |data| && WriteKeeps(q, data, mid, r)
    requires q.readers == p.readers && q.writers == p.writers && q.waiting == p.waiting
    requires Contents(q.bufs) == Contents(p.bufs) + data[done..mid]
    ensures WriteKeeps(p, data, done, r)
  {
    SliceSplit(data, done, mid, r.done);
    Regroup(Contents(p.bufs), data[done..mid], data[mid..r.done]);
  }

  lemma {:induction false} WriteKeepsAll(p: Pipe, data: seq<byte>, done: nat, wake: bool, nonblock: bool, env: Env)
    requires LiveBufs(p.bufs) && done < |data|
    ensures WriteKeeps(p, data, done, WriteLoop(p, data, done, wake, nonblock, env))
    decreases PIPE_BUFFERS - |p.bufs|
  {
    var r := WriteLoop(p, data, done, wake, nonblock, env);
    if p.readers > 0 && |p.bufs| < PIPE_BUFFERS && (p.spare || env.pages > 0) {
      var chars := Min(PAGE_SIZE, |data| - done);
      if chars <= env.fault {
        var q := Insert(p, data[done..done + chars]);
        InsertMeaning(p, data[done..done + chars]);
        if done + chars < |data| {
          var pages := if p.spare then env.pages else env.pages - 1;
          WriteKeepsAll(q, data, done + chars, true, nonblock,
                        env.(fault := env.fault - chars, pages := pages));
          WriteKeepsStep(p, data, done, done + chars, q, r);
        }
      }
    }
  }

  lemma {:induction false} WriteTellsAll(p: Pipe, data: seq<byte>, done: nat, wake: bool, nonblock: bool, env: Env)
    requires LiveBufs(p.bufs) && done < |data|
    ensures var r := WriteLoop(p, data, done, wake, nonblock, env);
            && done <= r.done <= |data| && WriteTells(p, data, done, wake, r)
            && WriteReturns(data, r) && (done == 0 ==> WriteAtomic(data, r))
    decreases PIPE_BUFFERS - |p.bufs|
  {
    if p.readers > 0 && |p.bufs| < PIPE_BUFFERS && (p.spare || env.pages > 0) {
      var chars := Min(PAGE_SIZE, |data| - done);
      if chars <= env.fault && done + chars < |data| {
        var pages := if p.spare then env.pages else env.pages - 1;
        WriteTellsAll(Insert(p, data[done..done + chars]), data, done + chars, true, nonblock,
                      env.(fault := env.fault - chars, pages := pages));
      }
    }
  }

  /** A write section puts exactly what it returns behind the stream. */
  lemma WriteLoopMeaning(p: Pipe, data: seq<byte>, done: nat, wake: bool, nonblock: bool, env: Env)
    requires LiveBufs(p.bufs) && done < |data|
    ensures var r := WriteLoop(p, data, done, wake, nonblock, env);
            && WriteKeeps(p, data, done, r) && WriteTells(p, data, done, wake, r)
            && WriteReturns(data, r) && (done == 0 ==> WriteAtomic(data, r))
  {
    WriteKeepsAll(p, data, done, wake, nonblock, env);
    WriteTellsAll(p, data, done, wake, nonblock, env);
  }

  lemma WriteEnterMeaning(p: Pipe, data: seq<byte>, nonblock: bool, env: Env)
    requires LiveBufs(p.bufs) && data != []
    ensures var r := WriteEnter(p, data, nonblock, env);
            && WriteKeeps(p, data, 0, r) && WriteTells(p, data, 0, false, r)
            && WriteReturns(data, r) && WriteAtomic(data, r)
  {
    if p.readers > 0 {
      if CanMerge(p, |data|) {
        var chars := MergeSize(|data|);
        if chars <= env.fault {
          MergeMeaning(p, data[..chars]);
          if chars < |data| {
            var r := WriteEnter(p, data, nonblock, env);
            var q := Merge(p, data[..chars]);
            WriteLoopMeaning(q, data, chars, true, nonblock, env.(fault := env.fault - chars));
            assert data[..chars] == data[0..chars];
            WriteKeepsStep(p, data, 0, chars, q, r);
          }
        }
      } else {
        WriteLoopMeaning(p, data, 0, false, nonblock, env);
      }
    }
  }
}
