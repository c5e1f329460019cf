/** `pipe_iov_copy_from_user` and `pipe_iov_copy_to_user`. */
module PipeCopy {
  import opened Words
  import opened UserMemory

  lemma FetchSplit(u: UserSpace, cells: seq<nat>, i: nat, j: nat)
    requires i <= j <= |cells|
    ensures u.Fetch(cells[..j]) == u.Fetch(cells[..i]) + u.Fetch(cells[i..j])
  {}

  /** One more run of addresses, as the fault pattern sees it. */
  lemma SoundRound(cells: seq<nat>, bad: set<nat>, done: nat, copy: nat)
    requires done + copy <= |cells| && done <= Sound(cells, bad)
    ensures cells[done..][..copy] == cells[done..done + copy]
    ensures Sound(cells[done..done + copy], bad) == copy <==> done + copy <= Sound(cells, bad)
  {
    SoundTail(cells, bad, done);
    SoundPrefix(cells[done..], bad, copy);
    assert cells[done..][..copy] == cells[done..done + copy];
  }

  /** `done` bytes have been gathered behind the kept front of `to`. */
  ghost predicate Gathered(u: UserSpace, to: array<byte>, kept: seq<byte>, cells: seq<nat>, done: nat)
    reads to
  {
    done <= |cells| && |kept| + done <= to.Length && to[..|kept| + done] == kept + u.Fetch(cells[..done])
  }

  lemma GatherStep(u: UserSpace, to: array<byte>, front: seq<byte>, kept: seq<byte>, cells: seq<nat>, done: nat, copy: nat)
    requires done + copy <= |cells| && |kept| + done + copy <= to.Length
    requires front == kept + u.Fetch(cells[..done])
    requires to[..|kept| + done + copy] == front + u.Fetch(cells[done..done + copy])
    ensures Gathered(u, to, kept, cells, done + copy)
  {
    FetchSplit(u, cells, done, done + copy);
    Regroup(kept, u.Fetch(cells[..done]), u.Fetch(cells[done..done + copy]));
  }

  lemma GatheredKeeps(u: UserSpace, to: array<byte>, kept: seq<byte>, cells: seq<nat>, done: nat)
    requires Gathered(u, to, kept, cells, done)
    ensures to[..|kept|] == kept
  {
    Halves(kept, u.Fetch(cells[..done]));
    assert to[..|kept|] == to[..|kept| + done][..|kept|];
  }

  /** Copies one run of addresses behind what is already in `to`. */
  method FetchChunk(u: UserSpace, to: array<byte>, at: nat, end: nat, base: nat, copy: nat) returns (fine: bool)
    requires at + copy <= end <= to.Length
    modifies to
    ensures fine <==> Sound(Range(base, copy), u.bad) == copy
    ensures fine ==> to[..at + copy] == old(to[..at]) + u.Fetch(Range(base, copy))
    ensures to[..at] == old(to[..at]) && to[end..] == old(to[end..])
  {
    fine := u.CopyFromUser(to, at, base, copy);
    assert to[end..] == to[at + copy..][end - at - copy..];
    assert old(to[end..]) == old(to[at + copy..])[end - at - copy..];
    assert to[..at + copy] == to[..at] + to[at..at + copy];
  }

  /** One round of the gathering loop. */
  method GatherRound(u: UserSpace, to: array<byte>, end: nat, v: UserVector, limit: nat, at: nat,
                     ghost kept: seq<byte>, ghost cells: seq<nat>, ghost done: nat)
    returns (ok: bool, copy: nat)
    requires v.Valid() && done + limit <= |cells| && v.left == cells[done..] && 0 < limit
    requires done <= Sound(cells, u.bad) && Gathered(u, to, kept, cells, done)
    requires at == |kept| + done && at + limit == end <= to.Length
    modifies to, v
    ensures v.Valid() && 0 < copy <= limit
    ensures ok ==> done + copy <= Sound(cells, u.bad) && v.left == cells[done + copy..]
    ensures ok ==> Gathered(u, to, kept, cells, done + copy)
    ensures !ok ==> Sound(cells, u.bad) < done + limit && to[..|kept|] == kept
    ensures to[end..] == old(to[end..])
  {
    var i, base;
    i, base, copy := v.Peek(limit);
    SoundRound(cells, u.bad, done, copy);
    ghost var front := to[..at];
    ok := FetchChunk(u, to, at, end, base, copy);
    if ok {
      GatherStep(u, to, front, kept, cells, done, copy);
      v.Consume(i, copy);
      assert cells[done..][copy..] == cells[done + copy..];
    } else {
      GatheredKeeps(u, to, kept, cells, done);
    }
  }

  /**
    Gathers `len` bytes into `to[at..]`. Fails exactly if one of them is faulty; otherwise the vector
    denotes the remaining addresses. The vector holds at least `len` bytes, so the cursor stays inside it.
   */
  method IovCopyFromUser(u: UserSpace, to: array<byte>, at: nat, v: UserVector, len: nat) returns (ok: bool)
    requires v.Valid() && len <= |v.left| && at + len <= to.Length
    modifies to, v
    ensures v.Valid() && (ok <==> len <= Sound(old(v.left), u.bad))
    ensures ok ==> v.left == old(v.left)[len..]
    ensures ok ==> to[..at + len] == old(to[..at]) + u.Fetch(old(v.left)[..len])
    ensures to[..at] == old(to[..at]) && to[at + len..] == old(to[at + len..])
  {
    ghost var cells, kept, behind := v.left, to[..at], to[at + len..];
    var done := 0;
    ok := true;
    assert cells[0..] == cells;
    while ok && done < len
      invariant v.Valid() && done <= len && to[at + len..] == behind
      invariant ok ==> v.left == cells[done..] && Gathered(u, to, kept, cells, done)
      invariant ok ==> done <= Sound(cells, u.bad)
      invariant !ok ==> Sound(cells, u.bad) < len && to[..at] == kept
      decreases ok, len - done
    {
      var copy;
      ok, copy := GatherRound(u, to, at + len, v, len - done, at + done, kept, cells, done);
      if ok {
        done := done + copy;
      }
    }
    if ok {
      GatheredKeeps(u, to, kept, cells, len);
    }
  }

  lemma PairedSplit(cells: seq<nat>, from: seq<byte>, i: nat, j: nat)
    requires i <= j <= |from| <= |cells|
    ensures Paired(cells[..j], from[..j]) == Paired(cells[..i], from[..i]) + Paired(cells[i..j], from[i..j])
  {}

  ghost predicate Scattered(u: UserSpace, before: seq<(nat, byte)>, cells: seq<nat>, from: seq<byte>, done: nat)
    reads u
  {
    done <= |from| <= |cells| && u.stores == before + Paired(cells[..done], from[..done])
  }

  /** One round of the scattering loop. */
  method ScatterRound(u: UserSpace, v: UserVector, from: seq<byte>, done: nat,
                      ghost before: seq<(nat, byte)>, ghost cells: seq<nat>)
    returns (ok: bool, copy: nat)
    requires v.Valid() && done < |from| <= |cells| && v.left == cells[done..]
    requires done <= Sound(cells, u.bad) && Scattered(u, before, cells, from, done)
    modifies u, v
    ensures v.Valid() && 0 < copy && done + copy <= |from|
    ensures ok ==> done + copy <= Sound(cells, u.bad) && v.left == cells[done + copy..]
    ensures ok ==> Scattered(u, before, cells, from, done + copy)
    ensures !ok ==> Sound(cells, u.bad) < |from|
    ensures before <= u.stores
  {
    var i, base;
    i, base, copy := v.Peek(|from| - done);
    SoundRound(cells, u.bad, done, copy);
    ok := u.CopyToUser(base, from[done..done + copy]);
    if ok {
      PairedSplit(cells, from, done, done + copy);
      Regroup(before, Paired(cells[..done], from[..done]), Paired(cells[done..done + copy], from[done..done + copy]));
      v.Consume(i, copy);
      assert cells[done..][copy..] == cells[done + copy..];
    }
  }

  /** Scatters `from` over the vector; the stores made are the bytes of `from` at its first addresses. */
  method IovCopyToUser(u: UserSpace, v: UserVector, from: seq<byte>) returns (ok: bool)
    requires v.Valid() && |from| <= |v.left|
    modifies u, v
    ensures v.Valid() && (ok <==> |from| <= Sound(old(v.left), u.bad))
    ensures ok ==> v.left == old(v.left)[|from|..]
    ensures ok ==> u.stores == old(u.stores) + Paired(old(v.left)[..|from|], from)
    ensures old(u.stores) <= u.stores
  {
    ghost var cells, before := v.left, u.stores;
    var done := 0;
    ok := true;
    assert cells[0..] == cells;
    while ok && done < |from|
      invariant v.Valid() && done <= |from| && before <= u.stores
      invariant ok ==> v.left == cells[done..] && Scattered(u, before, cells, from, done)
      invariant ok ==> done <= Sound(cells, u.bad)
      invariant !ok ==> Sound(cells, u.bad) < |from|
      decreases ok, |from| - done
    {
      var copy;
      ok, copy := ScatterRound(u, v, from, done, before, cells);
      if ok {
        done := done + copy;
      }
    }
    if ok {
      assert from[..|from|] == from;
    }
  }
}
