/**
  Socket lifetime: making, installing, accepting and releasing sockets, with the module
  references they hold and the per-CPU count of sockets in use. What lies outside (inode and
  file allocation, the protocol's callbacks, user copies) enters as the choices of a call.
 */
module Sockets {
  import opened Options

  type Module = nat

  /** `owner` is the module behind `ops`, `file` says whether a file refers to the socket. */
  datatype Socket = Socket(owner: Option<Module>, file: bool)

  // ---------------------------------------------------------------- bookkeeping

  ghost function Owned(socks: map<nat, Socket>, m: Module): set<nat>
  {
    set s | s in socks && socks[s].owner == Some(m)
  }

  function Sum(counts: seq<int>): int
  {
    if counts == [] then 0 else counts[0] + Sum(counts[1..])
  }

  lemma {:induction false} SumUpdate(counts: seq<int>, cpu: nat, n: int)
    requires cpu < |counts|
    ensures Sum(counts[cpu := n]) == Sum(counts) - counts[cpu] + n
  {
    var after := counts[cpu := n];
    if cpu == 0 {
      assert after[1..] == counts[1..];
    } else {
      assert after[1..] == counts[1..][cpu - 1 := n];
      SumUpdate(counts[1..], cpu - 1, n);
    }
  }

  /** References of a module beyond the `base` ones are the live sockets with its operations. */
  ghost predicate RefsMatch(socks: map<nat, Socket>, refs: multiset<Module>, base: multiset<Module>)
  {
    forall m :: RefsFor(socks, refs, base, m)
  }

  ghost predicate RefsFor(socks: map<nat, Socket>, refs: multiset<Module>, base: multiset<Module>, m: Module)
  {
    refs[m] == base[m] + |Owned(socks, m)|
  }

  lemma OwnedUpdate(socks: map<nat, Socket>, s: nat, sock: Socket, m: Module)
    ensures |Owned(socks[s := sock], m)| == |Owned(socks - {s}, m)| + (if sock.owner == Some(m) then 1 else 0)
  {
    var rest := Owned(socks - {s}, m);
    assert Owned(socks[s := sock], m) == rest + (if sock.owner == Some(m) then {s} else {});
  }

  lemma OwnedRemove(socks: map<nat, Socket>, s: nat, m: Module)
    requires s in socks
    ensures |Owned(socks - {s}, m)| == |Owned(socks, m)| - (if socks[s].owner == Some(m) then 1 else 0)
  {
    OwnedUpdate(socks, s, socks[s], m);
    assert socks[s := socks[s]] == socks;
  }

  lemma OwnedAbsent(socks: map<nat, Socket>, s: nat)
    requires s !in socks
    ensures socks - {s} == socks
  {}

  lemma AddRemove(socks: map<nat, Socket>, s: nat, sock: Socket)
    requires s !in socks
    ensures socks[s := sock] - {s} == socks
  {}

  /** References taken for a socket and given back with it. */
  lemma RefsBack(refs: multiset<Module>, owner: Module)
    ensures refs + multiset{owner} - multiset{owner} == refs
  {}

  function RefsOf(sock: Socket): multiset<Module>
  {
    if sock.owner.Some? then multiset{sock.owner.value} else multiset{}
  }

  /** Changing one socket changes the references by what it held and holds. */
  lemma RefsUpdate(socks: map<nat, Socket>, refs: multiset<Module>, base: multiset<Module>, s: nat, sock: Socket)
    requires s in socks && RefsMatch(socks, refs, base)
    ensures RefsOf(socks[s]) <= refs
    ensures RefsMatch(socks[s := sock], refs - RefsOf(socks[s]) + RefsOf(sock), base)
    ensures RefsMatch(socks - {s}, refs - RefsOf(socks[s]), base)
  {
    if socks[s].owner.Some? {
      assert RefsFor(socks, refs, base, socks[s].owner.value);
      assert s in Owned(socks, socks[s].owner.value);
    }
    var less, socks' := refs - RefsOf(socks[s]), socks - {s};
    forall m ensures RefsFor(socks', less, base, m) {
      assert RefsFor(socks, refs, base, m);
      OwnedRemove(socks, s, m);
    }
    RefsAdd(socks', less, base, s, sock);
    assert socks'[s := sock] == socks[s := sock];
  }

  lemma RefsAdd(socks: map<nat, Socket>, refs: multiset<Module>, base: multiset<Module>, s: nat, sock: Socket)
    requires s !in socks && RefsMatch(socks, refs, base)
    ensures RefsMatch(socks[s := sock], refs + RefsOf(sock), base)
  {
    OwnedAbsent(socks, s);
    var socks', refs' := socks[s := sock], refs + RefsOf(sock);
    forall m ensures RefsFor(socks', refs', base, m) {
      assert RefsFor(socks, refs, base, m);
      OwnedUpdate(socks, s, sock, m);
    }
  }

  // ---------------------------------------------------------------- descriptors

  ghost predicate FdFits(socks: map<nat, Socket>, fds: map<nat, nat>, fd: nat)
  {
    fd in fds ==> fds[fd] in socks && socks[fds[fd]].file
  }

  ghost predicate SocketFits(socks: map<nat, Socket>, fds: map<nat, nat>, s: nat)
  {
    s in socks && socks[s].file ==> s in fds.Values
  }

  ghost predicate Differ(fds: map<nat, nat>, f: nat, g: nat)
  {
    f in fds && g in fds && f != g ==> fds[f] != fds[g]
  }

  /** Descriptors and sockets with a file belong together one to one. */
  ghost predicate FilesMatch(socks: map<nat, Socket>, fds: map<nat, nat>)
  {
    && (forall fd :: FdFits(socks, fds, fd))
    && (forall s :: SocketFits(socks, fds, s))
    && (forall f, g :: Differ(fds, f, g))
  }

  lemma NoDescriptor(socks: map<nat, Socket>, fds: map<nat, nat>, s: nat)
    requires s in socks && !socks[s].file && FilesMatch(socks, fds)
    ensures s !in fds.Values && FilesMatch(socks - {s}, fds)
  {
    forall fd | fd in fds ensures fds[fd] != s {
      assert FdFits(socks, fds, fd);
    }
    var socks' := socks - {s};
    forall fd ensures FdFits(socks', fds, fd) {
      assert FdFits(socks, fds, fd);
    }
    forall t ensures SocketFits(socks', fds, t) {
      assert SocketFits(socks, fds, t);
    }
  }

  lemma FilesAdd(socks: map<nat, Socket>, fds: map<nat, nat>, s: nat, sock: Socket)
    requires !sock.file && s !in fds.Values && FilesMatch(socks, fds)
    ensures FilesMatch(socks[s := sock], fds)
  {
    var socks' := socks[s := sock];
    forall fd ensures FdFits(socks', fds, fd) {
      assert FdFits(socks, fds, fd);
      assert fd in fds ==> fds[fd] in fds.Values;
    }
    forall t ensures SocketFits(socks', fds, t) {
      assert SocketFits(socks, fds, t);
    }
  }

  lemma NotInFiles(socks: map<nat, Socket>, fds: map<nat, nat>, s: nat)
    requires s !in socks && FilesMatch(socks, fds)
    ensures s !in fds.Values
  {
    forall fd | fd in fds ensures fds[fd] != s {
      assert FdFits(socks, fds, fd);
    }
  }

  lemma FilesInstall(socks: map<nat, Socket>, fds: map<nat, nat>, s: nat, fd: nat)
    requires s in socks && !socks[s].file && fd !in fds && FilesMatch(socks, fds)
    ensures FilesMatch(socks[s := socks[s].(file := true)], fds[fd := s])
  {
    var socks', fds' := socks[s := socks[s].(file := true)], fds[fd := s];
    NoDescriptor(socks, fds, s);
    forall f ensures FdFits(socks', fds', f) {
      assert FdFits(socks, fds, f);
    }
    forall t ensures SocketFits(socks', fds', t) {
      assert SocketFits(socks, fds, t);
      assert fds'[fd] == s;
      if t in fds.Values {
        var g :| g in fds && fds[g] == t;
        assert fds'[g] == t;
      }
    }
    forall f, g ensures Differ(fds', f, g) {
      assert Differ(fds, f, g);
      assert f in fds ==> fds[f] in fds.Values;
      assert g in fds ==> fds[g] in fds.Values;
    }
  }

  lemma FilesRemove(socks: map<nat, Socket>, fds: map<nat, nat>, fd: nat)
    requires fd in fds && FilesMatch(socks, fds)
    ensures fds[fd] in socks && socks[fds[fd]].file
    ensures fds[fd] !in (fds - {fd}).Values && FilesMatch(socks - {fds[fd]}, fds - {fd})
  {
    var s, fds' := fds[fd], fds - {fd};
    assert FdFits(socks, fds, fd);
    forall g | g in fds' ensures fds'[g] != s {
      assert Differ(fds, fd, g);
    }
    var socks' := socks - {s};
    forall f ensures FdFits(socks', fds', f) {
      assert FdFits(socks, fds, f);
    }
    forall t ensures SocketFits(socks', fds', t) {
      assert SocketFits(socks, fds, t);
      if t in fds.Values && t != s {
        var g :| g in fds && fds[g] == t;
        assert fds'[g] == t;
      }
    }
    forall f, g ensures Differ(fds', f, g) {
      assert Differ(fds, f, g);
    }
  }

  // ---------------------------------------------------------------- what was made and released

  ghost predicate Accounted(socks: map<nat, Socket>, released: seq<nat>, next: nat, s: nat)
  {
    && (s in socks ==> s < next && s !in released)
    && (s < next ==> s in socks || s in released)
    && (s in released ==> s < next)
  }

  ghost predicate Once(released: seq<nat>, i: int, j: int)
  {
    0 <= i < j < |released| ==> released[i] != released[j]
  }

  /** Every socket ever made is either live or was released once. */
  ghost predicate LogMatches(socks: map<nat, Socket>, released: seq<nat>, next: nat)
  {
    (forall s :: Accounted(socks, released, next, s)) && (forall i, j :: Once(released, i, j))
  }

  lemma LogMake(socks: map<nat, Socket>, released: seq<nat>, next: nat, sock: Socket)
    requires LogMatches(socks, released, next)
    ensures next !in socks && LogMatches(socks[next := sock], released, next + 1)
  {
    assert Accounted(socks, released, next, next);
    var socks', next' := socks[next := sock], next + 1;
    forall s ensures Accounted(socks', released, next', s) {
      assert Accounted(socks, released, next, s);
    }
  }

  lemma LogKeep(socks: map<nat, Socket>, released: seq<nat>, next: nat, s: nat, sock: Socket)
    requires s in socks && LogMatches(socks, released, next)
    ensures LogMatches(socks[s := sock], released, next)
  {
    var socks' := socks[s := sock];
    forall t ensures Accounted(socks', released, next, t) {
      assert Accounted(socks, released, next, t);
    }
  }

  lemma LogRelease(socks: map<nat, Socket>, released: seq<nat>, next: nat, s: nat)
    requires s in socks && LogMatches(socks, released, next)
    ensures LogMatches(socks - {s}, released + [s], next)
  {
    assert Accounted(socks, released, next, s);
    var socks', released' := socks - {s}, released + [s];
    forall t ensures Accounted(socks', released', next, t) {
      assert Accounted(socks, released, next, t);
    }
    forall i, j ensures Once(released', i, j) {
      assert Once(released, i, j);
    }
  }

  /** A socket that was made and is not live was released, and only once. */
  lemma ReleasedOnce(socks: map<nat, Socket>, released: seq<nat>, next: nat, s: nat) returns (i: nat)
    requires LogMatches(socks, released, next) && s < next && s !in socks
    ensures i < |released| && released[i] == s
    ensures forall j :: 0 <= j < |released| && j != i ==> released[j] != s
  {
    assert Accounted(socks, released, next, s);
    i :| 0 <= i < |released| && released[i] == s;
    forall j | 0 <= j < |released| && j != i ensures released[j] != s {
      assert Once(released, i, j) && Once(released, j, i);
    }
  }

  /** Without repetition an element counts once. */
  lemma {:induction false} CountOnce(q: seq<nat>, s: nat)
    requires forall i, j :: Once(q, i, j)
    ensures multiset(q)[s] == if s in q then 1 else 0
  {
    if q != [] {
      var n := |q| - 1;
      var init := q[..n];
      assert q == init + [q[n]];
      forall i, j ensures Once(init, i, j) {
        assert Once(q, i, j);
      }
      CountOnce(init, s);
      if q[n] in init {
        var i :| 0 <= i < n && init[i] == q[n];
        assert Once(q, i, n);
      }
    }
  }

  /** If the live sockets are the same as before, what was made since was released since, each socket once, and nothing else. */
  lemma SettledSince(socks: map<nat, Socket>, released: seq<nat>, next: nat, released': seq<nat>, next': nat, s: nat)
    requires LogMatches(socks, released, next) && LogMatches(socks, released', next') && released <= released'
    ensures multiset(released'[|released|..])[s] == if next <= s < next' then 1 else 0
  {
    var since := released'[|released|..];
    assert released' == released + since;
    forall i, j ensures Once(since, i, j) {
      assert Once(released', |released| + i, |released| + j);
    }
    CountOnce(since, s);
    assert Accounted(socks, released, next, s) && Accounted(socks, released', next', s);
    forall i, j | 0 <= i < |released| && 0 <= j < |since| ensures released[i] != since[j] {
      assert Once(released', i, |released| + j);
    }
  }

  /** Operations and a reference for a new socket. */
  lemma Attach(socks: map<nat, Socket>, before: multiset<Module>, refs: multiset<Module>, base: multiset<Module>,
               fds: map<nat, nat>, released: seq<nat>, next: nat, s: nat, owner: Module, held: multiset<Module>)
    requires s in socks && socks[s] == Socket(None, false) && refs == before + held + multiset{owner} - held
    requires RefsMatch(socks, before, base) && FilesMatch(socks, fds) && LogMatches(socks, released, next)
    ensures refs == before + multiset{owner}
    ensures var socks' := socks[s := Socket(Some(owner), false)];
            && RefsMatch(socks', refs, base) && FilesMatch(socks', fds) && LogMatches(socks', released, next)
            && |socks'| == |socks|
  {
    var sock := Socket(Some(owner), false);
    assert refs == before + multiset{owner};
    assert before - multiset{} + multiset{owner} == refs;
    RefsUpdate(socks, before, base, s, sock);
    LogKeep(socks, released, next, s, sock);
    NoDescriptor(socks, fds, s);
    FilesAdd(socks, fds, s, sock);
    assert socks[s := sock].Keys == socks.Keys;
    assert |socks[s := sock].Keys| == |socks[s := sock]| && |socks.Keys| == |socks|;
  }

  /** Giving a socket a file leaves its references and its place in the log alone. */
  lemma SameOwner(socks: map<nat, Socket>, refs: multiset<Module>, base: multiset<Module>,
                  released: seq<nat>, next: nat, s: nat, file: bool)
    requires s in socks && RefsMatch(socks, refs, base) && LogMatches(socks, released, next)
    ensures var socks' := socks[s := socks[s].(file := file)];
            RefsMatch(socks', refs, base) && LogMatches(socks', released, next) && |socks'| == |socks|
  {
    var sock := socks[s].(file := file);
    RefsUpdate(socks, refs, base, s, sock);
    assert refs - RefsOf(socks[s]) + RefsOf(sock) == refs;
    LogKeep(socks, released, next, s, sock);
    assert socks[s := sock].Keys == socks.Keys;
    assert |socks[s := sock].Keys| == |socks[s := sock]| && |socks.Keys| == |socks|;
  }

  const EAFNOSUPPORT := 97
  const ENFILE := 23
  const ENOMEM := 12
  const EBADF := 9
  const EFAULT := 14
  const ECONNABORTED := 103

  /**
    The choices of one `__sock_create`: what the checks before the lock return, the module of the
    registered family, whether an inode can be had, the CPU, whether the family's module is live,
    what the family's `create` returns, the module of the operations it set and whether that is live.
   */
  datatype Create = Create(refused: int, family: Option<Module>, inode: bool, cpu: nat, familyLive: bool,
                           created: int, owner: Module, ownerLive: bool)
  {
    /** `create` is called. */
    predicate Reached()
    {
      refused == 0 && family.Some? && inode && familyLive
    }

    predicate Makes()
    {
      Reached() && created >= 0 && ownerLive
    }

    /** No error but no socket either: `create` set operations of a module that is going away, or a check returned more than 0. */
    predicate Misses()
    {
      refused > 0 || (Reached() && created >= 0 && !ownerLive)
    }
  }

  /** The choices of one `sock_map_fd`: a free descriptor or an error, and the allocations. */
  datatype Install = Install(fd: int, filp: bool, dentry: bool)
  {
    predicate Works()
    {
      fd >= 0 && filp && dentry
    }
  }

  /** The choices of one `sys_accept`. */
  datatype Accept = Accept(inode: bool, cpu: nat, security: int, accepted: int, wantsName: bool, name: int, moved: int,
                           install: Install)
  {
    /** Why the new socket gets no descriptor, 0 if it does. */
    function Refusal(): int
    {
      if security != 0 then security
      else if accepted < 0 then accepted
      else if wantsName && name < 0 then -ECONNABORTED
      else if wantsName && moved < 0 then moved
      else 0
    }
  }

  datatype Call =
    | CallSocket(c: Create, i: Install)
    | CallPair(c: Create, d: Create, paired: int, i: Install, j: Install, told: bool)
    | CallAccept(fd: nat, a: Accept)
    | CallClose(fd: nat, cpu: nat)
  {
    /** The call goes on with a socket that was not made. */
    predicate UsesNoSocket()
    {
      match this
      case CallSocket(c, _) => c.Misses()
      case CallPair(c, d, _, _, _, _) => c.Misses() || (c.Makes() && d.Misses())
      case _ => false
    }

    /** The call succeeds, given the descriptors in use. */
    predicate Succeeds(fds: map<nat, nat>)
    {
      match this
      case CallSocket(c, i) => c.Makes() && i.Works()
      case CallPair(c, d, paired, i, j, told) => c.Makes() && d.Makes() && paired >= 0 && i.Works() && j.Works() && told
      case CallAccept(fd, a) => fd in fds && a.inode && a.Refusal() == 0 && a.install.Works()
      case CallClose(fd, _) => fd in fds
    }

    /** What a successful call returns. */
    function Value(): int
    {
      match this
      case CallSocket(_, i) => i.fd
      case CallAccept(_, a) => a.install.fd
      case _ => 0
    }
  }

  /** `Undefined`: the call would go on with a socket pointer that was never set. */
  datatype Result = Done(value: int) | Error(err: int) | Undefined

  /** What a call can change: the live sockets, descriptors, references and the log of what was made and released. */
  datatype Layer = Layer(socks: map<nat, Socket>, fds: map<nat, nat>, refs: multiset<Module>, next: nat, released: seq<nat>)
  {
    function Installed(fd: nat, sock: Socket): Layer
    {
      Layer(socks[next := sock], fds[fd := next], refs + RefsOf(sock), next + 1, released)
    }

    function Closed(fd: nat): Layer
      requires fd in fds && fds[fd] in socks
    {
      Layer(socks - {fds[fd]}, fds - {fd}, refs - RefsOf(socks[fds[fd]]), next, released + [fds[fd]])
    }

    /** After a call that succeeds. */
    ghost function AfterDone(call: Call): Layer
      requires call.Succeeds(fds) && FilesMatch(socks, fds)
    {
      match call
      case CallSocket(c, i) => Installed(i.fd, Socket(Some(c.owner), true))
      case CallPair(c, d, _, i, j, _) => Installed(i.fd, Socket(Some(c.owner), true)).Installed(j.fd, Socket(Some(d.owner), true))
      case CallAccept(fd, a) =>
        assert FdFits(socks, fds, fd);
        Installed(a.install.fd, socks[fds[fd]])
      case CallClose(fd, _) =>
        assert FdFits(socks, fds, fd);
        Closed(fd)
    }

    /** After a call that fails: sockets made on the way are released, each once, and nothing else is. */
    ghost predicate Settles(after: Layer)
    {
      && after.socks == socks && after.fds == fds && after.refs == refs && next <= after.next && released <= after.released
      && (forall s: nat :: multiset(after.released[|released|..])[s] == if next <= s < after.next then 1 else 0)
    }

    /** One call: which result it has follows from its choices and the descriptors in use, the rest from the result. */
    ghost predicate Steps(call: Call, r: Result, after: Layer)
    {
      && (r.Undefined? <==> call.UsesNoSocket()) && (r.Done? <==> call.Succeeds(fds))
      && (r.Done? ==> FilesMatch(socks, fds) && r.value == call.Value() && after == AfterDone(call))
      && (r.Error? ==> r.err != 0 && Settles(after))
      && (r.Undefined? ==> after.fds == fds && next <= after.next && released <= after.released)
    }
  }

  ghost predicate StepAt(calls: seq<Call>, rs: seq<Result>, views: seq<Layer>, k: nat)
    requires |rs| <= |calls| && |views| == |rs| + 1
  {
    k < |rs| ==> views[k].Steps(calls[k], rs[k], views[k + 1]) && (rs[k].Undefined? ==> k + 1 == |rs|)
  }

  /** The first calls one after the other: `rs` are their results and `views` the states between them; only the last can be undefined. */
  ghost predicate Trail(calls: seq<Call>, rs: seq<Result>, views: seq<Layer>)
  {
    |rs| <= |calls| && |views| == |rs| + 1 && forall k: nat :: StepAt(calls, rs, views, k)
  }

  predicate Astray(rs: seq<Result>)
  {
    rs != [] && rs[|rs| - 1].Undefined?
  }

  lemma TrailGrows(calls: seq<Call>, rs: seq<Result>, views: seq<Layer>, r: Result, view: Layer)
    requires Trail(calls, rs, views) && |rs| < |calls| && !Astray(rs) && views[|rs|].Steps(calls[|rs|], r, view)
    ensures Trail(calls, rs + [r], views + [view])
  {
    var rs', views' := rs + [r], views + [view];
    forall k: nat ensures StepAt(calls, rs', views', k) {
      assert StepAt(calls, rs, views, k);
    }
  }

  /** `Nothing` is a return value that is no error although no socket was made. */
  datatype Made = Sock(s: nat) | Failed(err: int) | Nothing

  class SocketLayer {
    var socks: map<nat, Socket>
    var refs: multiset<Module>
    var inUse: seq<int>
    var fds: map<nat, nat>
    var released: seq<nat>
    var next: nat
    ghost const base: multiset<Module>

    ghost predicate Valid()
      reads this
    {
      && RefsMatch(socks, refs, base) && Sum(inUse) == |socks| && |inUse| > 0
      && FilesMatch(socks, fds) && LogMatches(socks, released, next)
    }

    /** Between calls every live socket has operations and a descriptor. */
    ghost predicate Quiet()
      reads this
    {
      forall s :: s in socks ==> socks[s].owner.Some? && socks[s].file
    }

    ghost function View(): Layer
      reads this
    {
      Layer(socks, fds, refs, next, released)
    }

    constructor (cpus: nat, refs: multiset<Module>)
      requires cpus > 0
      ensures Valid() && Quiet() && socks == map[] && fds == map[] && base == refs && this.refs == refs
    {
      socks, fds, released, next := map[], map[], [], 0;
      this.refs, base := refs, refs;
      inUse := seq(cpus, _ => 0);
      new;
      SumZero(inUse);
      forall m ensures RefsFor(socks, refs, base, m) {
        assert Owned(socks, m) == {};
      }
      assert forall s :: Accounted(socks, released, next, s);
    }

    /** `sock_alloc` on some CPU. */
    method SockAlloc(inode: bool, cpu: nat) returns (s: Option<nat>)
      requires Valid() && cpu < |inUse|
      modifies `socks, `inUse, `next
      ensures Valid() && |inUse| == old(|inUse|)
      ensures s.Some? <==> inode
      ensures s.Some? ==> s.value !in old(socks) && s.value == old(next) && next == s.value + 1 && socks == old(socks)[s.value := Socket(None, false)]
      ensures s.None? ==> next == old(next) && socks == old(socks)
    {
      s := None;
      if inode {
        s := Some(next);
        LogMake(socks, released, next, Socket(None, false));
        NotInFiles(socks, fds, next);
        FilesAdd(socks, fds, next, Socket(None, false));
        RefsAdd(socks, refs, base, next, Socket(None, false));
        SumUpdate(inUse, cpu, inUse[cpu] + 1);
        assert refs + multiset{} == refs;
        inUse := inUse[cpu := inUse[cpu] + 1];
        socks := socks[next := Socket(None, false)];
        next := next + 1;
      }
    }

    /** `sock_release` of a socket that no descriptor leads to (any more). */
    method SockRelease(s: nat, cpu: nat)
      requires s in socks && s !in fds.Values && cpu < |inUse|
      requires RefsMatch(socks, refs, base) && Sum(inUse) == |socks| && LogMatches(socks, released, next)
      requires FilesMatch(socks - {s}, fds)
      modifies `socks, `refs, `inUse, `released
      ensures Valid() && |inUse| == old(|inUse|)
      ensures socks == old(socks) - {s} && released == old(released) + [s]
      ensures refs == old(refs) - RefsOf(old(socks)[s])
    {
      RefsUpdate(socks, refs, base, s, socks[s]);
      SumUpdate(inUse, cpu, inUse[cpu] - 1);
      LogRelease(socks, released, next, s);
      refs := refs - RefsOf(socks[s]);
      inUse := inUse[cpu := inUse[cpu] - 1];
      socks := socks - {s};
      released := released + [s];
    }

    /** `sock_release` of a socket that got neither operations nor a file. */
    method Drop(s: nat, cpu: nat)
      requires Valid() && s in socks && socks[s] == Socket(None, false) && cpu < |inUse|
      modifies `socks, `refs, `inUse, `released
      ensures Valid() && |inUse| == old(|inUse|)
      ensures socks == old(socks) - {s} && released == old(released) + [s] && refs == old(refs)
    {
      NoDescriptor(socks, fds, s);
      SockRelease(s, cpu);
      assert old(refs) - multiset{} == old(refs);
    }

    /** `__sock_create` */
    method SockCreate(c: Create) returns (r: Made)
      requires Valid() && c.cpu < |inUse|
      modifies `socks, `refs, `inUse, `next, `released
      ensures Valid() && |inUse| == old(|inUse|)
      ensures r.Sock? ==> r.s !in old(socks) && r.s == old(next) && socks == old(socks)[r.s := Socket(Some(c.owner), false)]
      ensures r.Sock? ==> refs == old(refs) + multiset{c.owner} && released == old(released) && next == r.s + 1
      ensures !r.Sock? ==> socks == old(socks) && refs == old(refs) && old(next) <= next && old(released) <= released
      ensures (r.Sock? <==> c.Makes()) && (r.Nothing? <==> c.Misses())
      ensures r.Failed? ==> r.err < 0
    {
      if c.refused != 0 {
        r := if c.refused < 0 then Failed(c.refused) else Nothing;
      } else if c.family.None? {
        r := Failed(-EAFNOSUPPORT);
      } else {
        var s := SockAlloc(c.inode, c.cpu);
        if s.None? {
          r := Failed(-ENFILE);
        } else if !c.familyLive {
          Drop(s.value, c.cpu);
          AddRemove(old(socks), s.value, Socket(None, false));
          r := Failed(-EAFNOSUPPORT);
        } else {
          AddRemove(old(socks), s.value, Socket(None, false));
          r := CreateIn(c, s.value);
          assert r.Sock? ==> socks == old(socks)[s.value := Socket(Some(c.owner), false)];
        }
      }
    }

    /** The part of `__sock_create` in which the family's module is held. */
    method CreateIn(c: Create, s: nat) returns (r: Made)
      requires Valid() && c.cpu < |inUse| && c.family.Some?
      requires s in socks && s + 1 == next && socks[s] == Socket(None, false)
      modifies `socks, `refs, `inUse, `released
      ensures Valid() && |inUse| == old(|inUse|)
      ensures r.Sock? ==> r.s == s && socks == old(socks)[s := Socket(Some(c.owner), false)]
      ensures r.Sock? ==> refs == old(refs) + multiset{c.owner} && released == old(released)
      ensures !r.Sock? ==> socks == old(socks) - {s} && refs == old(refs) && old(released) <= released
      ensures r.Sock? <==> c.created >= 0 && c.ownerLive
      ensures r.Nothing? <==> c.created >= 0 && !c.ownerLive
      ensures r.Failed? ==> r.err < 0
    {
      var held := multiset{c.family.value};
      refs := refs + held;
      if c.created < 0 || !c.ownerLive {
        refs := refs - held;
        assert refs == old(refs);
        Drop(s, c.cpu);
        r := if c.created < 0 then Failed(c.created) else Nothing;
      } else {
        refs := refs + multiset{c.owner};
        refs := refs - held;
        Attach(socks, old(refs), refs, base, fds, released, next, s, c.owner, held);
        socks := socks[s := Socket(Some(c.owner), false)];
        r := Sock(s);
      }
    }

    /** `sock_map_fd` */
    method SockMapFd(s: nat, c: Install) returns (r: int)
      requires Valid() && s in socks && !socks[s].file && (c.fd >= 0 ==> c.fd !in fds)
      modifies `socks, `fds
      ensures Valid()
      ensures r >= 0 ==> r == c.fd && fds == old(fds)[c.fd := s] && socks == old(socks)[s := old(socks)[s].(file := true)]
      ensures r < 0 ==> fds == old(fds) && socks == old(socks)
      ensures r >= 0 <==> c.Works()
    {
      r := c.fd;
      if r >= 0 {
        if !c.filp {
          r := -ENFILE;
        } else if !c.dentry {
          r := -ENOMEM;
        } else {
          FilesInstall(socks, fds, s, c.fd);
          SameOwner(socks, refs, base, released, next, s, true);
          socks := socks[s := socks[s].(file := true)];
          fds := fds[c.fd := s];
        }
      }
    }

    /** `sys_close` of the only descriptor of a socket. */
    method SysClose(fd: nat, cpu: nat) returns (r: int)
      requires Valid() && cpu < |inUse|
      modifies `socks, `refs, `inUse, `released, `fds
      ensures Valid() && |inUse| == old(|inUse|)
      ensures fd !in old(fds) ==> r == -EBADF && socks == old(socks) && fds == old(fds) && refs == old(refs) && released == old(released)
      ensures fd in old(fds) ==> r == 0 && old(fds)[fd] in old(socks) && fds == old(fds) - {fd}
      ensures fd in old(fds) ==> socks == old(socks) - {old(fds)[fd]} && released == old(released) + [old(fds)[fd]]
      ensures fd in old(fds) ==> refs == old(refs) - RefsOf(old(socks)[old(fds)[fd]])
    {
      if fd !in fds {
        r := -EBADF;
      } else {
        var s := fds[fd];
        FilesRemove(socks, fds, fd);
        fds := fds - {fd};
        SockRelease(s, cpu);
        r := 0;
      }
    }

    /** `sys_socket` */
    method SysSocket(c: Create, i: Install) returns (r: Result)
      requires Valid() && Quiet() && c.cpu < |inUse| && (i.fd >= 0 ==> i.fd !in fds)
      modifies this
      ensures Valid() && Quiet() && |inUse| == old(|inUse|)
      ensures r.Done? ==> i.fd >= 0 && fds == old(fds)[i.fd := old(next)] && r.value == i.fd
      ensures r.Done? ==> socks == old(socks)[old(next) := Socket(Some(c.owner), true)] && refs == old(refs) + multiset{c.owner}
      ensures r.Done? ==> next == old(next) + 1 && released == old(released)
      ensures r.Error? ==> r.err < 0
      ensures !r.Done? ==> fds == old(fds) && socks == old(socks) && refs == old(refs)
      ensures !r.Done? ==> old(next) <= next && old(released) <= released
      ensures (r.Done? <==> c.Makes() && i.Works()) && (r.Undefined? <==> c.Misses())
    {
      var m := SockCreate(c);
      match m
      case Failed(err) => r := Error(err);
      case Nothing => r := Undefined;
      case Sock(s) =>
        var fd := SockMapFd(s, i);
        if fd < 0 {
          DiscardLast(s, c.owner, c.cpu, old(socks), old(refs));
          r := Error(fd);
        } else {
          r := Done(fd);
        }
    }

    /** `sock_release` of the newest socket, which got operations but no file. */
    method DiscardLast(s: nat, owner: Module, cpu: nat, ghost before: map<nat, Socket>, ghost held: multiset<Module>)
      requires Valid() && cpu < |inUse| && s !in before
      requires socks == before[s := Socket(Some(owner), false)] && refs == held + multiset{owner}
      modifies `socks, `refs, `inUse, `released
      ensures Valid() && |inUse| == old(|inUse|)
      ensures socks == before && refs == held && released == old(released) + [s]
    {
      NoDescriptor(socks, fds, s);
      SockRelease(s, cpu);
      AddRemove(before, s, Socket(Some(owner), false));
      RefsBack(held, owner);
    }

    /** The two sockets of a pair. */
    method CreatePair(c: Create, d: Create) returns (r: Result, s: nat, t: nat)
      requires Valid() && c.cpu < |inUse| && d.cpu < |inUse|
      modifies `socks, `refs, `inUse, `next, `released
      ensures Valid() && |inUse| == old(|inUse|)
      ensures r.Done? ==> s !in old(socks) && t !in old(socks) && s == old(next) && t == s + 1
      ensures r.Done? ==> socks == old(socks)[s := Socket(Some(c.owner), false)][t := Socket(Some(d.owner), false)]
      ensures r.Done? ==> refs == old(refs) + multiset{c.owner} + multiset{d.owner} && next == t + 1 && released == old(released)
      ensures r.Error? ==> r.err < 0 && socks == old(socks) && refs == old(refs)
      ensures old(next) <= next && old(released) <= released
      ensures (r.Done? <==> c.Makes() && d.Makes()) && (r.Undefined? <==> c.Misses() || (c.Makes() && d.Misses()))
    {
      s, t := 0, 0;
      var m := SockCreate(c);
      match m
      case Failed(err) => r := Error(err);
      case Nothing => r := Undefined;
      case Sock(s') =>
        s := s';
        ghost var one := socks;
        var n := SockCreate(d);
        match n {
          case Failed(err) =>
            DiscardLast(s, c.owner, c.cpu, old(socks), old(refs));
            r := Error(err);
          case Nothing => r := Undefined;
          case Sock(t') =>
            t := t';
            r := Done(0);
        }
    }

    /** Gives both sockets back, as on the error exits of `sys_socketpair`. */
    method DiscardPair(s: nat, t: nat, c: Create, d: Create, ghost before: map<nat, Socket>, ghost held: multiset<Module>)
      requires Valid() && c.cpu < |inUse| && d.cpu < |inUse| && s !in before && t !in before && s != t
      requires socks == before[s := Socket(Some(c.owner), false)][t := Socket(Some(d.owner), false)]
      requires refs == held + multiset{c.owner} + multiset{d.owner}
      modifies `socks, `refs, `inUse, `released
      ensures Valid() && |inUse| == old(|inUse|) && socks == before && refs == held && released == old(released) + [t] + [s]
    {
      DiscardLast(t, d.owner, d.cpu, before[s := Socket(Some(c.owner), false)], held + multiset{c.owner});
      DiscardLast(s, c.owner, c.cpu, before, held);
    }

    /**
      Installs both sockets and reports the descriptors; whatever fails, everything is undone by
      closing what has a descriptor and releasing what has none.
     */
    method InstallPair(s: nat, t: nat, c: Create, d: Create, i: Install, j: Install, told: bool,
                       ghost before: map<nat, Socket>, ghost held: multiset<Module>) returns (r: Result)
      requires Valid() && c.cpu < |inUse| && d.cpu < |inUse| && s !in before && t !in before && s != t
      requires socks == before[s := Socket(Some(c.owner), false)][t := Socket(Some(d.owner), false)]
      requires refs == held + multiset{c.owner} + multiset{d.owner}
      requires (i.fd >= 0 ==> i.fd !in fds) && (j.fd >= 0 ==> j.fd !in fds && j.fd != i.fd)
      modifies `socks, `refs, `inUse, `released, `fds
      ensures Valid() && |inUse| == old(|inUse|)
      ensures r.Done? ==> i.fd >= 0 && j.fd >= 0 && fds == old(fds)[i.fd := s][j.fd := t]
      ensures r.Done? ==> socks == before[s := Socket(Some(c.owner), true)][t := Socket(Some(d.owner), true)]
      ensures r.Done? ==> refs == old(refs) && released == old(released) && r.value == 0
      ensures r.Error? ==> fds == old(fds) && socks == before && refs == held && old(released) <= released && r.err < 0
      ensures !r.Undefined? && (r.Done? <==> i.Works() && j.Works() && told)
    {
      var fd := SockMapFd(s, i);
      if fd < 0 {
        DiscardPair(s, t, c, d, before, held);
        r := Error(fd);
      } else {
        PairOrder(before, s, t, c.owner, d.owner, true, false);
        var gd := SockMapFd(t, j);
        if gd < 0 {
          DiscardLast(t, d.owner, d.cpu, before[s := Socket(Some(c.owner), true)], held + multiset{c.owner});
          CloseLast(s, fd, c, before, held, old(fds));
          r := Error(gd);
        } else if !told {
          CloseLast(t, gd, d, before[s := Socket(Some(c.owner), true)], held + multiset{c.owner}, old(fds)[fd := s]);
          CloseLast(s, fd, c, before, held, old(fds));
          r := Error(-EFAULT);
        } else {
          r := Done(0);
        }
      }
    }

    /** Closes the descriptor of the newest socket. */
    method CloseLast(s: nat, fd: nat, c: Create, ghost before: map<nat, Socket>, ghost held: multiset<Module>, ghost rest: map<nat, nat>)
      requires Valid() && c.cpu < |inUse| && s !in before && fd !in rest
      requires socks == before[s := Socket(Some(c.owner), true)] && refs == held + multiset{c.owner} && fds == rest[fd := s]
      modifies `socks, `refs, `inUse, `released, `fds
      ensures Valid() && |inUse| == old(|inUse|) && socks == before && refs == held && fds == rest && old(released) <= released
    {
      var r := SysClose(fd, c.cpu);
      AddRemove(before, s, Socket(Some(c.owner), true));
      RefsBack(held, c.owner);
      assert rest[fd := s] - {fd} == rest;
    }

    /** `sys_socketpair` */
    method SysSocketpair(c: Create, d: Create, paired: int, i: Install, j: Install, told: bool) returns (r: Result)
      requires Valid() && Quiet() && c.cpu < |inUse| && d.cpu < |inUse|
      requires (i.fd >= 0 ==> i.fd !in fds) && (j.fd >= 0 ==> j.fd !in fds && j.fd != i.fd)
      modifies this
      ensures Valid() && |inUse| == old(|inUse|) && (!r.Undefined? ==> Quiet())
      ensures r.Done? ==> i.fd >= 0 && j.fd >= 0 && fds == old(fds)[i.fd := old(next)][j.fd := old(next) + 1]
      ensures r.Done? ==> socks == old(socks)[old(next) := Socket(Some(c.owner), true)][old(next) + 1 := Socket(Some(d.owner), true)]
      ensures r.Done? ==> refs == old(refs) + multiset{c.owner} + multiset{d.owner} && next == old(next) + 2
      ensures r.Done? ==> released == old(released) && r.value == 0
      ensures r.Error? ==> fds == old(fds) && socks == old(socks) && refs == old(refs) && r.err < 0
      ensures !r.Done? ==> fds == old(fds) && old(next) <= next && old(released) <= released
      ensures r.Done? <==> c.Makes() && d.Makes() && paired >= 0 && i.Works() && j.Works() && told
      ensures r.Undefined? <==> c.Misses() || (c.Makes() && d.Misses())
    {
      ghost var before, held := socks, refs;
      var s, t;
      r, s, t := CreatePair(c, d);
      if r.Done? {
        if paired < 0 {
          DiscardPair(s, t, c, d, before, held);
          r := Error(paired);
        } else {
          r := InstallPair(s, t, c, d, i, j, told, before, held);
        }
      }
    }

    /** `sys_accept` on the listening socket behind `fd`. */
    method SysAccept(fd: nat, a: Accept) returns (r: Result)
      requires Valid() && Quiet() && a.cpu < |inUse| && (a.install.fd >= 0 ==> a.install.fd !in fds)
      modifies this
      ensures Valid() && Quiet() && |inUse| == old(|inUse|) && !r.Undefined?
      ensures r.Done? ==> fd in old(fds) && old(fds)[fd] in old(socks) && a.install.fd >= 0
      ensures r.Done? ==> fds == old(fds)[a.install.fd := old(next)]
      ensures r.Done? ==> var listener := old(socks)[old(fds)[fd]];
              && socks == old(socks)[old(next) := listener] && refs == old(refs) + RefsOf(listener)
              && next == old(next) + 1 && released == old(released) && r.value == a.install.fd
      ensures r.Error? ==> fds == old(fds) && socks == old(socks) && refs == old(refs) && r.err != 0
      ensures old(next) <= next && old(released) <= released
      ensures r.Done? <==> fd in old(fds) && a.inode && a.Refusal() == 0 && a.install.Works()
    {
      if fd !in fds {
        r := Error(-EBADF);
      } else {
        assert FdFits(socks, fds, fd);
        var listener := socks[fds[fd]];
        var s := SockAlloc(a.inode, a.cpu);
        if s.None? {
          r := Error(-ENFILE);
        } else {
          r := AcceptInto(s.value, listener.owner.value, a, old(socks));
        }
      }
    }

    /** `newsock->ops = sock->ops` and the reference that goes with it. */
    method GiveOps(s: nat, owner: Module)
      requires Valid() && s in socks && socks[s] == Socket(None, false)
      modifies `socks, `refs
      ensures Valid() && socks == old(socks)[s := Socket(Some(owner), false)] && refs == old(refs) + multiset{owner}
    {
      refs := refs + multiset{owner};
      Attach(socks, old(refs), refs, base, fds, released, next, s, owner, multiset{});
      socks := socks[s := Socket(Some(owner), false)];
    }

    /** The part of `sys_accept` with a new socket. */
    method AcceptInto(s: nat, owner: Module, a: Accept, ghost before: map<nat, Socket>) returns (r: Result)
      requires Valid() && a.cpu < |inUse| && (a.install.fd >= 0 ==> a.install.fd !in fds)
      requires s !in before && s < next && socks == before[s := Socket(None, false)]
      modifies `socks, `refs, `inUse, `released, `fds
      ensures Valid() && |inUse| == old(|inUse|) && !r.Undefined?
      ensures r.Done? ==> a.install.fd >= 0 && fds == old(fds)[a.install.fd := s] && socks == before[s := Socket(Some(owner), true)]
      ensures r.Done? ==> refs == old(refs) + multiset{owner} && released == old(released) && r.value == a.install.fd
      ensures r.Error? ==> fds == old(fds) && socks == before && refs == old(refs) && r.err != 0
      ensures old(released) <= released
      ensures r.Done? <==> a.Refusal() == 0 && a.install.Works()
    {
      GiveOps(s, owner);
      assert socks == before[s := Socket(Some(owner), false)];
      var err := a.Refusal();
      var refused := err != 0;
      if !refused {
        err := SockMapFd(s, a.install);
        refused := err < 0;
      }
      if refused {
        DiscardLast(s, owner, a.cpu, before, old(refs));
        r := Error(err);
      } else {
        r := Done(err);
      }
    }

    /** What a call may be handed: a CPU of the machine and unused descriptors. */
    predicate Fits(call: Call)
      reads this
    {
      match call
      case CallSocket(c, i) => c.cpu < |inUse| && (i.fd >= 0 ==> i.fd !in fds)
      case CallPair(c, d, _, i, j, _) =>
        && c.cpu < |inUse| && d.cpu < |inUse|
        && (i.fd >= 0 ==> i.fd !in fds) && (j.fd >= 0 ==> j.fd !in fds && j.fd != i.fd)
      case CallAccept(_, a) => a.cpu < |inUse| && (a.install.fd >= 0 ==> a.install.fd !in fds)
      case CallClose(_, cpu) => cpu < |inUse|
    }

    /** One system call. */
    method Perform(call: Call) returns (r: Result)
      requires Valid() && Quiet() && Fits(call)
      modifies this
      ensures Valid() && (!r.Undefined? ==> Quiet()) && |inUse| == old(|inUse|)
      ensures old(View()).Steps(call, r, View())
    {
      ghost var before := View();
      match call
      case CallSocket(c, i) =>
        r := SysSocket(c, i);
        Stepped(before, call, r);
      case CallPair(c, d, paired, i, j, told) =>
        r := SysSocketpair(c, d, paired, i, j, told);
        Stepped(before, call, r);
      case CallAccept(fd, a) =>
        r := SysAccept(fd, a);
        Stepped(before, call, r);
      case CallClose(fd, cpu) =>
        var v := SysClose(fd, cpu);
        r := if v < 0 then Error(v) else Done(v);
        Stepped(before, call, r);
    }

    /** What the calls say about success and failure makes a step. */
    lemma Stepped(before: Layer, call: Call, r: Result)
      requires FilesMatch(before.socks, before.fds) && LogMatches(before.socks, before.released, before.next) && Valid()
      requires (r.Undefined? <==> call.UsesNoSocket()) && (r.Done? <==> call.Succeeds(before.fds))
      requires r.Done? ==> r.value == call.Value() && View() == before.AfterDone(call)
      requires r.Error? ==> r.err != 0 && socks == before.socks && fds == before.fds && refs == before.refs
      requires !r.Done? ==> fds == before.fds && before.next <= next && before.released <= released
      ensures before.Steps(call, r, View())
    {
      if r.Error? {
        forall s: nat ensures multiset(released[|before.released|..])[s] == if before.next <= s < next then 1 else 0 {
          SettledSince(socks, before.released, before.next, released, next, s);
        }
      }
    }

    /** Any run of calls, up to the first that goes on with a socket it does not have; `views` are the states between them. */
    method Run(calls: seq<Call>) returns (rs: seq<Result>, ghost views: seq<Layer>)
      requires Valid() && Quiet()
      modifies this
      ensures Valid() && Trail(calls, rs, views) && views[0] == old(View()) && views[|rs|] == View()
      ensures Astray(rs) || (Quiet() && (|rs| < |calls| ==> !Fits(calls[|rs|])))
    {
      rs, views := [], [View()];
      while !Astray(rs) && |rs| < |calls| && Fits(calls[|rs|])
        invariant Valid() && Trail(calls, rs, views) && views[0] == old(View()) && views[|rs|] == View()
        invariant Astray(rs) || Quiet()
        decreases |calls| - |rs|
      {
        var r := Perform(calls[|rs|]);
        TrailGrows(calls, rs, views, r, View());
        rs, views := rs + [r], views + [View()];
      }
    }
  }

  lemma PairOrder(socks: map<nat, Socket>, s: nat, t: nat, m: Module, n: Module, f: bool, g: bool)
    requires s != t
    ensures socks[s := Socket(Some(m), !f)][t := Socket(Some(n), g)][s := Socket(Some(m), f)]
         == socks[s := Socket(Some(m), f)][t := Socket(Some(n), g)]
  {}

  lemma {:induction false} SumZero(counts: seq<int>)
    requires forall i :: 0 <= i < |counts| ==> counts[i] == 0
    ensures Sum(counts) == 0
  {
    if counts != [] {
      SumZero(counts[1..]);
    }
  }
}
