/**
 Requests as file-system operations (fuse/dispatch.rs, passthrough.rs): which operation the bytes of a
 request ask for, that handling it does exactly that to the file system, and what follows for whole
 sessions: cached locations stay right, and an open handle stays on the file it was opened on.
 */
module Requests {
  import opened Basics
  import opened Bytes
  import I = Inodes
  import W = Wire
  import F = Fs
  import D = Dispatch
  import R = Replies
  import C = Clients
  import L = Location
  import E = Effects

  // ---- Names ----

  /** `name` lies at `at`, ended by its first NUL byte. */
  predicate NameAt(b: seq<byte>, at: nat, name: seq<byte>) {
    at + |name| < |b| && b[at..at + |name|] == name && 0 !in name && b[at + |name|] == 0
  }

  /** A name is the bytes up to the first NUL, and there is none if nothing ends it. */
  lemma {:induction false} NameParses(b: seq<byte>, at: nat, name: seq<byte>)
    ensures D.ParseName(b, at) == Some(name) <==> NameAt(b, at, name)
  {
    if at <= |b| {
      FindNulIsFirst(b, at);
      if NameAt(b, at, name) {
        FirstNul(b, at, name);
      }
    }
  }

  lemma {:induction false} FirstNul(b: seq<byte>, at: nat, name: seq<byte>)
    requires NameAt(b, at, name)
    ensures FindNul(b, at) == Some(at + |name|)
    decreases |name|
  {
    if name != [] {
      assert b[at] == b[at..at + |name|][0] == name[0];
      assert b[at + 1..at + |name|] == name[1..];
      FirstNul(b, at + 1, name[1..]);
    }
  }

  /** Two names follow each other, each ended by its own NUL. */
  lemma {:induction false} NamesParse(b: seq<byte>, at: nat, first: seq<byte>, second: seq<byte>)
    ensures D.ParseNames(b, at) == Some((first, second))
            <==> NameAt(b, at, first) && NameAt(b, at + |first| + 1, second)
  {
    NameParses(b, at, first);
    if D.ParseName(b, at) == Some(first) {
      FirstNul(b, at, first);
      NameParses(b, at + |first| + 1, second);
    }
  }

  /** A name that fills the rest of a request may or may not be ended by a NUL. */
  lemma {:induction false} NameTrims(b: seq<byte>)
    ensures var name := D.TrimNul(b); if 0 in b then NameAt(b, 0, name) else name == b
  {
    FindNulIsFirst(b, 0);
    assert b[0..] == b;
    match FindNul(b, 0)
    case None =>
    case Some(i) => assert b[0..i] == b[..i];
  }

  // ---- What a request asks for ----

  function OnName(name: Option<seq<byte>>, f: seq<byte> -> L.Op): (op: Option<L.Op>) {
    match name case None => None case Some(n) => Some(f(n))
  }

  function OnNames(names: Option<(seq<byte>, seq<byte>)>, f: (seq<byte>, seq<byte>) -> L.Op): (op: Option<L.Op>) {
    match names case None => None case Some((a, b)) => Some(f(a, b))
  }

  /** The pairs of a BATCH_FORGET: 16 bytes each, after a count and four bytes of padding. */
  function BatchAt(body: seq<byte>): (batch: seq<(nat, nat)>)
    requires |body| >= 8 && |body| >= 8 + 16 * Num(body, 0, 4)
  {
    seq(Num(body, 0, 4), i requires 0 <= i < Num(body, 0, 4) => (Num(body, 8 + 16 * i, 8), Num(body, 16 + 16 * i, 8)))
  }

  /** Requests that name files. */
  function Asked(op: W.Opcode, nodeid: nat, body: seq<byte>): (o: Option<L.Op>) {
    match op
    case Lookup => Some(L.Lookup(nodeid, D.TrimNul(body)))
    case Mkdir => OnName(D.ParseName(body, 8), (n: seq<byte>) => L.Make(F.Mkdirat, nodeid, n))
    case Symlink => OnNames(D.ParseNames(body, 0), (n: seq<byte>, t: seq<byte>) => L.Make(F.Symlinkat, nodeid, n))
    case Create => OnName(D.ParseName(body, 16), (n: seq<byte>) => L.Create(nodeid, n))
    case Unlink => Some(L.Remove(false, nodeid, D.TrimNul(body)))
    case Rmdir => Some(L.Remove(true, nodeid, D.TrimNul(body)))
    case Link =>
      if |body| < 8 then None
      else OnName(D.ParseName(body, 8), (n: seq<byte>) => L.Link(Num(body, 0, 8), nodeid, n))
    case Rename =>
      if |body| < 8 then None
      else OnNames(D.ParseNames(body, 8), (a: seq<byte>, b: seq<byte>) => L.Rename(nodeid, a, Num(body, 0, 8), b))
    case Rename2 =>
      if |body| < 8 then None
      else OnNames(D.ParseNames(body, 16), (a: seq<byte>, b: seq<byte>) => L.Rename(nodeid, a, Num(body, 0, 8), b))
    case _ => AskedElse(op, nodeid, body)
  }

  /** Requests on open files, on attributes and on references; all others leave the file system alone. */
  function AskedElse(op: W.Opcode, nodeid: nat, body: seq<byte>): (o: Option<L.Op>) {
    match op
    case Open => if |body| < 4 then None else Some(L.Open(false, nodeid))
    case Opendir => if |body| < 4 then None else Some(L.Open(true, nodeid))
    case Write =>
      if |body| < 40 then None
      else Some(L.Write(Num(body, 0, 8), Num(body, 8, 8), body[40..Min(|body|, 40 + Num(body, 16, 4))]))
    case Release => if |body| < 8 then None else Some(L.Release(Num(body, 0, 8)))
    case Releasedir => if |body| < 8 then None else Some(L.Release(Num(body, 0, 8)))
    case Forget => if |body| < 8 then None else Some(L.Forget([(nodeid, Num(body, 0, 8))]))
    case BatchForget =>
      if |body| < 8 || |body| < 8 + 16 * Num(body, 0, 4) then None else Some(L.Forget(BatchAt(body)))
    case Setattr =>
      if |body| < 84 then None
      else
        var mask := Num(body, 0, 4);
        Some(L.Setattr(nodeid, if mask / 8 % 2 == 1 then Some(Num(body, 16, 8)) else None,
                       mask % 8 != 0 || mask / 16 % 4 != 0 || mask / 128 % 4 != 0))
    case _ => None
  }

  /** The operation a request asks for, by its number. */
  function OpOf(request: seq<byte>): (op: Option<L.Op>) {
    if |request| < W.IN_HEADER_LEN then None
    else Asked(R.Meaning(Num(request, 4, 4)), Num(request, 16, 8), request[W.IN_HEADER_LEN..])
  }

  function Done(k: F.Kernel, s: F.State, op: Option<L.Op>): (s': F.State) {
    match op case None => s case Some(o) => L.Step(k, s, o)
  }

  // ---- Handling does what is asked ----

  lemma {:induction false} MakesDone(k: F.Kernel, s: D.State, op: W.Opcode, nodeid: nat, body: seq<byte>)
    requires op == W.Lookup || op == W.Mkdir || op == W.Symlink || op == W.Create
    ensures D.Run(k, s, op, nodeid, body).0.fs == Done(k, s.fs, Asked(op, nodeid, body))
  {
  }

  lemma {:induction false} MovesDone(k: F.Kernel, s: D.State, op: W.Opcode, nodeid: nat, body: seq<byte>)
    requires op == W.Rename || op == W.Rename2
    ensures D.Run(k, s, op, nodeid, body).0.fs == Done(k, s.fs, Asked(op, nodeid, body))
  {
  }

  lemma {:induction false} LinksDone(k: F.Kernel, s: D.State, op: W.Opcode, nodeid: nat, body: seq<byte>)
    requires op == W.Link || op == W.Unlink || op == W.Rmdir
    ensures D.Run(k, s, op, nodeid, body).0.fs == Done(k, s.fs, Asked(op, nodeid, body))
  {
  }

  lemma {:induction false} OpensDone(k: F.Kernel, s: D.State, op: W.Opcode, nodeid: nat, body: seq<byte>)
    requires op == W.Open || op == W.Opendir || op == W.Release || op == W.Releasedir
    ensures D.RunOpen(k, s, op, nodeid, body).0.fs == Done(k, s.fs, AskedElse(op, nodeid, body))
  {
  }

  lemma {:induction false} TransfersDone(k: F.Kernel, s: D.State, op: W.Opcode, nodeid: nat, body: seq<byte>)
    requires op == W.Read || op == W.Readdir || op == W.Fsync
    ensures D.RunOpen(k, s, op, nodeid, body).0.fs == Done(k, s.fs, AskedElse(op, nodeid, body))
  {
  }

  lemma {:induction false} WriteDone(k: F.Kernel, s: D.State, op: W.Opcode, nodeid: nat, body: seq<byte>)
    requires op == W.Write
    ensures D.RunOpen(k, s, op, nodeid, body).0.fs == Done(k, s.fs, AskedElse(op, nodeid, body))
  {
    if |body| >= 40 {
      assert body[40..][..Min(Num(body, 16, 4), |body[40..]|)] == body[40..Min(|body|, 40 + Num(body, 16, 4))];
    }
  }

  lemma {:induction false} RestDone(k: F.Kernel, s: D.State, op: W.Opcode, nodeid: nat, body: seq<byte>)
    requires !R.OnNames(op) && !R.OnHandles(op) && op != W.Forget && op != W.BatchForget && op != W.Setattr
    ensures D.RunRest(k, s, op, nodeid, body).0.fs == Done(k, s.fs, AskedElse(op, nodeid, body))
  {
    NothingAsked(op, nodeid, body);
  }

  lemma {:induction false} NothingAsked(op: W.Opcode, nodeid: nat, body: seq<byte>)
    requires !R.OnNames(op) && !R.OnHandles(op) && op != W.Forget && op != W.BatchForget && op != W.Setattr
    ensures AskedElse(op, nodeid, body) == None
  {
  }

  lemma {:induction false} SetattrDone(k: F.Kernel, s: D.State, op: W.Opcode, nodeid: nat, body: seq<byte>)
    requires op == W.Setattr
    ensures D.RunRest(k, s, op, nodeid, body).0.fs == Done(k, s.fs, AskedElse(op, nodeid, body))
  {
  }

  lemma {:induction false} ForgetsDone(k: F.Kernel, s: D.State, op: W.Opcode, nodeid: nat, body: seq<byte>)
    requires op == W.Forget || op == W.BatchForget
    ensures D.RunRest(k, s, op, nodeid, body).0.fs == Done(k, s.fs, AskedElse(op, nodeid, body))
  {
    if op == W.Forget && |body| >= 8 {
      OneForgotten(s.fs, nodeid, Num(body, 0, 8));
    } else if op == W.BatchForget && W.ParseBatchForget(body).Some? {
      BatchIs(body);
    }
  }

  lemma {:induction false} ElseDone(k: F.Kernel, s: D.State, op: W.Opcode, nodeid: nat, body: seq<byte>)
    requires !R.OnNames(op)
    ensures D.RunOpen(k, s, op, nodeid, body).0.fs == Done(k, s.fs, AskedElse(op, nodeid, body))
  {
    if op == W.Write {
      WriteDone(k, s, op, nodeid, body);
    } else if op == W.Read || op == W.Readdir || op == W.Fsync {
      TransfersDone(k, s, op, nodeid, body);
    } else if R.OnHandles(op) {
      OpensDone(k, s, op, nodeid, body);
    } else {
      R.PastHandles(k, s, op, nodeid, body);
      if op == W.Forget || op == W.BatchForget {
        ForgetsDone(k, s, op, nodeid, body);
      } else if op == W.Setattr {
        SetattrDone(k, s, op, nodeid, body);
      } else {
        RestDone(k, s, op, nodeid, body);
      }
    }
  }

  lemma {:induction false} PastNames(op: W.Opcode, nodeid: nat, body: seq<byte>)
    requires !R.OnNames(op)
    ensures Asked(op, nodeid, body) == AskedElse(op, nodeid, body)
  {
  }

  lemma {:induction false} RunDone(k: F.Kernel, s: D.State, op: W.Opcode, nodeid: nat, body: seq<byte>)
    ensures D.Run(k, s, op, nodeid, body).0.fs == Done(k, s.fs, Asked(op, nodeid, body))
  {
    if op == W.Lookup || op == W.Mkdir || op == W.Symlink || op == W.Create {
      MakesDone(k, s, op, nodeid, body);
    } else if op == W.Link || op == W.Unlink || op == W.Rmdir {
      LinksDone(k, s, op, nodeid, body);
    } else if op == W.Rename || op == W.Rename2 {
      MovesDone(k, s, op, nodeid, body);
    } else {
      R.PastNames(k, s, op, nodeid, body);
      PastNames(op, nodeid, body);
      ElseDone(k, s, op, nodeid, body);
    }
  }

  lemma {:induction false} AskedBy(code: nat, nodeid: nat, body: seq<byte>)
    ensures Asked(W.OpcodeFrom(code), nodeid, body) == Asked(R.Meaning(code), nodeid, body)
  {
    R.MeaningIs(code);
  }

  /** Every request does to the file system what its bytes ask for, and nothing else. */
  lemma {:induction false} RequestIsStep(k: F.Kernel, s: D.State, request: seq<byte>)
    ensures D.Handle(k, s, request).0.fs == Done(k, s.fs, OpOf(request))
  {
    if |request| >= W.IN_HEADER_LEN {
      var code, nodeid, body := Num(request, 4, 4), Num(request, 16, 8), request[W.IN_HEADER_LEN..];
      RunDone(k, s, W.OpcodeFrom(code), nodeid, body);
      AskedBy(code, nodeid, body);
    }
  }

  lemma {:induction false} OneForgotten(s: F.State, id: nat, n: nat)
    ensures F.DropBatch(s, [(id, n)]) == F.DropRefs(s, id, n)
  {
    var b := [(id, n)];
    assert b[1..] == [] && I.ForgetAll(s.inodes, b) == I.ForgetAll(I.Forget(s.inodes, id, n), b[1..]);
  }

  lemma {:induction false} BatchIs(body: seq<byte>)
    requires W.ParseBatchForget(body).Some?
    ensures D.Pairs(W.ParseBatchForget(body).value) == BatchAt(body)
  {
    var n := Num(body, 0, 4);
    forall i | 0 <= i < n
      ensures W.ForgetEntries(body, 8, n)[i] == W.ForgetOne(Num(body, 8 + 16 * i, 8), Num(body, 16 + 16 * i, 8))
    {
      EntryIs(body, 8, n, i);
    }
  }

  lemma {:induction false} EntryIs(b: seq<byte>, off: nat, count: nat, i: nat)
    requires off + 16 * count <= |b| && i < count
    ensures W.ForgetEntries(b, off, count)[i] == W.ForgetOne(Num(b, off + 16 * i, 8), Num(b, off + 8 + 16 * i, 8))
    decreases count
  {
    if i > 0 {
      EntryIs(b, off + 16, count - 1, i - 1);
    }
  }

  // ---- Cached locations over whole sessions ----

  /** The service does to the file system what the request asks for. */
  ghost predicate Performs(sv: C.Service, s: D.State, x: C.Exchange) {
    sv(s, x).0.fs == Done(x.k, s.fs, OpOf(x.request))
  }

  lemma {:induction false} SessionPerforms(s: D.State, x: C.Exchange)
    ensures Performs(C.Session(), s, x)
  {
    RequestIsStep(x.k, s, x.request);
  }

  /** The request keeps every cached location right; it can be told before it is sent. */
  ghost predicate SafeRequest(s: D.State, x: C.Exchange) {
    OpOf(x.request).Some? ==> L.Safe(x.k, s.fs, OpOf(x.request).value)
  }

  ghost predicate SafeSession(sv: C.Service, s: D.State, xs: seq<C.Exchange>)
    decreases |xs|
  {
    xs == [] || (SafeRequest(s, xs[0]) && SafeSession(sv, sv(s, xs[0]).0, xs[1..]))
  }

  /** Cached locations are right all along the session. */
  ghost predicate LocatedSession(sv: C.Service, s: D.State, xs: seq<C.Exchange>)
    decreases |xs|
  {
    L.Located(s.fs) && (xs == [] || LocatedSession(sv, sv(s, xs[0]).0, xs[1..]))
  }

  lemma {:induction false} RequestExact(sv: C.Service, s: D.State, x: C.Exchange)
    requires Performs(sv, s, x) && L.Located(s.fs)
    ensures L.Located(sv(s, x).0.fs) <==> SafeRequest(s, x)
    ensures L.Plain(s.fs) ==> L.Plain(sv(s, x).0.fs)
  {
    match OpOf(x.request)
    case None =>
    case Some(op) =>
      L.StepExact(x.k, s.fs, op);
      if L.Plain(s.fs) {
        L.StepKeepsPlain(x.k, s.fs, op);
      }
  }

  lemma {:induction false} ServiceExact(sv: C.Service, s: D.State, xs: seq<C.Exchange>)
    requires forall s: D.State, x: C.Exchange :: Performs(sv, s, x)
    requires L.Located(s.fs)
    ensures LocatedSession(sv, s, xs) <==> SafeSession(sv, s, xs)
    ensures SafeSession(sv, s, xs) && L.Plain(s.fs) ==>
              L.Located(C.Final(sv, s, xs).fs) && L.Plain(C.Final(sv, s, xs).fs)
    decreases |xs|
  {
    if xs != [] {
      assert Performs(sv, s, xs[0]);
      RequestExact(sv, s, xs[0]);
      var s1 := sv(s, xs[0]).0;
      if L.Located(s1.fs) {
        ServiceExact(sv, s1, xs[1..]);
      }
    }
  }

  lemma {:induction false} AllPerform()
    ensures forall s: D.State, x: C.Exchange :: Performs(C.Session(), s, x)
  {
    forall s: D.State, x: C.Exchange
      ensures Performs(C.Session(), s, x)
    {
      SessionPerforms(s, x);
    }
  }

  /** Over every session, cached locations are right throughout exactly when every request was safe. */
  lemma {:induction false} SessionExact(s: D.State, xs: seq<C.Exchange>)
    requires L.Located(s.fs)
    ensures LocatedSession(C.Session(), s, xs) <==> SafeSession(C.Session(), s, xs)
  {
    AllPerform();
    ServiceExact(C.Session(), s, xs);
  }

  // ---- Open handles over whole sessions ----

  /** RELEASE and RELEASEDIR of handle `h`. */
  predicate Releases(request: seq<byte>, h: nat) {
    |request| >= 48 && (Num(request, 4, 4) == 18 || Num(request, 4, 4) == 29) && Num(request, 40, 8) == h
  }

  /** Handle `h` is open, as before. */
  ghost predicate Stays(s: F.State, s': F.State, h: nat) {
    h in s.handles.open ==> h in s'.handles.open && s'.handles.open[h] == s.handles.open[h]
  }

  lemma {:induction false} StepKeepsHandle(k: F.Kernel, s: F.State, op: L.Op, h: nat)
    requires op != L.Release(h)
    ensures Stays(s, L.Step(k, s, op), h)
  {
    match op
    case Lookup(p, n) => E.LookupEffect(k, s, p, n);
    case Make(call, p, n) => E.MakeEffect(k, s, call, p, n);
    case Create(p, n) =>
      E.MakeEffect(k, s, F.OpenExcl, p, n);
      E.CreateEffect(k, s, p, n);
    case Link(ino, p, n) => E.LinkEffect(k, s, ino, p, n);
    case Rename(p, n, p', n') => E.RenameEffect(k, s, p, n, p', n');
    case Remove(rmdir, p, n) => E.RemoveEffect(k, s, rmdir, p, n);
    case Forget(batch) =>
    case Open(dir, ino) => E.OpenEffect(k, s, dir, ino);
    case Release(h') => E.ReleaseEffect(s, h');
    case Write(h', off, data) => E.WriteEffect(k, s, h', off, data);
    case Setattr(ino, size, others) => E.SetattrEffect(k, s, ino, size, others);
  }

  lemma {:induction false} OnlyReleases(request: seq<byte>, h: nat)
    requires OpOf(request) == Some(L.Release(h))
    ensures Releases(request, h)
  {
    assert request[40..48] == request[W.IN_HEADER_LEN..][0..8];
  }

  lemma {:induction false} ExchangeKeepsHandle(sv: C.Service, s: D.State, x: C.Exchange, h: nat)
    requires Performs(sv, s, x) && !Releases(x.request, h)
    ensures Stays(s.fs, sv(s, x).0.fs, h)
  {
    match OpOf(x.request)
    case None =>
    case Some(op) =>
      if op == L.Release(h) {
        OnlyReleases(x.request, h);
      } else {
        StepKeepsHandle(x.k, s.fs, op, h);
      }
  }

  lemma {:induction false} SessionKeepsHandle(sv: C.Service, s: D.State, xs: seq<C.Exchange>, h: nat)
    requires forall s: D.State, x: C.Exchange :: Performs(sv, s, x)
    requires forall i :: 0 <= i < |xs| ==> !Releases(xs[i].request, h)
    ensures Stays(s.fs, C.Final(sv, s, xs).fs, h)
    decreases |xs|
  {
    if xs != [] {
      assert Performs(sv, s, xs[0]);
      ExchangeKeepsHandle(sv, s, xs[0], h);
      SessionKeepsHandle(sv, sv(s, xs[0]).0, xs[1..], h);
    }
  }

  /** What handle `h` is open on. */
  ghost predicate OpenOn(s: F.State, h: nat, d: F.HandleData) {
    h in s.handles.open && s.handles.open[h] == d
  }

  lemma {:induction false} NodeOpened(k: F.Kernel, s: D.State, op: W.Opcode, nodeid: nat, body: seq<byte>, h: nat)
    requires (op == W.Open || op == W.Opendir) && C.HandleResult(k, s, op, nodeid, body) == Some(h)
    requires L.Located(s.fs) && L.Plain(s.fs)
    ensures nodeid in s.fs.inodes.byId
    ensures var key := s.fs.inodes.byId[nodeid].key;
            OpenOn(Done(k, s.fs, Asked(op, nodeid, body)), h, if op == W.Opendir then F.DirStream(key) else F.File(key))
  {
    E.OpenEffect(k, s.fs, op == W.Opendir, nodeid);
    if nodeid in s.fs.inodes.byId {
      L.ReopenReachesOwnFile(k, s.fs, nodeid);
    }
  }

  lemma {:induction false} FileCreated(k: F.Kernel, s: D.State, op: W.Opcode, nodeid: nat, body: seq<byte>, h: nat)
    returns (id: nat)
    requires op == W.Create && C.HandleResult(k, s, op, nodeid, body) == Some(h)
    ensures C.EntryResult(k, s, op, nodeid, body) == Some(Ok(id))
    ensures var s' := Done(k, s.fs, Asked(op, nodeid, body));
            id in s'.inodes.byId && OpenOn(s', h, F.File(s'.inodes.byId[id].key))
  {
    var n := D.ParseName(body, 16).value;
    id := F.Create(k, s.fs, nodeid, n).1.value.0;
    E.MakeEffect(k, s.fs, F.OpenExcl, nodeid, n);
    E.CreateEffect(k, s.fs, nodeid, n);
  }

  lemma {:induction false} CreateGrants(s: D.State, x: C.Exchange, op: W.Opcode, nodeid: nat, body: seq<byte>, h: nat)
    requires |x.request| >= W.IN_HEADER_LEN && Num(x.request, 4, 4) == 35
    requires op == W.OpcodeFrom(Num(x.request, 4, 4)) && op == W.Create && nodeid == Num(x.request, 16, 8)
    requires body == x.request[W.IN_HEADER_LEN..] && C.HandleResult(x.k, s, op, nodeid, body) == Some(h)
    requires C.After(s, x).fs == Done(x.k, s.fs, Asked(op, nodeid, body))
    ensures var s' := C.After(s, x).fs;
            s'.inodes.nextId <= C.TWO_64 ==>
              var id := C.Granted(x.request, C.ReplyTo(s, x));
              id.Some? && id.value in s'.inodes.byId && OpenOn(s', h, F.File(s'.inodes.byId[id.value].key))
  {
    var s' := C.After(s, x).fs;
    if s'.inodes.nextId <= C.TWO_64 {
      var id := FileCreated(x.k, s, op, nodeid, body, h);
      assert I.IdOk(s'.inodes, id);
      C.GrantIsResult(x, s, op, nodeid, body);
    }
  }

  /**
   The handle in a reply to OPEN is open on the file of the node named, as a file; in one to OPENDIR, as
   a directory; and in one to CREATE on the file of the node the same reply grants. Ids stay below 2^64.
   */
  lemma {:induction false} HandleOpensNode(s: D.State, x: C.Exchange, h: nat)
    requires C.Opened(x.request, C.ReplyTo(s, x)) == Some(h) && C.After(s, x).fs.handles.nextId <= C.TWO_64
    requires L.Located(s.fs) && L.Plain(s.fs)
    ensures var code, nodeid, s' := Num(x.request, 4, 4), Num(x.request, 16, 8), C.After(s, x).fs;
            if code == 35 then
              s'.inodes.nextId <= C.TWO_64 ==>
                var id := C.Granted(x.request, C.ReplyTo(s, x));
                id.Some? && id.value in s'.inodes.byId && OpenOn(s', h, F.File(s'.inodes.byId[id.value].key))
            else
              && (code == 14 || code == 27) && nodeid in s.fs.inodes.byId
              && var key := s.fs.inodes.byId[nodeid].key;
                 OpenOn(s', h, if code == 27 then F.DirStream(key) else F.File(key))
  {
    var code, nodeid, body := Num(x.request, 4, 4), Num(x.request, 16, 8), x.request[W.IN_HEADER_LEN..];
    var op := W.OpcodeFrom(code);
    C.OpenerCodes(code);
    C.HandlesAdvance(x.k, s, op, nodeid, body);
    C.OpenedIsResult(x, s, op, nodeid, body);
    RequestIsStep(x.k, s, x.request);
    AskedBy(code, nodeid, body);
    if code == 35 {
      CreateGrants(s, x, op, nodeid, body, h);
    } else {
      NodeOpened(x.k, s, op, nodeid, body, h);
    }
  }

  // ---- What READ and WRITE of an open handle act on ----

  /** The error field of a transfer: 22 for an offset no kernel takes, otherwise the kernel's own verdict. */
  function TransferError(off: nat, fault: Option<int>): (e: int) {
    if off >= 0x8000_0000_0000_0000 then -22
    else match fault case None => 0 case Some(e) => -W.ToLinuxErrno(e)
  }

  lemma {:induction false} ReadVerdict(k: F.Kernel, s: D.State, op: W.Opcode, nodeid: nat, body: seq<byte>)
    requires op == W.Read && |body| >= 20
    ensures var r := F.ReadFile(k, s.fs, Num(body, 0, 8), Num(body, 8, 8), Num(body, 16, 4));
            && R.VerdictOf(k, s, op, nodeid, body) == R.Of(r)
            && R.ContentOf(k, s, op, nodeid, body) == R.Data(r)
            && Asked(op, nodeid, body) == None
  {
  }

  lemma {:induction false} WriteVerdict(k: F.Kernel, s: D.State, op: W.Opcode, nodeid: nat, body: seq<byte>,
                                        data: seq<byte>)
    requires op == W.Write && |body| >= 40 && data == body[40..Min(|body|, 40 + Num(body, 16, 4))]
    ensures var r := F.WriteFile(k, s.fs, Num(body, 0, 8), Num(body, 8, 8), data);
            && R.VerdictOf(k, s, op, nodeid, body) == R.Of(r.1)
            && R.ContentOf(k, s, op, nodeid, body) == R.Count(r.1)
            && Done(k, s.fs, Asked(op, nodeid, body)) == r.0
  {
  }

  /** The request is number `code` on handle `h`; offset and size follow the handle. */
  predicate On(request: seq<byte>, code: nat, h: nat) {
    |request| >= 60 && Num(request, 4, 4) == code && Num(request, 40, 8) == h
  }

  /** READ is 15: it fails only as the kernel says, and returns bytes of the handle's file. */
  ghost predicate ReadsFile(k: F.Kernel, s: F.State, s': F.State, request: seq<byte>, reply: D.Reply, h: nat,
                            key: I.FileKey) {
    On(request, 15, h) ==>
      var off, size := Num(request, 48, 8), Num(request, 56, 4);
      && s' == s && reply.Bytes? && |reply.bytes| >= 16
      && NumI32(reply.bytes, 4) == TransferError(off, k.fault(F.Pread(size)))
      && (NumI32(reply.bytes, 4) == 0 ==> E.PartOf(s.host.Contents(key), off, size, reply.bytes[16..]))
  }

  /** WRITE is 16: it fails only as the kernel says, and puts as many bytes as it reports into the handle's file. */
  ghost predicate WritesFile(k: F.Kernel, s: F.State, s': F.State, request: seq<byte>, reply: D.Reply, h: nat,
                             key: I.FileKey) {
    On(request, 16, h) && |request| >= 80 ==>
      var off, data := Num(request, 48, 8), request[80..Min(|request|, 80 + Num(request, 56, 4))];
      && reply.Bytes? && |reply.bytes| >= 16
      && NumI32(reply.bytes, 4) == TransferError(off, k.fault(F.Pwrite(|data|)))
      && (NumI32(reply.bytes, 4) != 0 ==> s' == s)
      && (NumI32(reply.bytes, 4) == 0 ==>
            |reply.bytes| == 24 && Wrote(s, s', key, off, data, Num(reply.bytes, 16, 4)))
  }

  /** READ and WRITE of handle `h` act on the file with this key. */
  ghost predicate ActsOn(s: D.State, y: C.Exchange, h: nat, key: I.FileKey) {
    && ReadsFile(y.k, s.fs, C.After(s, y).fs, y.request, C.ReplyTo(s, y), h, key)
    && WritesFile(y.k, s.fs, C.After(s, y).fs, y.request, C.ReplyTo(s, y), h, key)
  }

  /** The first `n` bytes of `data` have been put into the file at `off`, and nothing else has changed. */
  ghost predicate Wrote(s: F.State, s': F.State, key: I.FileKey, off: nat, data: seq<byte>, n: nat) {
    && n <= |data| && s'.host.tree == s.host.tree && s'.inodes == s.inodes && s'.handles == s.handles
    && E.Overlaid(s.host.Contents(key), s'.host.Contents(key), off, data[..n])
    && (forall other :: other != key ==> s'.host.Contents(other) == s.host.Contents(other))
  }

  /** The fields of a request, in its body. */
  lemma {:induction false} BodyFields(request: seq<byte>)
    requires |request| >= 60
    ensures var body := request[W.IN_HEADER_LEN..];
            && Num(body, 0, 8) == Num(request, 40, 8) && Num(body, 8, 8) == Num(request, 48, 8)
            && Num(body, 16, 4) == Num(request, 56, 4)
  {
    var body := request[W.IN_HEADER_LEN..];
    assert body[0..8] == request[40..48] && body[8..16] == request[48..56] && body[16..20] == request[56..60];
  }

  lemma {:induction false} DataIs(request: seq<byte>, size: nat)
    requires |request| >= 80
    ensures var body := request[W.IN_HEADER_LEN..];
            body[40..Min(|body|, 40 + size)] == request[80..Min(|request|, 80 + size)]
  {
  }

  lemma {:induction false} ReadFits(k: F.Kernel, s: F.State, request: seq<byte>, b: seq<byte>, h: nat, key: I.FileKey,
                                    r: F.FsResult<seq<byte>>)
    requires OpenOn(s, h, F.File(key)) && On(request, 15, h) && |b| >= 16
    requires r == F.ReadFile(k, s, h, Num(request, 48, 8), Num(request, 56, 4))
    requires NumI32(b, 4) == R.ErrorField(R.Of(r)) && (NumI32(b, 4) == 0 ==> r == Ok(b[16..]))
    ensures ReadsFile(k, s, s, request, D.Bytes(b), h, key)
  {
    E.ReadEffect(k, s, h, Num(request, 48, 8), Num(request, 56, 4));
  }

  lemma {:induction false} ReadActs(s: D.State, y: C.Exchange, op: W.Opcode, h: nat, key: I.FileKey)
    requires OpenOn(s.fs, h, F.File(key)) && On(y.request, 15, h)
    requires op == R.Meaning(Num(y.request, 4, 4)) && op == W.Read
    ensures ReadsFile(y.k, s.fs, C.After(s, y).fs, y.request, C.ReplyTo(s, y), h, key)
  {
    var nodeid, body := Num(y.request, 16, 8), y.request[W.IN_HEADER_LEN..];
    BodyFields(y.request);
    ReadVerdict(y.k, s, op, nodeid, body);
    var b := C.AnsweredWith(y, s, op, nodeid, body);
    RequestIsStep(y.k, s, y.request);
    ReadFits(y.k, s.fs, y.request, b, h, key, F.ReadFile(y.k, s.fs, h, Num(body, 8, 8), Num(body, 16, 4)));
  }

  lemma {:induction false} WriteFits(k: F.Kernel, s: F.State, request: seq<byte>, b: seq<byte>, h: nat, key: I.FileKey,
                                     data: seq<byte>, r: (F.State, F.FsResult<nat>))
    requires OpenOn(s, h, F.File(key)) && On(request, 16, h) && |request| >= 80 && |b| >= 16
    requires data == request[80..Min(|request|, 80 + Num(request, 56, 4))]
    requires r == F.WriteFile(k, s, h, Num(request, 48, 8), data)
    requires NumI32(b, 4) == R.ErrorField(R.Of(r.1)) && (NumI32(b, 4) == 0 ==> R.Shows(k, b[16..], R.Count(r.1)))
    ensures WritesFile(k, s, r.0, request, D.Bytes(b), h, key)
  {
    E.WriteEffect(k, s, h, Num(request, 48, 8), data);
    if NumI32(b, 4) == 0 {
      assert b[16..][0..4] == b[16..20];
    }
  }

  lemma {:induction false} WriteActs(s: D.State, y: C.Exchange, op: W.Opcode, h: nat, key: I.FileKey)
    requires OpenOn(s.fs, h, F.File(key)) && On(y.request, 16, h) && |y.request| >= 80
    requires op == R.Meaning(Num(y.request, 4, 4)) && op == W.Write
    ensures WritesFile(y.k, s.fs, C.After(s, y).fs, y.request, C.ReplyTo(s, y), h, key)
  {
    var nodeid, body := Num(y.request, 16, 8), y.request[W.IN_HEADER_LEN..];
    BodyFields(y.request);
    var size := Num(body, 16, 4);
    var data := y.request[80..Min(|y.request|, 80 + size)];
    DataIs(y.request, size);
    WriteVerdict(y.k, s, op, nodeid, body, data);
    var b := C.AnsweredWith(y, s, op, nodeid, body);
    RequestIsStep(y.k, s, y.request);
    WriteFits(y.k, s.fs, y.request, b, h, key, data, F.WriteFile(y.k, s.fs, h, Num(body, 8, 8), data));
  }

  /**
   From a freshly opened share, after any session of safe requests: the handle an OPEN replies with
   acts on the file of the node it was opened on. Whatever requests follow, short of a release of that
   handle, a READ of it returns bytes of that file, and a WRITE of it changes that file and no other.
   */
  lemma {:induction false} HandleActsOnNode(rootKey: I.FileKey, host: F.Host, before: seq<C.Exchange>, x: C.Exchange,
                                            after: seq<C.Exchange>, y: C.Exchange, h: nat)
    requires SafeSession(C.Session(), Fresh(rootKey, host), before)
    requires var s := C.Final(C.Session(), Fresh(rootKey, host), before);
             && |x.request| >= W.IN_HEADER_LEN && Num(x.request, 4, 4) == 14
             && C.Opened(x.request, C.ReplyTo(s, x)) == Some(h) && C.After(s, x).fs.handles.nextId <= C.TWO_64
    requires forall i :: 0 <= i < |after| ==> !Releases(after[i].request, h)
    ensures var s := C.Final(C.Session(), Fresh(rootKey, host), before);
            var s' := C.Final(C.Session(), C.After(s, x), after);
            && Num(x.request, 16, 8) in s.fs.inodes.byId
            && var key := s.fs.inodes.byId[Num(x.request, 16, 8)].key;
               ActsOn(s', y, h, key)
  {
    var s0 := Fresh(rootKey, host);
    var s := C.Final(C.Session(), s0, before);
    AllPerform();
    L.InitLocated(rootKey, host);
    ServiceExact(C.Session(), s0, before);
    HandleOpensNode(s, x, h);
    SessionKeepsHandle(C.Session(), C.After(s, x), after, h);
    var s', key := C.Final(C.Session(), C.After(s, x), after), s.fs.inodes.byId[Num(x.request, 16, 8)].key;
    HandleActs(s', y, h, key);
  }

  lemma {:induction false} HandleActs(s: D.State, y: C.Exchange, h: nat, key: I.FileKey)
    requires OpenOn(s.fs, h, F.File(key))
    ensures ActsOn(s, y, h, key)
  {
    if On(y.request, 15, h) {
      ReadActs(s, y, R.Meaning(Num(y.request, 4, 4)), h, key);
    } else if On(y.request, 16, h) && |y.request| >= 80 {
      WriteActs(s, y, R.Meaning(Num(y.request, 4, 4)), h, key);
    }
  }

  /** A freshly opened share. */
  function Fresh(rootKey: I.FileKey, host: F.Host): (s: D.State) {
    D.State(F.Raw(I.InitTable(rootKey), F.Handles(map[], 1), host), map[])
  }
}
