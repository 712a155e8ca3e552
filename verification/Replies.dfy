/**
 What a reply tells the client (fuse/dispatch.rs): its error field against what the file system did,
 and on success the fields that carry the result. The verdict is read off the request and the file
 system alone, not off the dispatcher.
 */
module Replies {
  import opened Basics
  import opened Bytes
  import W = Wire
  import F = Fs
  import D = Dispatch
  import P = Readdir

  /** The requests of the FUSE protocol by number. */
  const REQUESTS: map<nat, W.Opcode> :=
    map[1 := W.Lookup, 2 := W.Forget, 3 := W.Getattr, 4 := W.Setattr, 5 := W.Readlink, 6 := W.Symlink,
        9 := W.Mkdir, 10 := W.Unlink, 11 := W.Rmdir, 12 := W.Rename, 13 := W.Link, 14 := W.Open,
        15 := W.Read, 16 := W.Write, 17 := W.Statfs, 18 := W.Release, 20 := W.Fsync, 25 := W.Flush,
        26 := W.Init, 27 := W.Opendir, 28 := W.Readdir, 29 := W.Releasedir, 30 := W.Fsyncdir,
        34 := W.Access, 35 := W.Create, 38 := W.Destroy, 42 := W.BatchForget, 45 := W.Rename2]

  function Meaning(code: nat): (op: W.Opcode) {
    if code in REQUESTS then REQUESTS[code] else W.Unknown(code)
  }

  /** The four requests on extended attributes are known by number and not handled. */
  predicate Unhandled(code: nat) {
    21 <= code <= 24
  }

  /** The dispatcher takes every number for what the protocol says, and no other for it. */
  lemma {:induction false} MeaningIs(code: nat)
    ensures !Unhandled(code) ==> W.OpcodeFrom(code) == Meaning(code)
    ensures Unhandled(code) ==>
              W.OpcodeFrom(code) in {W.Setxattr, W.Getxattr, W.Listxattr, W.Removexattr}
  {
  }

  /** What a request deserves: it does not parse, its operation succeeded or failed, or nothing comes back. */
  datatype Verdict = Unparsed | Succeeded | Failed(errno: int) | Unanswered

  function Of<T>(r: F.FsResult<T>): (v: Verdict) {
    if r.Ok? then Succeeded else Failed(r.error)
  }

  /** The verdict of an operation on a name that follows `fixed` bytes. */
  function Named<T>(body: seq<byte>, fixed: nat, run: seq<byte> -> F.FsResult<T>): (v: Verdict) {
    match D.ParseName(body, fixed)
    case None => Unparsed
    case Some(name) => Of(run(name))
  }

  function NamedTwice<T>(body: seq<byte>, fixed: nat, run: (seq<byte>, seq<byte>) -> F.FsResult<T>): (v: Verdict) {
    match D.ParseNames(body, fixed)
    case None => Unparsed
    case Some((a, b)) => Of(run(a, b))
  }

  /** The kernel's answer to a call the model does not look into. */
  function Plain(k: F.Kernel): (r: F.FsResult<()>) {
    match k.fault(F.Misc) case Some(e) => Err(e) case None => Ok(())
  }

  function OnNode(k: F.Kernel, s: F.State, nodeid: nat): (r: F.FsResult<()>) {
    if nodeid !in s.inodes.byId then Err(9) else Plain(k)
  }

  /** Names: LOOKUP to RENAME2, then open files, then the rest. */
  function VerdictOf(k: F.Kernel, s: D.State, op: W.Opcode, nodeid: nat, body: seq<byte>): (v: Verdict) {
    match op
    case Lookup => Of(F.Lookup(k, s.fs, nodeid, D.TrimNul(body)).1)
    case Mkdir => Named(body, 8, (n: seq<byte>) => F.MakeNode(k, s.fs, F.Mkdirat, nodeid, n).1)
    case Symlink => NamedTwice(body, 0, (n: seq<byte>, t: seq<byte>) => F.MakeNode(k, s.fs, F.Symlinkat, nodeid, n).1)
    case Create => Named(body, 16, (n: seq<byte>) => F.Create(k, s.fs, nodeid, n).1)
    case Link => if |body| < 8 then Unparsed
        else Named(body, 8, (n: seq<byte>) => F.Link(k, s.fs, Num(body, 0, 8), nodeid, n).1)
    case Unlink => Of(F.Remove(k, s.fs, false, nodeid, D.TrimNul(body)).1)
    case Rmdir => Of(F.Remove(k, s.fs, true, nodeid, D.TrimNul(body)).1)
    case Rename =>
      if |body| < 8 then Unparsed
      else NamedTwice(body, 8, (a: seq<byte>, b: seq<byte>) => F.Rename(k, s.fs, nodeid, a, Num(body, 0, 8), b).1)
    case Rename2 =>
      if |body| < 8 then Unparsed
      else NamedTwice(body, 16, (a: seq<byte>, b: seq<byte>) => F.Rename(k, s.fs, nodeid, a, Num(body, 0, 8), b).1)
    case _ => OpenVerdict(k, s, op, nodeid, body)
  }

  function OpenVerdict(k: F.Kernel, s: D.State, op: W.Opcode, nodeid: nat, body: seq<byte>): (v: Verdict) {
    match op
    case Open => if |body| < 4 then Unparsed else Of(F.OpenNode(k, s.fs, false, nodeid).1)
    case Opendir => if |body| < 4 then Unparsed else Of(F.OpenNode(k, s.fs, true, nodeid).1)
    case Read =>
      if |body| < 20 then Unparsed else Of(F.ReadFile(k, s.fs, Num(body, 0, 8), Num(body, 8, 8), Num(body, 16, 4)))
    case Write =>
      if |body| < 40 then Unparsed
      else Of(F.WriteFile(k, s.fs, Num(body, 0, 8), Num(body, 8, 8), body[40..Min(|body|, 40 + Num(body, 16, 4))]).1)
    case Release => if |body| < 8 then Unparsed else Of(F.ReleaseHandle(s.fs, Num(body, 0, 8)).1)
    case Releasedir => if |body| < 8 then Unparsed else Of(F.ReleaseHandle(s.fs, Num(body, 0, 8)).1)
    case Readdir =>
      if |body| < 20 then Unparsed
      else if Num(body, 8, 8) != 0 && Num(body, 0, 8) in s.cache then Succeeded
      else Of(F.ListDir(k, s.fs, Num(body, 0, 8)))
    case Fsync =>
      if |body| < 8 then Unparsed
      else (match F.FileOf(s.fs.handles, Num(body, 0, 8)) case Err(e) => Failed(e) case Ok(_) => Of(Plain(k)))
    case _ => RestVerdict(k, s, op, nodeid, body)
  }

  function RestVerdict(k: F.Kernel, s: D.State, op: W.Opcode, nodeid: nat, body: seq<byte>): (v: Verdict) {
    match op
    case Forget => if |body| < 8 then Unparsed else Unanswered
    case BatchForget => if |body| < 8 || |body| < 8 + 16 * Num(body, 0, 4) then Unparsed else Unanswered
    case Setattr =>
      if |body| < 84 then Unparsed
      else
        var mask := Num(body, 0, 4);
        Of(F.Setattr(k, s.fs, nodeid, if mask / 8 % 2 == 1 then Some(Num(body, 16, 8)) else None,
                     mask % 8 != 0 || mask / 16 % 4 != 0 || mask / 128 % 4 != 0).1)
    case Init => if |body| < 12 then Unparsed else Succeeded
    case Getattr => if |body| < 16 then Unparsed else Of(OnNode(k, s.fs, nodeid))
    case Readlink => Of(OnNode(k, s.fs, nodeid))
    case Statfs => Of(OnNode(k, s.fs, nodeid))
    case Flush => if |body| < 8 then Unparsed else Succeeded
    case Access => if |body| < 4 then Unparsed else Succeeded
    case Destroy => Succeeded
    case Fsyncdir => Succeeded
    case _ => Failed(38)
  }

  /** An outcome says what the verdict says; a request that does not parse is EINVAL. */
  ghost predicate Tells(o: D.Outcome, v: Verdict) {
    match v
    case Unparsed => o == D.Fail(22)
    case Succeeded => o.Answer?
    case Failed(e) => o == D.Fail(e)
    case Unanswered => o == D.Silent
  }

  lemma {:induction false} MakeTells(k: F.Kernel, s: D.State, op: W.Opcode, nodeid: nat, body: seq<byte>)
    requires op == W.Lookup || op == W.Mkdir || op == W.Symlink || op == W.Create
    ensures Tells(D.Run(k, s, op, nodeid, body).1, VerdictOf(k, s, op, nodeid, body))
  {
  }

  lemma {:induction false} MoveTells(k: F.Kernel, s: D.State, op: W.Opcode, nodeid: nat, body: seq<byte>)
    requires op == W.Link || op == W.Unlink || op == W.Rmdir || op == W.Rename || op == W.Rename2
    ensures Tells(D.Run(k, s, op, nodeid, body).1, VerdictOf(k, s, op, nodeid, body))
  {
  }

  predicate OnNames(op: W.Opcode) {
    op == W.Lookup || op == W.Mkdir || op == W.Symlink || op == W.Create || op == W.Link
    || op == W.Unlink || op == W.Rmdir || op == W.Rename || op == W.Rename2
  }

  predicate OnHandles(op: W.Opcode) {
    op == W.Open || op == W.Opendir || op == W.Read || op == W.Write
    || op == W.Release || op == W.Releasedir || op == W.Readdir || op == W.Fsync
  }

  lemma {:induction false} PastNames(k: F.Kernel, s: D.State, op: W.Opcode, nodeid: nat, body: seq<byte>)
    requires !OnNames(op)
    ensures D.Run(k, s, op, nodeid, body) == D.RunOpen(k, s, op, nodeid, body)
    ensures VerdictOf(k, s, op, nodeid, body) == OpenVerdict(k, s, op, nodeid, body)
  {
  }

  lemma {:induction false} PastHandles(k: F.Kernel, s: D.State, op: W.Opcode, nodeid: nat, body: seq<byte>)
    requires !OnHandles(op)
    ensures D.RunOpen(k, s, op, nodeid, body) == D.RunRest(k, s, op, nodeid, body)
    ensures OpenVerdict(k, s, op, nodeid, body) == RestVerdict(k, s, op, nodeid, body)
  {
  }

  lemma {:induction false} FileTells(k: F.Kernel, s: D.State, op: W.Opcode, nodeid: nat, body: seq<byte>)
    requires op == W.Open || op == W.Opendir || op == W.Read || op == W.Write
    ensures Tells(D.RunOpen(k, s, op, nodeid, body).1, OpenVerdict(k, s, op, nodeid, body))
  {
    if op == W.Write && |body| >= 40 {
      assert body[40..][..Min(Num(body, 16, 4), |body[40..]|)] == body[40..Min(|body|, 40 + Num(body, 16, 4))];
    }
  }

  lemma {:induction false} HandleTells(k: F.Kernel, s: D.State, op: W.Opcode, nodeid: nat, body: seq<byte>)
    requires op == W.Release || op == W.Releasedir || op == W.Fsync
    ensures Tells(D.RunOpen(k, s, op, nodeid, body).1, OpenVerdict(k, s, op, nodeid, body))
  {
  }

  lemma {:induction false} ReaddirTells(k: F.Kernel, s: D.State, nodeid: nat, body: seq<byte>)
    ensures Tells(D.RunOpen(k, s, W.Readdir, nodeid, body).1, OpenVerdict(k, s, W.Readdir, nodeid, body))
  {
  }

  lemma {:induction false} RestTells(k: F.Kernel, s: D.State, op: W.Opcode, nodeid: nat, body: seq<byte>)
    ensures Tells(D.RunRest(k, s, op, nodeid, body).1, RestVerdict(k, s, op, nodeid, body))
  {
  }

  lemma {:induction false} OpenTells(k: F.Kernel, s: D.State, op: W.Opcode, nodeid: nat, body: seq<byte>)
    ensures Tells(D.RunOpen(k, s, op, nodeid, body).1, OpenVerdict(k, s, op, nodeid, body))
  {
    if op == W.Open || op == W.Opendir || op == W.Read || op == W.Write {
      FileTells(k, s, op, nodeid, body);
    } else if op == W.Readdir {
      ReaddirTells(k, s, nodeid, body);
    } else if OnHandles(op) {
      HandleTells(k, s, op, nodeid, body);
    } else {
      PastHandles(k, s, op, nodeid, body);
      RestTells(k, s, op, nodeid, body);
    }
  }

  lemma {:induction false} RunTells(k: F.Kernel, s: D.State, op: W.Opcode, nodeid: nat, body: seq<byte>)
    ensures Tells(D.Run(k, s, op, nodeid, body).1, VerdictOf(k, s, op, nodeid, body))
  {
    if op == W.Lookup || op == W.Mkdir || op == W.Symlink || op == W.Create {
      MakeTells(k, s, op, nodeid, body);
    } else if OnNames(op) {
      MoveTells(k, s, op, nodeid, body);
    } else {
      PastNames(k, s, op, nodeid, body);
      OpenTells(k, s, op, nodeid, body);
    }
  }

  // ---- On the wire ----

  /** The fields of a reply, whatever its length. */
  lemma {:induction false} ReplyFields(unique: u64, error: int, body: seq<byte>)
    requires -125 <= error <= 0
    ensures var b := W.Reply(unique, error, body);
            && |b| >= W.OUT_HEADER_LEN && NumI32(b, 4) == error && Num(b, 8, 8) == unique
            && b[W.OUT_HEADER_LEN..] == if error == 0 then body else []
  {
    var rest := if error == 0 then body else [];
    var l, e, u := Le((W.OUT_HEADER_LEN + |rest|) % 0x1_0000_0000, 4), LeI32(error), Le(unique, 8);
    var b := l + e + u + rest;
    assert b == W.Reply(unique, error, body);
    assert b == l + e + (u + rest) && b == (l + e) + u + rest && b[W.OUT_HEADER_LEN..] == rest;
    I32RoundTrip(l, error, u + rest);
    PowFacts();
    NumOfLe(l + e, unique, 8, rest);
  }

  /** The error field a verdict calls for. */
  function ErrorField(v: Verdict): (e: int)
    requires !v.Unanswered?
  {
    match v
    case Unparsed => -22
    case Succeeded => 0
    case Failed(e) => -W.ToLinuxErrno(e)
  }

  function VerdictFor(k: F.Kernel, s: D.State, request: seq<byte>): (v: Verdict)
    requires |request| >= W.IN_HEADER_LEN
  {
    VerdictOf(k, s, Meaning(Num(request, 4, 4)), Num(request, 16, 8), request[W.IN_HEADER_LEN..])
  }

  lemma {:induction false} VerdictBy(k: F.Kernel, s: D.State, code: nat, nodeid: nat, body: seq<byte>)
    ensures VerdictOf(k, s, W.OpcodeFrom(code), nodeid, body) == VerdictOf(k, s, Meaning(code), nodeid, body)
  {
    var op, op' := W.OpcodeFrom(code), Meaning(code);
    MeaningIs(code);
    if Unhandled(code) {
      NotHandled(k, s, op, nodeid, body);
      NotHandled(k, s, op', nodeid, body);
    } else {
      assert op == op';
    }
  }

  lemma {:induction false} NotHandled(k: F.Kernel, s: D.State, op: W.Opcode, nodeid: nat, body: seq<byte>)
    requires op in {W.Setxattr, W.Getxattr, W.Listxattr, W.Removexattr} || op.Unknown?
    ensures VerdictOf(k, s, op, nodeid, body) == Failed(38)
  {
  }

  /**
   No failure is encoded as success, nor a success as failure: for every request the error field is 0
   exactly when the payload parses and the file system did what was asked, -22 when the payload does
   not parse, and otherwise the negated Linux errno of the failure; no reply comes back exactly for
   headers that do not parse and for forgets; and a reply carries the request's own `unique`.
   */
  lemma {:induction false} RepliesTellTheTruth(k: F.Kernel, s: D.State, request: seq<byte>)
    ensures match D.Handle(k, s, request).1
            case NoReply => |request| < W.IN_HEADER_LEN || VerdictFor(k, s, request) == Unanswered
            case Bytes(b) =>
              && |request| >= W.IN_HEADER_LEN && VerdictFor(k, s, request) != Unanswered
              && |b| >= W.OUT_HEADER_LEN && Num(b, 8, 8) == Num(request, 8, 8)
              && NumI32(b, 4) == ErrorField(VerdictFor(k, s, request))
  {
    if |request| >= W.IN_HEADER_LEN {
      var h, body := W.ParseInHeader(request).value, request[W.IN_HEADER_LEN..];
      RunTells(k, s, W.OpcodeFrom(h.opcode), h.nodeid, body);
      VerdictBy(k, s, h.opcode, h.nodeid, body);
      EncodeTells(h.unique, D.Run(k, s, W.OpcodeFrom(h.opcode), h.nodeid, body).1, VerdictFor(k, s, request));
    }
  }

  lemma {:induction false} EncodeTells(unique: u64, o: D.Outcome, v: Verdict)
    requires Tells(o, v)
    ensures match D.Encode(unique, o)
            case NoReply => v == Unanswered
            case Bytes(b) =>
              && v != Unanswered && |b| >= W.OUT_HEADER_LEN
              && Num(b, 8, 8) == unique && NumI32(b, 4) == ErrorField(v)
  {
    if o.Answer? {
      ReplyFields(unique, 0, o.body);
    } else if o.Fail? {
      ReplyFields(unique, -W.ToLinuxErrno(o.errno), []);
    }
  }

  // ---- What a success carries ----

  lemma {:induction false} EntryNames(id: u64, attr: seq<byte>)
    ensures |D.EntryOut(id, attr)| >= 8 && Num(D.EntryOut(id, attr), 0, 8) == id
  {
    PowFacts();
    FromLeOfLe(id, 8);
    assert D.EntryOut(id, attr)[0..8] == Le(id, 8);
  }

  lemma {:induction false} OpenNames(h: u64, pre: seq<byte>)
    ensures var b := pre + D.OpenOut(h); |b| == |pre| + 16 && Num(b, |pre|, 8) == h
  {
    PowFacts();
    FromLeOfLe(h, 8);
    var b := pre + D.OpenOut(h);
    assert b[|pre|..|pre| + 8] == D.OpenOut(h)[0..8] == Le(h, 8);
  }

  lemma {:induction false} WriteTells(n: u32)
    ensures |D.WriteOut(n)| == 8 && Num(D.WriteOut(n), 0, 4) == n
  {
    PowFacts();
    FromLeOfLe(n, 4);
    assert D.WriteOut(n)[0..4] == Le(n, 4);
  }

  /** The page of a directory's entries from `at` on: of the handle's snapshot, or of a new listing. */
  function PageFor(k: F.Kernel, s: D.State, fh: nat, at: nat, size: nat): (r: F.FsResult<seq<byte>>) {
    if at != 0 && fh in s.cache then Ok(P.Page(P.Dirent, P.Listed(s.cache[fh]), at, size))
    else
      match F.ListDir(k, s.fs, fh)
      case Err(e) => Err(e)
      case Ok(l) => Ok(P.Page(P.Dirent, P.Listed(l), at, size))
  }

  /** What a successful reply has to carry; `Impossible` if there can be none. */
  datatype Content =
    | Node(node: F.FsResult<nat>)
    | NodeAndHandle(id: nat, handle: nat)
    | Opening(fh: F.FsResult<nat>)
    | Data(data: F.FsResult<seq<byte>>)
    | Count(count: F.FsResult<nat>)
    | Attributes
    | Limits(ahead: nat)
    | Impossible

  /** What follows the node id of an entry: generation, how long it may be cached, and the attributes. */
  ghost predicate EntryRest(k: F.Kernel, answer: seq<byte>) {
    && |answer| >= 40 + |k.attr| && answer[40..40 + |k.attr|] == k.attr
    && Num(answer, 8, 8) == Num(answer, 16, 8) == Num(answer, 24, 8) == 1 && Num(answer, 32, 8) == 0
  }

  /** A reply to INIT: version 7.31, the client's read-ahead, and the limits of this server. */
  ghost predicate IsInit(ahead: nat, answer: seq<byte>) {
    && |answer| == 64
    && Num(answer, 0, 4) == 7 && Num(answer, 4, 4) == 31 && Num(answer, 8, 4) == ahead
    && Num(answer, 12, 4) == 0x41_0001 && Num(answer, 16, 2) == 0xffff && Num(answer, 18, 2) == 49149
    && Num(answer, 20, 4) == 0x10_0000 && Num(answer, 24, 4) == 1 && Num(answer, 28, 2) == 256
  }

  function ContentOf(k: F.Kernel, s: D.State, op: W.Opcode, nodeid: nat, body: seq<byte>): (c: Content) {
    match op
    case Lookup => Node(F.Lookup(k, s.fs, nodeid, D.TrimNul(body)).1)
    case Mkdir =>
      (match D.ParseName(body, 8)
       case None => Impossible
       case Some(n) => Node(F.MakeNode(k, s.fs, F.Mkdirat, nodeid, n).1))
    case Symlink =>
      (match D.ParseNames(body, 0)
       case None => Impossible
       case Some((n, _)) => Node(F.MakeNode(k, s.fs, F.Symlinkat, nodeid, n).1))
    case Create =>
      (match D.ParseName(body, 16)
       case None => Impossible
       case Some(n) =>
         var r := F.Create(k, s.fs, nodeid, n).1;
         if r.Ok? then NodeAndHandle(r.value.0, r.value.1) else Impossible)
    case Link =>
      (match D.ParseName(body, 8)
       case None => Impossible
       case Some(n) =>
         if F.Link(k, s.fs, Num(body, 0, 8), nodeid, n).1.Ok? then Node(Ok(Num(body, 0, 8))) else Impossible)
    case _ => ContentOfRest(k, s, op, nodeid, body)
  }

  function ContentOfRest(k: F.Kernel, s: D.State, op: W.Opcode, nodeid: nat, body: seq<byte>): (c: Content) {
    match op
    case Open => Opening(F.OpenNode(k, s.fs, false, nodeid).1)
    case Opendir => Opening(F.OpenNode(k, s.fs, true, nodeid).1)
    case Read =>
      if |body| < 20 then Impossible
      else Data(F.ReadFile(k, s.fs, Num(body, 0, 8), Num(body, 8, 8), Num(body, 16, 4)))
    case Readdir =>
      if |body| < 20 then Impossible else Data(PageFor(k, s, Num(body, 0, 8), Num(body, 8, 8), Num(body, 16, 4)))
    case Write =>
      if |body| < 40 then Impossible
      else Count(F.WriteFile(k, s.fs, Num(body, 0, 8), Num(body, 8, 8), body[40..Min(|body|, 40 + Num(body, 16, 4))]).1)
    case Init => if |body| < 12 then Impossible else Limits(Num(body, 8, 4))
    case Getattr => Attributes
    case Setattr => Attributes
    case Readlink => Data(Ok(k.blob))
    case Statfs => Data(Ok(k.blob))
    case _ => Data(Ok([]))
  }

  ghost predicate Shows(k: F.Kernel, answer: seq<byte>, c: Content) {
    match c
    case Node(r) => Names(answer, r) && EntryRest(k, answer)
    case NodeAndHandle(id, h) => Names(answer, Ok(id)) && EntryRest(k, answer) && OpensAt(answer, |answer| - 16, h)
    case Opening(r) => r.Ok? && |answer| == 16 && OpensAt(answer, 0, r.value)
    case Data(r) => r == Ok(answer)
    case Count(r) => |answer| == 8 && r == Ok(Num(answer, 0, 4))
    case Attributes => IsAttr(k, answer)
    case Limits(ahead) => IsInit(ahead, answer)
    case Impossible => false
  }

  /** The answer carries what the operation returned. */
  ghost predicate Carries(k: F.Kernel, s: D.State, op: W.Opcode, nodeid: nat, body: seq<byte>, answer: seq<byte>) {
    Shows(k, answer, ContentOf(k, s, op, nodeid, body))
  }

  /** The attributes, and that they may be cached for a second. */
  ghost predicate IsAttr(k: F.Kernel, answer: seq<byte>) {
    |answer| == 16 + |k.attr| && answer[16..] == k.attr && Num(answer, 0, 8) == 1 && Num(answer, 8, 8) == 0
  }

  /** A handle and the flag that keeps the cache. */
  ghost predicate OpensAt(answer: seq<byte>, at: int, h: nat) {
    HasHandle(answer, at, h) && at + 16 <= |answer| && Num(answer, at + 8, 4) == 2
  }

  ghost predicate Names(answer: seq<byte>, r: F.FsResult<nat>) {
    r.Ok? && |answer| >= 8 && (r.value < 0x1_0000_0000_0000_0000 ==> Num(answer, 0, 8) == r.value)
  }

  ghost predicate HasHandle(answer: seq<byte>, at: int, h: nat) {
    0 <= at && at + 8 <= |answer| && (h < 0x1_0000_0000_0000_0000 ==> Num(answer, at, 8) == h)
  }

  lemma {:induction false} EntryRestHolds(k: F.Kernel, id: nat, post: seq<byte>)
    ensures EntryRest(k, D.EntryOut(id, k.attr) + post)
  {
    PowFacts();
    var n, one, z := Le(id, 8), Le(1, 8), Le(0, 4);
    var b := D.EntryOut(id, k.attr) + post;
    assert b == n + one + one + one + z + z + k.attr + post;
    FromLeOfLe(1, 8);
    assert b[8..16] == one && b[16..24] == one && b[24..32] == one;
    assert b[32..40] == z + z && b[40..40 + |k.attr|] == k.attr;
    FromLeOfLe(0, 8);
    assert z + z == Le(0, 8) by {
      LeZero(4);
      LeZero(8);
    }
  }

  lemma {:induction false} LeZero(k: nat)
    ensures Le(0, k) == seq(k, i => 0)
  {
    if k > 0 {
      LeZero(k - 1);
      LeUnroll(0, k);
    }
  }

  lemma {:induction false} EntryCarries(k: F.Kernel, r: F.FsResult<nat>)
    requires r.Ok?
    ensures D.Entry(k, r).Answer? && Names(D.Entry(k, r).body, r) && EntryRest(k, D.Entry(k, r).body)
  {
    if r.value < 0x1_0000_0000_0000_0000 {
      EntryNames(r.value, k.attr);
    }
    EntryRestHolds(k, r.value, []);
    assert D.EntryOut(r.value, k.attr) + [] == D.EntryOut(r.value, k.attr);
  }

  lemma {:induction false} OpenOutAt(h: nat, pre: seq<byte>)
    ensures var b := pre + D.OpenOut(h); |b| == |pre| + 16 && OpensAt(b, |pre|, h)
  {
    PowFacts();
    FromLeOfLe(2, 4);
    var b := pre + D.OpenOut(h);
    assert b[|pre| + 8..|pre| + 12] == D.OpenOut(h)[8..12] == Le(2, 4);
    if h < 0x1_0000_0000_0000_0000 {
      OpenNames(h, pre);
    }
  }

  lemma {:induction false} OpenCarries(r: F.FsResult<nat>)
    requires r.Ok?
    ensures D.Opened(r).Answer? && |D.Opened(r).body| == 16 && OpensAt(D.Opened(r).body, 0, r.value)
  {
    OpenOutAt(r.value, []);
    assert [] + D.OpenOut(r.value) == D.OpenOut(r.value);
  }

  lemma {:induction false} CreateCarries(k: F.Kernel, id: nat, h: nat)
    ensures var b := D.EntryOut(id, k.attr) + D.OpenOut(h);
            Names(b, Ok(id)) && EntryRest(k, b) && OpensAt(b, |b| - 16, h)
  {
    var b := D.EntryOut(id, k.attr) + D.OpenOut(h);
    if id < 0x1_0000_0000_0000_0000 {
      EntryNames(id, k.attr);
      assert b[0..8] == D.EntryOut(id, k.attr)[0..8];
    }
    EntryRestHolds(k, id, D.OpenOut(h));
    OpenOutAt(h, D.EntryOut(id, k.attr));
  }

  lemma {:induction false} RunCarries(k: F.Kernel, s: D.State, op: W.Opcode, nodeid: nat, body: seq<byte>)
    requires D.Run(k, s, op, nodeid, body).1.Answer?
    ensures Carries(k, s, op, nodeid, body, D.Run(k, s, op, nodeid, body).1.body)
  {
    if op == W.Lookup || op == W.Mkdir || op == W.Symlink || op == W.Create || op == W.Link {
      NameCarries(k, s, op, nodeid, body);
    } else if OnNames(op) {
      MoveCarries(k, s, op, nodeid, body);
    } else {
      OtherCarries(k, s, op, nodeid, body);
    }
  }

  lemma {:induction false} OtherCarries(k: F.Kernel, s: D.State, op: W.Opcode, nodeid: nat, body: seq<byte>)
    requires !OnNames(op) && D.Run(k, s, op, nodeid, body).1.Answer?
    ensures Carries(k, s, op, nodeid, body, D.Run(k, s, op, nodeid, body).1.body)
  {
    PastNames(k, s, op, nodeid, body);
    PastNamesContent(k, s, op, nodeid, body);
    if OnHandles(op) {
      FileCarries(k, s, op, nodeid, body);
    } else {
      PlainCarries(k, s, op, nodeid, body);
    }
  }

  lemma {:induction false} PastNamesContent(k: F.Kernel, s: D.State, op: W.Opcode, nodeid: nat, body: seq<byte>)
    requires !OnNames(op)
    ensures ContentOf(k, s, op, nodeid, body) == ContentOfRest(k, s, op, nodeid, body)
  {
  }

  lemma {:induction false} NameCarries(k: F.Kernel, s: D.State, op: W.Opcode, nodeid: nat, body: seq<byte>)
    requires op == W.Lookup || op == W.Mkdir || op == W.Symlink || op == W.Create || op == W.Link
    requires D.Run(k, s, op, nodeid, body).1.Answer?
    ensures Carries(k, s, op, nodeid, body, D.Run(k, s, op, nodeid, body).1.body)
  {
    if op == W.Lookup {
      EntryCarries(k, F.Lookup(k, s.fs, nodeid, D.TrimNul(body)).1);
    } else if op == W.Mkdir {
      EntryCarries(k, F.MakeNode(k, s.fs, F.Mkdirat, nodeid, D.ParseName(body, 8).value).1);
    } else if op == W.Symlink {
      EntryCarries(k, F.MakeNode(k, s.fs, F.Symlinkat, nodeid, D.ParseNames(body, 0).value.0).1);
    } else {
      NewCarries(k, s, op, nodeid, body);
    }
  }

  lemma {:induction false} NewCarries(k: F.Kernel, s: D.State, op: W.Opcode, nodeid: nat, body: seq<byte>)
    requires (op == W.Create || op == W.Link) && D.Run(k, s, op, nodeid, body).1.Answer?
    ensures Carries(k, s, op, nodeid, body, D.Run(k, s, op, nodeid, body).1.body)
  {
    if op == W.Create {
      var r := F.Create(k, s.fs, nodeid, D.ParseName(body, 16).value).1;
      CreateCarries(k, r.value.0, r.value.1);
    } else {
      PowFacts();
      EntryCarries(k, Ok(Num(body, 0, 8)));
    }
  }

  lemma {:induction false} MoveCarries(k: F.Kernel, s: D.State, op: W.Opcode, nodeid: nat, body: seq<byte>)
    requires op == W.Unlink || op == W.Rmdir || op == W.Rename || op == W.Rename2
    requires D.Run(k, s, op, nodeid, body).1.Answer?
    ensures D.Run(k, s, op, nodeid, body).1.body == []
  {
  }

  lemma {:induction false} FileCarries(k: F.Kernel, s: D.State, op: W.Opcode, nodeid: nat, body: seq<byte>)
    requires OnHandles(op) && D.RunOpen(k, s, op, nodeid, body).1.Answer?
    ensures Shows(k, D.RunOpen(k, s, op, nodeid, body).1.body, ContentOfRest(k, s, op, nodeid, body))
  {
    if op == W.Open || op == W.Opendir {
      OpenCarries(F.OpenNode(k, s.fs, op == W.Opendir, nodeid).1);
    } else if op == W.Write {
      WriteCarries(k, s, op, nodeid, body);
    } else if op == W.Readdir {
      PageCarries(k, s, op, nodeid, body);
    }
  }

  lemma {:induction false} PageCarries(k: F.Kernel, s: D.State, op: W.Opcode, nodeid: nat, body: seq<byte>)
    requires op == W.Readdir && D.RunOpen(k, s, op, nodeid, body).1.Answer?
    ensures Shows(k, D.RunOpen(k, s, op, nodeid, body).1.body, ContentOfRest(k, s, op, nodeid, body))
  {
  }

  lemma {:induction false} WriteCarries(k: F.Kernel, s: D.State, op: W.Opcode, nodeid: nat, body: seq<byte>)
    requires op == W.Write && D.RunOpen(k, s, op, nodeid, body).1.Answer?
    ensures Shows(k, D.RunOpen(k, s, op, nodeid, body).1.body, ContentOfRest(k, s, op, nodeid, body))
  {
    var data := body[40..Min(|body|, 40 + Num(body, 16, 4))];
    assert body[40..][..Min(Num(body, 16, 4), |body[40..]|)] == data;
    WriteTells(F.WriteFile(k, s.fs, Num(body, 0, 8), Num(body, 8, 8), data).1.value);
  }

  lemma {:induction false} PlainCarries(k: F.Kernel, s: D.State, op: W.Opcode, nodeid: nat, body: seq<byte>)
    requires !OnNames(op) && !OnHandles(op) && D.RunOpen(k, s, op, nodeid, body).1.Answer?
    ensures Shows(k, D.RunOpen(k, s, op, nodeid, body).1.body, ContentOfRest(k, s, op, nodeid, body))
  {
    PastHandles(k, s, op, nodeid, body);
    if op == W.Init || op == W.Getattr || op == W.Setattr {
      FixedCarries(k, s, op, nodeid, body);
    } else {
      EmptyCarries(k, s, op, nodeid, body);
    }
  }

  lemma {:induction false} FixedCarries(k: F.Kernel, s: D.State, op: W.Opcode, nodeid: nat, body: seq<byte>)
    requires (op == W.Init || op == W.Getattr || op == W.Setattr) && D.RunRest(k, s, op, nodeid, body).1.Answer?
    ensures Shows(k, D.RunRest(k, s, op, nodeid, body).1.body, ContentOfRest(k, s, op, nodeid, body))
  {
    AttrFields(k);
    PowFacts();
    if |body| >= 12 {
      InitFields(Num(body, 8, 4));
    }
  }

  lemma {:induction false} EmptyCarries(k: F.Kernel, s: D.State, op: W.Opcode, nodeid: nat, body: seq<byte>)
    requires !OnNames(op) && !OnHandles(op) && op != W.Init && op != W.Getattr && op != W.Setattr
    requires D.RunRest(k, s, op, nodeid, body).1.Answer?
    ensures ContentOfRest(k, s, op, nodeid, body) == Data(Ok(D.RunRest(k, s, op, nodeid, body).1.body))
  {
  }

  lemma {:induction false} AttrFields(k: F.Kernel)
    ensures IsAttr(k, D.AttrOut(k.attr))
  {
    PowFacts();
    var one, z := Le(1, 8), Le(0, 4);
    var b := one + z + z + k.attr;
    assert b == D.AttrOut(k.attr);
    FromLeOfLe(1, 8);
    FromLeOfLe(0, 8);
    assert b[0..8] == one && b[8..16] == z + z;
    assert z + z == Le(0, 8) by {
      LeZero(4);
      LeZero(8);
    }
  }

  lemma {:induction false} InitFields(ahead: u32)
    ensures IsInit(ahead, D.InitOut(ahead))
  {
    PowFacts();
    InitSlices(Le(7, 4), Le(31, 4), Le(ahead, 4), Le(0x41_0001, 4), Le(0xffff, 2), Le(49149, 2),
               Le(W.MAX_WRITE, 4), Le(1, 4), Le(256, 2), Le(0, 34));
    FromLeOfLe(7, 4);
    FromLeOfLe(31, 4);
    FromLeOfLe(ahead, 4);
    FromLeOfLe(0x41_0001, 4);
    FromLeOfLe(0xffff, 2);
    FromLeOfLe(49149, 2);
    FromLeOfLe(W.MAX_WRITE, 4);
    FromLeOfLe(1, 4);
    FromLeOfLe(256, 2);
  }

  lemma {:induction false} InitSlices(a: seq<byte>, b: seq<byte>, c: seq<byte>, d: seq<byte>, e: seq<byte>,
                                      f: seq<byte>, g: seq<byte>, h: seq<byte>, i: seq<byte>, z: seq<byte>)
    requires |a| == |b| == |c| == |d| == |g| == |h| == 4 && |e| == |f| == |i| == 2 && |z| == 34
    ensures var s := a + b + c + d + e + f + g + h + i + z;
            && |s| == 64 && s[0..4] == a && s[4..8] == b && s[8..12] == c && s[12..16] == d && s[16..18] == e
            && s[18..20] == f && s[20..24] == g && s[24..28] == h && s[28..30] == i
  {
  }

  lemma {:induction false} NoContent(k: F.Kernel, s: D.State, op: W.Opcode, nodeid: nat, body: seq<byte>)
    requires op in {W.Setxattr, W.Getxattr, W.Listxattr, W.Removexattr} || op.Unknown?
    ensures ContentOf(k, s, op, nodeid, body) == Data(Ok([]))
  {
  }

  lemma {:induction false} CarriesBy(k: F.Kernel, s: D.State, code: nat, nodeid: nat, body: seq<byte>,
                                     answer: seq<byte>)
    requires Carries(k, s, W.OpcodeFrom(code), nodeid, body, answer)
    ensures Carries(k, s, Meaning(code), nodeid, body, answer)
  {
    var op, op' := W.OpcodeFrom(code), Meaning(code);
    MeaningIs(code);
    if Unhandled(code) {
      NoContent(k, s, op, nodeid, body);
      NoContent(k, s, op', nodeid, body);
    } else {
      assert op == op';
    }
  }

  /**
   A reply with error 0 carries what the operation returned: the node id of the entry, the handle of
   the open file, the bytes read, the count written, the page of directory entries.
   */
  lemma {:induction false} SuccessCarriesResult(k: F.Kernel, s: D.State, request: seq<byte>, b: seq<byte>)
    requires |request| >= W.IN_HEADER_LEN && D.Handle(k, s, request).1 == D.Bytes(b)
    ensures |b| >= W.OUT_HEADER_LEN
    ensures NumI32(b, 4) == 0 ==>
              Carries(k, s, Meaning(Num(request, 4, 4)), Num(request, 16, 8),
                      request[W.IN_HEADER_LEN..], b[W.OUT_HEADER_LEN..])
  {
    var h, body := W.ParseInHeader(request).value, request[W.IN_HEADER_LEN..];
    var o := D.Run(k, s, W.OpcodeFrom(h.opcode), h.nodeid, body).1;
    if o.Answer? {
      ReplyFields(h.unique, 0, o.body);
      RunCarries(k, s, W.OpcodeFrom(h.opcode), h.nodeid, body);
      CarriesBy(k, s, h.opcode, h.nodeid, body, o.body);
    } else {
      ReplyFields(h.unique, -W.ToLinuxErrno(o.errno), []);
    }
  }
}
