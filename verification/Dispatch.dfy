/**
 Request dispatch as a function (fuse/dispatch.rs): decode one gathered request, run the matching
 file-system operation, and say what goes back.
 */
module Dispatch {
  import opened Basics
  import opened Bytes
  import W = Wire
  import F = Fs
  import R = Readdir

  datatype State = State(fs: F.State, cache: R.Cache)

  /** What an operation came to, before it is put on the wire. */
  datatype Outcome = Answer(body: seq<byte>) | Fail(errno: int) | Silent

  datatype Reply = Bytes(bytes: seq<byte>) | NoReply

  function Encode(unique: u64, o: Outcome): (r: Reply) {
    match o
    case Answer(body) => Bytes(W.Reply(unique, 0, body))
    case Fail(e) => Bytes(W.ErrorFor(unique, e))
    case Silent => NoReply
  }

  // ---- Payload parsing ----

  /** The NUL-terminated string at `off`, and the offset just past its NUL. */
  function CstrAt(b: seq<byte>, off: nat): (r: Option<(seq<byte>, nat)>)
    ensures r.Some? ==> off < r.value.1 <= |b|
  {
    if off > |b| then None
    else match FindNul(b, off)
      case None => None
      case Some(nul) => Some((b[off..nul], nul + 1))
  }

  /** One name after `fixed` bytes of other fields. */
  function ParseName(b: seq<byte>, fixed: nat): (r: Option<seq<byte>>)
    ensures r.Some? ==> fixed < |b|
  {
    match CstrAt(b, fixed)
    case None => None
    case Some((name, _)) => Some(name)
  }

  /** Two names after `fixed` bytes of other fields. */
  function ParseNames(b: seq<byte>, fixed: nat): (r: Option<(seq<byte>, seq<byte>)>)
    ensures r.Some? ==> fixed < |b|
  {
    match CstrAt(b, fixed)
    case None => None
    case Some((first, next)) =>
      match CstrAt(b, next)
      case None => None
      case Some((second, _)) => Some((first, second))
  }

  function TrimNul(b: seq<byte>): (name: seq<byte>) {
    match FindNul(b, 0)
    case None => b
    case Some(i) => b[..i]
  }

  // ---- Reply bodies ----

  function EntryOut(nodeid: nat, attr: seq<byte>): (b: seq<byte>) {
    Le(nodeid, 8) + Le(1, 8) + Le(1, 8) + Le(1, 8) + Le(0, 4) + Le(0, 4) + attr
  }

  function AttrOut(attr: seq<byte>): (b: seq<byte>) {
    Le(1, 8) + Le(0, 4) + Le(0, 4) + attr
  }

  function OpenOut(fh: nat): (b: seq<byte>) {
    Le(fh, 8) + Le(2, 4) + Le(0, 4)
  }

  function WriteOut(n: nat): (b: seq<byte>) {
    Le(n, 4) + Le(0, 4)
  }

  function InitOut(maxReadahead: nat): (b: seq<byte>) {
    Le(7, 4) + Le(31, 4) + Le(maxReadahead, 4) + Le(0x41_0001, 4) + Le(0xffff, 2) + Le(49149, 2)
    + Le(W.MAX_WRITE, 4) + Le(1, 4) + Le(256, 2) + Le(0, 34)
  }

  function Done(r: F.FsResult<()>): (o: Outcome) {
    match r
    case Err(e) => Fail(e)
    case Ok(_) => Answer([])
  }

  function Entry(k: F.Kernel, r: F.FsResult<nat>): (o: Outcome) {
    match r
    case Err(e) => Fail(e)
    case Ok(id) => Answer(EntryOut(id, k.attr))
  }

  function Opened(r: F.FsResult<nat>): (o: Outcome) {
    match r
    case Err(e) => Fail(e)
    case Ok(h) => Answer(OpenOut(h))
  }

  // ---- Operations that name files ----

  function LookupOp(k: F.Kernel, s: F.State, nodeid: nat, body: seq<byte>): (r: (F.State, Outcome))
  {
    var (s', r) := F.Lookup(k, s, nodeid, TrimNul(body));
    (s', Entry(k, r))
  }

  function MkdirOp(k: F.Kernel, s: F.State, nodeid: nat, body: seq<byte>): (r: (F.State, Outcome))
  {
    match ParseName(body, 8)
    case None => (s, Fail(F.EINVAL))
    case Some(name) =>
      var (s', r) := F.MakeNode(k, s, F.Mkdirat, nodeid, name);
      (s', Entry(k, r))
  }

  /** Name first, then target. */
  function SymlinkOp(k: F.Kernel, s: F.State, nodeid: nat, body: seq<byte>): (r: (F.State, Outcome))
  {
    match ParseNames(body, 0)
    case None => (s, Fail(F.EINVAL))
    case Some((name, _)) =>
      var (s', r) := F.MakeNode(k, s, F.Symlinkat, nodeid, name);
      (s', Entry(k, r))
  }

  function CreateOp(k: F.Kernel, s: F.State, nodeid: nat, body: seq<byte>): (r: (F.State, Outcome))
  {
    match ParseName(body, 16)
    case None => (s, Fail(F.EINVAL))
    case Some(name) =>
      var (s', r) := F.Create(k, s, nodeid, name);
      (s', match r case Err(e) => Fail(e) case Ok((id, h)) => Answer(EntryOut(id, k.attr) + OpenOut(h)))
  }

  function LinkOp(k: F.Kernel, s: F.State, nodeid: nat, body: seq<byte>): (r: (F.State, Outcome)) {
    match ParseName(body, 8)
    case None => (s, Fail(F.EINVAL))
    case Some(name) =>
      var (s', r) := F.Link(k, s, Num(body, 0, 8), nodeid, name);
      (s', match r case Err(e) => Fail(e) case Ok(_) => Answer(EntryOut(Num(body, 0, 8), k.attr)))
  }

  function RemoveOp(k: F.Kernel, s: F.State, rmdir: bool, nodeid: nat, body: seq<byte>): (r: (F.State, Outcome)) {
    var (s', r) := F.Remove(k, s, rmdir, nodeid, TrimNul(body));
    (s', Done(r))
  }

  /** RENAME has 8 bytes before the names, RENAME2 has 16; the flags of the latter are ignored. */
  function RenameOp(k: F.Kernel, s: F.State, fixed: nat, nodeid: nat, body: seq<byte>): (r: (F.State, Outcome))
    requires fixed >= 8
  {
    match ParseNames(body, fixed)
    case None => (s, Fail(F.EINVAL))
    case Some((from, to)) =>
      var (s', r) := F.Rename(k, s, nodeid, from, Num(body, 0, 8), to);
      (s', Done(r))
  }

  // ---- Operations on open files and directories ----

  function OpenOp(k: F.Kernel, s: F.State, dir: bool, nodeid: nat, body: seq<byte>): (r: (F.State, Outcome)) {
    if |body| < 4 then (s, Fail(F.EINVAL))
    else
      var (s', r) := F.OpenNode(k, s, dir, nodeid);
      (s', Opened(r))
  }

  function ReadOp(k: F.Kernel, s: F.State, body: seq<byte>): (o: Outcome) {
    match W.ParseReadIn(body)
    case None => Fail(F.EINVAL)
    case Some(r) =>
      match F.ReadFile(k, s, r.fh, r.offset, r.size)
      case Err(e) => Fail(e)
      case Ok(data) => Answer(data)
  }

  function WriteOp(k: F.Kernel, s: F.State, body: seq<byte>): (r: (F.State, Outcome)) {
    match W.ParseWriteIn(body)
    case None => (s, Fail(F.EINVAL))
    case Some((w, data)) =>
      var (s', r) := F.WriteFile(k, s, w.fh, w.offset, data[..Min(w.size, |data|)]);
      (s', match r case Err(e) => Fail(e) case Ok(n) => Answer(WriteOut(n)))
  }

  function ReleaseOp(s: F.State, body: seq<byte>): (r: (F.State, Outcome)) {
    if |body| < 8 then (s, Fail(F.EINVAL))
    else
      var (s', r) := F.ReleaseHandle(s, Num(body, 0, 8));
      (s', Done(r))
  }

  function ReaddirOp(k: F.Kernel, s: State, body: seq<byte>): (r: (State, Outcome)) {
    match W.ParseReadIn(body)
    case None => (s, Fail(F.EINVAL))
    case Some(i) =>
      var listing := F.ListDir(k, s.fs, i.fh);
      (s.(cache := R.Snapshot(s.cache, i.fh, i.offset, listing)),
       match R.ReadBody(R.Dirent, s.cache, i.fh, i.offset, i.size, listing)
       case Err(e) => Fail(e)
       case Ok(b) => Answer(b))
  }

  /** The snapshot goes first, whether or not the handle turns out to be open. */
  function ReleasedirOp(s: State, body: seq<byte>): (r: (State, Outcome)) {
    var (fs', o) := ReleaseOp(s.fs, body);
    (State(fs', if |body| < 8 then s.cache else R.DropSnapshot(s.cache, Num(body, 0, 8))), o)
  }

  function FsyncOp(k: F.Kernel, s: F.State, body: seq<byte>): (o: Outcome) {
    if |body| < 8 then Fail(F.EINVAL)
    else match F.FileOf(s.handles, Num(body, 0, 8))
      case Err(e) => Fail(e)
      case Ok(_) => Checked(k, [])
  }

  /** Bit 3 of the mask asks for a size; mode, owner and times are the other bits that count. */
  function SetattrOp(k: F.Kernel, s: F.State, nodeid: nat, body: seq<byte>): (r: (F.State, Outcome)) {
    if |body| < 84 then (s, Fail(F.EINVAL))
    else
      var mask := Num(body, 0, 4);
      var size := if mask / 8 % 2 == 1 then Some(Num(body, 16, 8)) else None;
      var others := mask % 8 != 0 || mask / 16 % 4 != 0 || mask / 128 % 4 != 0;
      var (s', r) := F.Setattr(k, s, nodeid, size, others);
      (s', match r case Err(e) => Fail(e) case Ok(_) => Answer(AttrOut(k.attr)))
  }

  // ---- Reference drops, and operations that change nothing the model tracks ----

  function ForgetOp(s: F.State, nodeid: nat, body: seq<byte>): (r: (F.State, Outcome)) {
    if |body| < 8 then (s, Fail(F.EINVAL))
    else (F.DropRefs(s, nodeid, Num(body, 0, 8)), Silent)
  }

  function BatchForgetOp(s: F.State, body: seq<byte>): (r: (F.State, Outcome)) {
    match W.ParseBatchForget(body)
    case None => (s, Fail(F.EINVAL))
    case Some(batch) => (F.DropBatch(s, Pairs(batch)), Silent)
  }

  function Pairs(batch: seq<W.ForgetOne>): (p: seq<(nat, nat)>)
    ensures |p| == |batch|
    ensures forall i :: 0 <= i < |batch| ==> p[i] == (batch[i].nodeid, batch[i].nlookup)
  {
    seq(|batch|, i requires 0 <= i < |batch| => (batch[i].nodeid, batch[i].nlookup))
  }

  /** The kernel's own verdict. */
  function Checked(k: F.Kernel, body: seq<byte>): (o: Outcome) {
    match k.fault(F.Misc)
    case Some(e) => Fail(e)
    case None => Answer(body)
  }

  function OnInode(k: F.Kernel, known: bool, body: seq<byte>): (o: Outcome) {
    if !known then Fail(F.EBADF) else Checked(k, body)
  }

  /** Opcodes whose reply depends on the request, the kernel and whether the node is known. */
  function PlainOp(k: F.Kernel, known: bool, op: W.Opcode, body: seq<byte>): (o: Outcome) {
    match op
    case Init => if |body| < 12 then Fail(F.EINVAL) else Answer(InitOut(Num(body, 8, 4)))
    case Getattr => if |body| < 16 then Fail(F.EINVAL) else OnInode(k, known, AttrOut(k.attr))
    case Readlink => OnInode(k, known, k.blob)
    case Statfs => OnInode(k, known, k.blob)
    case Flush => if |body| < 8 then Fail(F.EINVAL) else Answer([])
    case Access => if |body| < 4 then Fail(F.EINVAL) else Answer([])
    case Destroy => Answer([])
    case Fsyncdir => Answer([])
    case _ => Fail(F.ENOSYS)
  }

  // ---- The whole of `Session::handle` ----

  function OnFs(s: State, r: (F.State, Outcome)): (r': (State, Outcome)) {
    (s.(fs := r.0), r.1)
  }

  /** The file-naming opcodes, then the others. */
  function Run(k: F.Kernel, s: State, op: W.Opcode, nodeid: nat, body: seq<byte>): (r: (State, Outcome)) {
    match op
    case Lookup => OnFs(s, LookupOp(k, s.fs, nodeid, body))
    case Mkdir => OnFs(s, MkdirOp(k, s.fs, nodeid, body))
    case Symlink => OnFs(s, SymlinkOp(k, s.fs, nodeid, body))
    case Create => OnFs(s, CreateOp(k, s.fs, nodeid, body))
    case Link => OnFs(s, LinkOp(k, s.fs, nodeid, body))
    case Unlink => OnFs(s, RemoveOp(k, s.fs, false, nodeid, body))
    case Rmdir => OnFs(s, RemoveOp(k, s.fs, true, nodeid, body))
    case Rename => OnFs(s, RenameOp(k, s.fs, 8, nodeid, body))
    case Rename2 => OnFs(s, RenameOp(k, s.fs, 16, nodeid, body))
    case _ => RunOpen(k, s, op, nodeid, body)
  }

  /** The opcodes on open files and directories, then the others. */
  function RunOpen(k: F.Kernel, s: State, op: W.Opcode, nodeid: nat, body: seq<byte>): (r: (State, Outcome)) {
    match op
    case Open => OnFs(s, OpenOp(k, s.fs, false, nodeid, body))
    case Opendir => OnFs(s, OpenOp(k, s.fs, true, nodeid, body))
    case Read => (s, ReadOp(k, s.fs, body))
    case Write => OnFs(s, WriteOp(k, s.fs, body))
    case Release => OnFs(s, ReleaseOp(s.fs, body))
    case Readdir => ReaddirOp(k, s, body)
    case Releasedir => ReleasedirOp(s, body)
    case Fsync => (s, FsyncOp(k, s.fs, body))
    case _ => RunRest(k, s, op, nodeid, body)
  }

  function RunRest(k: F.Kernel, s: State, op: W.Opcode, nodeid: nat, body: seq<byte>): (r: (State, Outcome)) {
    match op
    case Forget => OnFs(s, ForgetOp(s.fs, nodeid, body))
    case Setattr => OnFs(s, SetattrOp(k, s.fs, nodeid, body))
    case BatchForget => OnFs(s, BatchForgetOp(s.fs, body))
    case _ => (s, PlainOp(k, nodeid in s.fs.inodes.byId, op, body))
  }

  function Handle(k: F.Kernel, s: State, request: seq<byte>): (r: (State, Reply))
  {
    match W.ParseInHeader(request)
    case None => (s, NoReply)
    case Some(h) =>
      var (s', o) := Run(k, s, W.OpcodeFrom(h.opcode), h.nodeid, W.Body(request));
      (s', Encode(h.unique, o))
  }

  /** What the operation behind a request came to. */
  function OutcomeOf(k: F.Kernel, s: State, request: seq<byte>): (o: Outcome)
    requires |request| >= W.IN_HEADER_LEN
  {
    var h := W.ParseInHeader(request).value;
    Run(k, s, W.OpcodeFrom(h.opcode), h.nodeid, W.Body(request)).1
  }

  /**
   Every byte reply below 4 GiB carries its real length and the request's own `unique`, and is
   either a success with exactly the operation's answer or a negative Linux errno with no body.
   */
  lemma {:induction false} RepliesAreWellFormed(k: F.Kernel, s: State, request: seq<byte>)
    ensures match Handle(k, s, request).1
            case NoReply => true
            case Bytes(b) =>
              && |request| >= W.IN_HEADER_LEN
              && (|b| < 0x1_0000_0000 ==>
                    && W.WellFormed(b, Num(request, 8, 8))
                    && (NumI32(b, 4) == 0 <==> OutcomeOf(k, s, request).Answer?)
                    && (NumI32(b, 4) == 0 ==> b[W.OUT_HEADER_LEN..] == OutcomeOf(k, s, request).body))
  {
    if |request| >= W.IN_HEADER_LEN {
      EncodeIsWellFormed(W.ParseInHeader(request).value.unique, OutcomeOf(k, s, request));
    }
  }

  lemma {:induction false} EncodeIsWellFormed(unique: u64, o: Outcome)
    ensures match Encode(unique, o)
            case NoReply => o == Silent
            case Bytes(b) =>
              |b| < 0x1_0000_0000 ==>
                && W.WellFormed(b, unique)
                && (NumI32(b, 4) == 0 <==> o.Answer?)
                && (NumI32(b, 4) == 0 ==> b[W.OUT_HEADER_LEN..] == o.body)
  {
    match o
    case Silent =>
    case Fail(e) => W.ReplyIsWellFormed(unique, -W.ToLinuxErrno(e), []);
    case Answer(body) =>
      if |W.Reply(unique, 0, body)| < 0x1_0000_0000 {
        W.ReplyIsWellFormed(unique, 0, body);
      }
  }
}
