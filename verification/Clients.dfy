/**
 What a client can count on over a whole session (fuse/dispatch.rs, inode.rs, handle.rs): any sequence
 of requests, with whatever the host kernel answers, seen only through request and reply bytes. Node
 ids stay usable exactly while the client holds references to them, and handles are never reused.
 */
module Clients {
  import opened Basics
  import opened Bytes
  import I = Inodes
  import W = Wire
  import F = Fs
  import D = Dispatch
  import R = Replies

  const TWO_64 := 0x1_0000_0000_0000_0000

  /** A request, and how the host kernel behaves while it is served. */
  datatype Exchange = Exchange(k: F.Kernel, request: seq<byte>)

  /** How requests are served: the state after an exchange, and the reply. */
  type Service = (D.State, Exchange) -> (D.State, D.Reply)

  /** The session of this file system. */
  function Session(): (sv: Service) {
    (s: D.State, x: Exchange) => D.Handle(x.k, s, x.request)
  }

  function After(s: D.State, x: Exchange): (s': D.State) {
    D.Handle(x.k, s, x.request).0
  }

  function ReplyTo(s: D.State, x: Exchange): (r: D.Reply) {
    D.Handle(x.k, s, x.request).1
  }

  function Final(sv: Service, s: D.State, xs: seq<Exchange>): (s': D.State)
    decreases |xs|
  {
    if xs == [] then s else Final(sv, sv(s, xs[0]).0, xs[1..])
  }

  // ---- References, read off the bytes ----

  /** LOOKUP, SYMLINK, MKDIR and CREATE. */
  predicate GrantsEntry(opcode: nat) {
    opcode == 1 || opcode == 6 || opcode == 9 || opcode == 35
  }

  /** The node id a reply grants a reference to: the first field of a successful entry reply. */
  function Granted(request: seq<byte>, reply: D.Reply): (id: Option<nat>) {
    if |request| >= W.IN_HEADER_LEN && GrantsEntry(Num(request, 4, 4)) && reply.Bytes? && |reply.bytes| >= 24
       && NumI32(reply.bytes, 4) == 0
    then Some(Num(reply.bytes, 16, 8)) else None
  }

  /** The references a request gives back: one pair for FORGET, any number for BATCH_FORGET. */
  function Forgotten(request: seq<byte>): (batch: seq<(nat, nat)>) {
    if |request| < W.IN_HEADER_LEN then []
    else if Num(request, 4, 4) == 2 && |request| >= 48 then [(Num(request, 16, 8), Num(request, 40, 8))]
    else if Num(request, 4, 4) == 42 then
      match W.ParseBatchForget(request[W.IN_HEADER_LEN..])
      case None => []
      case Some(batch) => D.Pairs(batch)
    else []
  }

  /** What one exchange adds to the references the client holds for `id`. */
  function Net(request: seq<byte>, reply: D.Reply, id: nat): (n: int) {
    (if Granted(request, reply) == Some(id) then 1 else 0) - I.Total(Forgotten(request), id)
  }

  /** What an exchange adds to a number of references. */
  type Tally = (seq<byte>, D.Reply) -> int

  function Grants(id: nat): (n: Tally) {
    (request: seq<byte>, reply: D.Reply) => Net(request, reply, id)
  }

  /** All that a session adds. */
  function Sum(sv: Service, n: Tally, s: D.State, xs: seq<Exchange>): (total: int)
    decreases |xs|
  {
    if xs == [] then 0 else n(xs[0].request, sv(s, xs[0]).1) + Sum(sv, n, sv(s, xs[0]).0, xs[1..])
  }

  /** References counted from `c` on along a session: a forget of more than there are leaves none. */
  function Stored(sv: Service, n: Tally, s: D.State, xs: seq<Exchange>, c: nat): (c': nat)
    decreases |xs|
  {
    if xs == [] then c else Stored(sv, n, sv(s, xs[0]).0, xs[1..], Max(0, c + n(xs[0].request, sv(s, xs[0]).1)))
  }

  /** Starting from `held` references, the client never gives back more than it holds. */
  ghost predicate Honest(sv: Service, n: Tally, s: D.State, xs: seq<Exchange>, held: int)
    decreases |xs|
  {
    xs == [] ||
    (var now := held + n(xs[0].request, sv(s, xs[0]).1);
     now >= 0 && Honest(sv, n, sv(s, xs[0]).0, xs[1..], now))
  }

  // ---- What the file system does to the counts ----

  function Counts(s: F.State, id: nat): (n: nat) {
    I.Count(s.inodes, id)
  }

  /** Tracked, or not issued yet. */
  predicate Alive(s: F.State, id: nat) {
    id in s.inodes.byId || id >= s.inodes.nextId
  }

  lemma {:induction false} LookupCounts(k: F.Kernel, s: F.State, p: nat, n: seq<byte>, id: nat)
    ensures var (s', r) := F.Lookup(k, s, p, n);
            && Counts(s', id) == Counts(s, id) + (if r == Ok(id) then 1 else 0)
            && s.inodes.nextId <= s'.inodes.nextId && (r.Ok? ==> r.value < s'.inodes.nextId && Alive(s, r.value))
            && s'.handles == s.handles
  {
    match F.DirOf(s, p, n)
    case Err(_) =>
    case Ok(dir) =>
      match F.OpenChild(k, s.host, dir, n)
      case Err(_) =>
      case Ok(key) =>
        I.RegisterKeepsWf(s.inodes, p, n, key, k.kind);
        var (t, i) := I.Register(s.inodes, p, n, key, k.kind);
        assert I.IdOk(s.inodes, i) && I.IdOk(t, i) && I.KeyOk(s.inodes, key);
  }

  lemma {:induction false} MakeCounts(k: F.Kernel, s: F.State, call: F.Sys, p: nat, n: seq<byte>, id: nat)
    ensures var (s', r) := F.MakeNode(k, s, call, p, n);
            && Counts(s', id) == Counts(s, id) + (if r == Ok(id) then 1 else 0)
            && s.inodes.nextId <= s'.inodes.nextId && (r.Ok? ==> r.value < s'.inodes.nextId && Alive(s, r.value))
            && s'.handles == s.handles
  {
    match F.DirOf(s, p, n)
    case Err(_) =>
    case Ok(dir) =>
      match F.AddEntry(k, s, call, dir, n)
      case Err(_) =>
      case Ok(host) => LookupCounts(k, s.(host := host), p, n, id);
  }

  lemma {:induction false} CreateCounts(k: F.Kernel, s: F.State, p: nat, n: seq<byte>, id: nat)
    ensures var (s', r) := F.Create(k, s, p, n);
            && Counts(s', id) == Counts(s, id) + (if r.Ok? && r.value.0 == id then 1 else 0)
            && s.inodes.nextId <= s'.inodes.nextId && (r.Ok? ==> r.value.0 < s'.inodes.nextId && Alive(s, r.value.0))
            && (if r.Ok? then r.value.1 == s.handles.nextId
               && s'.handles.nextId == r.value.1 + 1 else s'.handles == s.handles)
  {
    MakeCounts(k, s, F.OpenExcl, p, n, id);
  }

  lemma {:induction false} RenameCounts(k: F.Kernel, s: F.State, p: nat, n: seq<byte>, p': nat, n': seq<byte>, id: nat)
    ensures var s' := F.Rename(k, s, p, n, p', n').0;
            Counts(s', id) == Counts(s, id) && s'.inodes.nextId == s.inodes.nextId && s'.handles == s.handles
  {
  }

  lemma {:induction false} DropCounts(s: F.State, batch: seq<(nat, nat)>, id: nat)
    requires id != I.ROOT_ID
    ensures Counts(F.DropBatch(s, batch), id) == Max(0, Counts(s, id) - I.Total(batch, id))
    ensures F.DropBatch(s, batch).inodes.nextId == s.inodes.nextId && F.DropBatch(s, batch).handles == s.handles
  {
    I.ForgetAllIsTotals(s.inodes, batch);
    assert I.IdOk(s.inodes, id);
  }

  lemma {:induction false} DropOne(s: F.State, i: nat, c: nat)
    ensures F.DropRefs(s, i, c) == F.DropBatch(s, [(i, c)])
  {
    var t := I.Forget(s.inodes, i, c);
    assert [(i, c)][1..] == [];
    assert I.ForgetAll(s.inodes, [(i, c)]) == I.ForgetAll(t, []) == t;
  }

  // ---- What one request does ----

  /** The result behind an entry reply, if the request parses. */
  function EntryResult(k: F.Kernel, s: D.State, op: W.Opcode, nodeid: nat,
                       body: seq<byte>): (r: Option<F.FsResult<nat>>) {
    match op
    case Lookup => Some(F.Lookup(k, s.fs, nodeid, D.TrimNul(body)).1)
    case Mkdir =>
      (match D.ParseName(body, 8)
       case None => None
       case Some(n) => Some(F.MakeNode(k, s.fs, F.Mkdirat, nodeid, n).1))
    case Symlink =>
      (match D.ParseNames(body, 0)
       case None => None
       case Some((n, _)) => Some(F.MakeNode(k, s.fs, F.Symlinkat, nodeid, n).1))
    case Create =>
      (match D.ParseName(body, 16)
       case None => None
       case Some(n) =>
         match F.Create(k, s.fs, nodeid, n).1
         case Err(e) => Some(Err(e))
         case Ok((id, _)) => Some(Ok(id)))
    case _ => None
  }

  predicate MakesEntry(op: W.Opcode) {
    op == W.Lookup || op == W.Mkdir || op == W.Symlink || op == W.Create
  }

  lemma {:induction false} EntryCounts(k: F.Kernel, s: D.State, op: W.Opcode, nodeid: nat, body: seq<byte>, id: nat)
    requires MakesEntry(op)
    ensures var s', r := D.Run(k, s, op, nodeid, body).0, EntryResult(k, s, op, nodeid, body);
            && Counts(s'.fs, id) == Counts(s.fs, id) + (if r == Some(Ok(id)) then 1 else 0)
            && s.fs.inodes.nextId <= s'.fs.inodes.nextId
            && (r.Some? && r.value.Ok? ==> r.value.value < s'.fs.inodes.nextId && Alive(s.fs, r.value.value))
  {
    if op == W.Lookup {
      LookupCounts(k, s.fs, nodeid, D.TrimNul(body), id);
    } else if op == W.Mkdir {
      if D.ParseName(body, 8).Some? {
        MakeCounts(k, s.fs, F.Mkdirat, nodeid, D.ParseName(body, 8).value, id);
      }
    } else if op == W.Symlink {
      if D.ParseNames(body, 0).Some? {
        MakeCounts(k, s.fs, F.Symlinkat, nodeid, D.ParseNames(body, 0).value.0, id);
      }
    } else if D.ParseName(body, 16).Some? {
      CreateCounts(k, s.fs, nodeid, D.ParseName(body, 16).value, id);
    }
  }

  ghost predicate Untouched(s: F.State, s': F.State, id: nat) {
    Counts(s', id) == Counts(s, id) && s'.inodes.nextId == s.inodes.nextId && s'.handles == s.handles
  }

  lemma {:induction false} RenameOpCounts(k: F.Kernel, s: F.State, fixed: nat, nodeid: nat, body: seq<byte>, id: nat)
    requires fixed >= 8
    ensures Untouched(s, D.RenameOp(k, s, fixed, nodeid, body).0, id)
  {
    var names := D.ParseNames(body, fixed);
    if names.Some? {
      RenameCounts(k, s, nodeid, names.value.0, Num(body, 0, 8), names.value.1, id);
    }
  }

  lemma {:induction false} RenameIs(k: F.Kernel, s: D.State, op: W.Opcode, fixed: nat, nodeid: nat, body: seq<byte>)
    requires op == W.Rename || op == W.Rename2
    requires fixed == if op == W.Rename then 8 else 16
    ensures D.Run(k, s, op, nodeid, body).0.fs == D.RenameOp(k, s.fs, fixed, nodeid, body).0
  {
  }

  lemma {:induction false} RenamesKeep(k: F.Kernel, s: D.State, op: W.Opcode, nodeid: nat, body: seq<byte>, id: nat)
    requires op == W.Rename || op == W.Rename2
    ensures Untouched(s.fs, D.Run(k, s, op, nodeid, body).0.fs, id)
  {
    var fixed := if op == W.Rename then 8 else 16;
    RenameIs(k, s, op, fixed, nodeid, body);
    RenameOpCounts(k, s.fs, fixed, nodeid, body, id);
  }

  lemma {:induction false} LinksKeepInodes(k: F.Kernel, s: D.State, op: W.Opcode, nodeid: nat, body: seq<byte>)
    requires op == W.Link || op == W.Unlink || op == W.Rmdir
    ensures D.Run(k, s, op, nodeid, body).0.fs.inodes == s.fs.inodes
    ensures D.Run(k, s, op, nodeid, body).0.fs.handles == s.fs.handles
  {
  }

  lemma {:induction false} HandlesKeepInodes(k: F.Kernel, s: D.State, op: W.Opcode, nodeid: nat, body: seq<byte>)
    requires R.OnHandles(op)
    ensures D.RunOpen(k, s, op, nodeid, body).0.fs.inodes == s.fs.inodes
  {
  }

  lemma {:induction false} RestKeepsInodes(k: F.Kernel, s: D.State, op: W.Opcode, nodeid: nat, body: seq<byte>)
    requires op != W.Forget && op != W.BatchForget
    ensures D.RunRest(k, s, op, nodeid, body).0.fs.inodes == s.fs.inodes
  {
  }

  /** Requests other than entry requests and forgets leave every count alone. */
  lemma {:induction false} OthersKeepCounts(k: F.Kernel, s: D.State, op: W.Opcode, nodeid: nat, body: seq<byte>,
                                            id: nat)
    requires !MakesEntry(op) && op != W.Forget && op != W.BatchForget
    ensures var s' := D.Run(k, s, op, nodeid, body).0;
            Counts(s'.fs, id) == Counts(s.fs, id) && s'.fs.inodes.nextId == s.fs.inodes.nextId
  {
    if op == W.Rename || op == W.Rename2 {
      RenamesKeep(k, s, op, nodeid, body, id);
    } else if R.OnNames(op) {
      LinksKeepInodes(k, s, op, nodeid, body);
    } else {
      R.PastNames(k, s, op, nodeid, body);
      if R.OnHandles(op) {
        HandlesKeepInodes(k, s, op, nodeid, body);
      } else {
        R.PastHandles(k, s, op, nodeid, body);
        RestKeepsInodes(k, s, op, nodeid, body);
      }
    }
  }

  lemma {:induction false} ForgetIsDrop(k: F.Kernel, s: D.State, op: W.Opcode, nodeid: nat, body: seq<byte>,
                                        batch: seq<(nat, nat)>)
    requires op == W.Forget || op == W.BatchForget
    requires batch == if op == W.Forget then (if |body| >= 8 then [(nodeid, Num(body, 0, 8))] else [])
                      else match W.ParseBatchForget(body) case None => [] case Some(b) => D.Pairs(b)
    ensures D.Run(k, s, op, nodeid, body).0.fs == F.DropBatch(s.fs, batch)
  {
    R.PastNames(k, s, op, nodeid, body);
    R.PastHandles(k, s, op, nodeid, body);
    if op == W.Forget && |body| >= 8 {
      DropOne(s.fs, nodeid, Num(body, 0, 8));
    }
  }

  /** The opcodes behind the numbers. */
  lemma {:induction false} OpcodesOf(code: nat)
    ensures GrantsEntry(code) <==> MakesEntry(W.OpcodeFrom(code))
    ensures code == 2 <==> W.OpcodeFrom(code) == W.Forget
    ensures code == 42 <==> W.OpcodeFrom(code) == W.BatchForget
  {
  }

  lemma {:induction false} EntryVerdict(k: F.Kernel, s: D.State, op: W.Opcode, nodeid: nat, body: seq<byte>)
    requires MakesEntry(op)
    ensures var r := EntryResult(k, s, op, nodeid, body);
            R.VerdictOf(k, s, op, nodeid, body) == match r case None => R.Unparsed case Some(v) => R.Of(v)
  {
  }

  lemma {:induction false} EntryCarried(k: F.Kernel, s: D.State, op: W.Opcode, nodeid: nat, body: seq<byte>,
                                        answer: seq<byte>)
    requires MakesEntry(op) && R.Carries(k, s, op, nodeid, body, answer)
    ensures var r := EntryResult(k, s, op, nodeid, body); r.Some? && R.Names(answer, r.value)
  {
  }

  lemma {:induction false} GrantBytes(request: seq<byte>, b: seq<byte>, r: Option<F.FsResult<nat>>)
    requires |request| >= W.IN_HEADER_LEN && GrantsEntry(Num(request, 4, 4)) && |b| >= W.OUT_HEADER_LEN
    requires NumI32(b, 4) == R.ErrorField(match r case None => R.Unparsed case Some(v) => R.Of(v))
    requires NumI32(b, 4) == 0 ==> r.Some? && R.Names(b[W.OUT_HEADER_LEN..], r.value)
    requires r.Some? && r.value.Ok? ==> r.value.value < TWO_64
    ensures Granted(request, D.Bytes(b)) == if r.Some? && r.value.Ok? then Some(r.value.value) else None
  {
    if NumI32(b, 4) == 0 {
      assert b[16..24] == b[W.OUT_HEADER_LEN..][0..8];
    }
  }

  /** A request that is answered: the error field of its reply, and on success what the reply carries. */
  lemma {:induction false} AnsweredWith(x: Exchange, s: D.State, op: W.Opcode, nodeid: nat, body: seq<byte>)
    returns (b: seq<byte>)
    requires |x.request| >= W.IN_HEADER_LEN && op == R.Meaning(Num(x.request, 4, 4))
    requires nodeid == Num(x.request, 16, 8) && body == x.request[W.IN_HEADER_LEN..]
    requires R.VerdictOf(x.k, s, op, nodeid, body) != R.Unanswered
    ensures ReplyTo(s, x) == D.Bytes(b) && |b| >= W.OUT_HEADER_LEN
    ensures NumI32(b, 4) == R.ErrorField(R.VerdictOf(x.k, s, op, nodeid, body))
    ensures NumI32(b, 4) == 0 ==> R.Carries(x.k, s, op, nodeid, body, b[W.OUT_HEADER_LEN..])
  {
    R.RepliesTellTheTruth(x.k, s, x.request);
    b := ReplyTo(s, x).bytes;
    R.SuccessCarriesResult(x.k, s, x.request, b);
  }

  /** What the client reads as granted is what the file system registered. */
  lemma {:induction false} GrantIsResult(x: Exchange, s: D.State, op: W.Opcode, nodeid: nat, body: seq<byte>)
    requires |x.request| >= W.IN_HEADER_LEN && GrantsEntry(Num(x.request, 4, 4))
    requires op == W.OpcodeFrom(Num(x.request, 4, 4)) && nodeid == Num(x.request, 16, 8)
             && body == x.request[W.IN_HEADER_LEN..]
    requires var r := EntryResult(x.k, s, op, nodeid, body); r.Some? && r.value.Ok? ==> r.value.value < TWO_64
    ensures var r := EntryResult(x.k, s, op, nodeid, body);
            Granted(x.request, ReplyTo(s, x)) == if r.Some? && r.value.Ok? then Some(r.value.value) else None
  {
    OpcodesOf(Num(x.request, 4, 4));
    R.MeaningIs(Num(x.request, 4, 4));
    EntryVerdict(x.k, s, op, nodeid, body);
    var b := AnsweredWith(x, s, op, nodeid, body);
    if NumI32(b, 4) == 0 {
      EntryCarried(x.k, s, op, nodeid, body, b[W.OUT_HEADER_LEN..]);
    }
    GrantBytes(x.request, b, EntryResult(x.k, s, op, nodeid, body));
  }

  // ---- Node ids over a session ----

  /** The exchange moves the count of the node by what its bytes say, but never below zero. */
  ghost predicate Moves(x: Exchange, s: D.State, id: nat) {
    Counts(After(s, x).fs, id) == Max(0, Counts(s.fs, id) + Net(x.request, ReplyTo(s, x), id))
  }

  lemma {:induction false} ExchangeCounts(x: Exchange, s: D.State, id: nat)
    requires id != I.ROOT_ID && After(s, x).fs.inodes.nextId <= TWO_64
    ensures Moves(x, s, id)
  {
    if |x.request| >= W.IN_HEADER_LEN {
      var op := W.OpcodeFrom(Num(x.request, 4, 4));
      OpcodesOf(Num(x.request, 4, 4));
      if MakesEntry(op) {
        EntryExchange(x, s, op, id);
      } else if op == W.Forget || op == W.BatchForget {
        ForgetMoves(x, s, op, id);
      } else {
        OthersKeepCounts(x.k, s, op, Num(x.request, 16, 8), x.request[W.IN_HEADER_LEN..], id);
      }
    }
  }

  lemma {:induction false} ForgetMoves(x: Exchange, s: D.State, op: W.Opcode, id: nat)
    requires |x.request| >= W.IN_HEADER_LEN && op == W.OpcodeFrom(Num(x.request, 4, 4)) && id != I.ROOT_ID
    requires op == W.Forget || op == W.BatchForget
    ensures Moves(x, s, id)
  {
    OpcodesOf(Num(x.request, 4, 4));
    var batch := Forgotten(x.request);
    ForgetExchange(x, s, op, batch);
    DropCounts(s.fs, batch, id);
  }

  /** An id that was issued and is no longer tracked is not granted again. */
  lemma {:induction false} GrantedIsAlive(x: Exchange, s: D.State, id: nat)
    requires After(s, x).fs.inodes.nextId <= TWO_64 && Granted(x.request, ReplyTo(s, x)) == Some(id)
    ensures Alive(s.fs, id)
  {
    OpcodesOf(Num(x.request, 4, 4));
    EntryExchange(x, s, W.OpcodeFrom(Num(x.request, 4, 4)), id);
  }

  lemma {:induction false} EntryExchange(x: Exchange, s: D.State, op: W.Opcode, id: nat)
    requires |x.request| >= W.IN_HEADER_LEN && op == W.OpcodeFrom(Num(x.request, 4, 4)) && MakesEntry(op)
    requires After(s, x).fs.inodes.nextId <= TWO_64
    ensures Counts(After(s, x).fs, id) == Counts(s.fs, id) + (if Granted(x.request, ReplyTo(s, x))
            == Some(id) then 1 else 0)
    ensures Granted(x.request, ReplyTo(s, x)) == Some(id) ==> Alive(s.fs, id)
  {
    var nodeid, body := Num(x.request, 16, 8), x.request[W.IN_HEADER_LEN..];
    OpcodesOf(Num(x.request, 4, 4));
    EntryCounts(x.k, s, op, nodeid, body, id);
    GrantIsResult(x, s, op, nodeid, body);
  }

  lemma {:induction false} ForgetExchange(x: Exchange, s: D.State, op: W.Opcode, batch: seq<(nat, nat)>)
    requires |x.request| >= W.IN_HEADER_LEN && op == W.OpcodeFrom(Num(x.request, 4, 4))
    requires (op == W.Forget || op == W.BatchForget) && batch == Forgotten(x.request)
    ensures After(s, x).fs == F.DropBatch(s.fs, batch)
  {
    OpcodesOf(Num(x.request, 4, 4));
    ForgetBytes(x.request);
    ForgetIsDrop(x.k, s, op, Num(x.request, 16, 8), x.request[W.IN_HEADER_LEN..], batch);
  }

  lemma {:induction false} ForgetBytes(request: seq<byte>)
    requires |request| >= W.IN_HEADER_LEN && (Num(request, 4, 4) == 2 || Num(request, 4, 4) == 42)
    ensures var body := request[W.IN_HEADER_LEN..];
            Forgotten(request) ==
              if Num(request, 4, 4) == 2 then (if |body| >= 8 then [(Num(request, 16, 8), Num(body, 0, 8))] else [])
              else match W.ParseBatchForget(body) case None => [] case Some(b) => D.Pairs(b)
  {
    var body := request[W.IN_HEADER_LEN..];
    if |body| >= 8 {
      assert body[0..8] == request[40..48];
    }
  }

  lemma {:induction false} IdsGoUp(x: Exchange, s: D.State)
    ensures s.fs.inodes.nextId <= After(s, x).fs.inodes.nextId
  {
    if |x.request| >= W.IN_HEADER_LEN {
      var op, nodeid, body := W.OpcodeFrom(Num(x.request, 4, 4)), Num(x.request, 16, 8), x.request[W.IN_HEADER_LEN..];
      if MakesEntry(op) {
        EntryCounts(x.k, s, op, nodeid, body, 0);
      } else if op == W.Forget || op == W.BatchForget {
        ForgetsKeepNext(x.k, s, op, nodeid, body);
      } else {
        OthersKeepCounts(x.k, s, op, nodeid, body, 0);
      }
    }
  }

  lemma {:induction false} ForgetKeepsNext(s: F.State, nodeid: nat, body: seq<byte>)
    ensures var s' := D.ForgetOp(s, nodeid, body).0; s'.inodes.nextId == s.inodes.nextId && s'.handles == s.handles
    ensures var s' := D.BatchForgetOp(s, body).0; s'.inodes.nextId == s.inodes.nextId && s'.handles == s.handles
  {
    if |body| >= 8 {
      I.ForgetKeepsWf(s.inodes, nodeid, Num(body, 0, 8));
    }
    if W.ParseBatchForget(body).Some? {
      I.ForgetAllKeepsWf(s.inodes, D.Pairs(W.ParseBatchForget(body).value));
    }
  }

  lemma {:induction false} ForgetsKeepNext(k: F.Kernel, s: D.State, op: W.Opcode, nodeid: nat, body: seq<byte>)
    requires op == W.Forget || op == W.BatchForget
    ensures D.Run(k, s, op, nodeid, body).0.fs.inodes.nextId == s.fs.inodes.nextId
    ensures D.Run(k, s, op, nodeid, body).0.fs.handles == s.fs.handles
  {
    R.PastNames(k, s, op, nodeid, body);
    R.PastHandles(k, s, op, nodeid, body);
    ForgetKeepsNext(s.fs, nodeid, body);
  }

  /** A service that moves the count of a node by what the bytes say, and never takes an id back. */
  ghost predicate KeepsCount(sv: Service, n: Tally, s: D.State, x: Exchange, id: nat) {
    var (s', r) := sv(s, x);
    && s.fs.inodes.nextId <= s'.fs.inodes.nextId
    && (s'.fs.inodes.nextId <= TWO_64 ==> Counts(s'.fs, id) == Max(0, Counts(s.fs, id) + n(x.request, r)))
  }

  lemma {:induction false} FinalNext(sv: Service, n: Tally, s: D.State, xs: seq<Exchange>, id: nat)
    requires forall s: D.State, x: Exchange :: KeepsCount(sv, n, s, x, id)
    ensures s.fs.inodes.nextId <= Final(sv, s, xs).fs.inodes.nextId
    decreases |xs|
  {
    if xs != [] {
      assert KeepsCount(sv, n, s, xs[0], id);
      FinalNext(sv, n, sv(s, xs[0]).0, xs[1..], id);
    }
  }

  lemma {:induction false} CountsFollow(sv: Service, n: Tally, s: D.State, xs: seq<Exchange>, id: nat)
    requires forall s: D.State, x: Exchange :: KeepsCount(sv, n, s, x, id)
    requires Final(sv, s, xs).fs.inodes.nextId <= TWO_64
    ensures Counts(Final(sv, s, xs).fs, id) == Stored(sv, n, s, xs, Counts(s.fs, id))
    decreases |xs|
  {
    if xs != [] {
      assert KeepsCount(sv, n, s, xs[0], id);
      FinalNext(sv, n, sv(s, xs[0]).0, xs[1..], id);
      CountsFollow(sv, n, sv(s, xs[0]).0, xs[1..], id);
    }
  }

  lemma {:induction false} SessionKeepsCount(s: D.State, x: Exchange, id: nat)
    requires id != I.ROOT_ID
    ensures KeepsCount(Session(), Grants(id), s, x, id)
  {
    IdsGoUp(x, s);
    if After(s, x).fs.inodes.nextId <= TWO_64 {
      ExchangeCounts(x, s, id);
    }
  }

  lemma {:induction false} KnownIsCounted(s: F.State, id: nat)
    requires id != I.ROOT_ID
    ensures id in s.inodes.byId <==> Counts(s, id) > 0
    ensures id >= s.inodes.nextId ==> Counts(s, id) == 0
  {
    assert I.IdOk(s.inodes, id);
  }

  /**
   Over every session, whatever the client gives back: the stored count of every node but the root is
   what the bytes of requests and replies add up to, one exchange after the other and never below
   zero, and the node is known exactly while that is positive. Ids are taken to stay below 2^64.
   */
  lemma {:induction false} CountsAreRead(s: D.State, xs: seq<Exchange>, id: nat)
    requires id != I.ROOT_ID && Final(Session(), s, xs).fs.inodes.nextId <= TWO_64
    ensures var c := Stored(Session(), Grants(id), s, xs, Counts(s.fs, id));
            Counts(Final(Session(), s, xs).fs, id) == c && (id in Final(Session(), s, xs).fs.inodes.byId <==> c > 0)
  {
    forall s: D.State, x: Exchange
      ensures KeepsCount(Session(), Grants(id), s, x, id)
    {
      SessionKeepsCount(s, x, id);
    }
    CountsFollow(Session(), Grants(id), s, xs, id);
    KnownIsCounted(Final(Session(), s, xs).fs, id);
  }

  lemma {:induction false} HonestStored(sv: Service, n: Tally, s: D.State, xs: seq<Exchange>, c: nat)
    requires Honest(sv, n, s, xs, c)
    ensures Stored(sv, n, s, xs, c) == c + Sum(sv, n, s, xs)
    decreases |xs|
  {
    if xs != [] {
      HonestStored(sv, n, sv(s, xs[0]).0, xs[1..], c + n(xs[0].request, sv(s, xs[0]).1));
    }
  }

  /**
   No dangling node ids: for a client that never forgets more of a node than replies have granted it,
   the stored count is grants minus forgets, and the node is known exactly while that is positive.
   */
  lemma {:induction false} NodesStayWhileHeld(s: D.State, xs: seq<Exchange>, id: nat)
    requires id != I.ROOT_ID && Final(Session(), s, xs).fs.inodes.nextId <= TWO_64
    requires Honest(Session(), Grants(id), s, xs, Counts(s.fs, id))
    ensures var held := Counts(s.fs, id) + Sum(Session(), Grants(id), s, xs);
            && Counts(Final(Session(), s, xs).fs, id) == held
            && (id in Final(Session(), s, xs).fs.inodes.byId <==> held > 0)
  {
    CountsAreRead(s, xs, id);
    HonestStored(Session(), Grants(id), s, xs, Counts(s.fs, id));
  }

  // ---- Handles over a session ----

  /** The handle a reply hands out: first field of a successful OPEN or OPENDIR, near the end of a CREATE. */
  function Opened(request: seq<byte>, reply: D.Reply): (h: Option<nat>) {
    if |request| < W.IN_HEADER_LEN || !reply.Bytes? || |reply.bytes| < 24 || NumI32(reply.bytes, 4) != 0 then None
    else if Num(request, 4, 4) == 14 || Num(request, 4, 4) == 27 then Some(Num(reply.bytes, 16, 8))
    else if Num(request, 4, 4) == 35 && |reply.bytes| >= 32 then Some(Num(reply.bytes, |reply.bytes| - 16, 8))
    else None
  }

  /** All handles handed out along a session, in order. */
  function AllOpened(sv: Service, s: D.State, xs: seq<Exchange>): (hs: seq<nat>)
    decreases |xs|
  {
    if xs == [] then []
    else
      var h := Opened(xs[0].request, sv(s, xs[0]).1);
      (if h.Some? then [h.value] else []) + AllOpened(sv, sv(s, xs[0]).0, xs[1..])
  }

  lemma {:induction false} EntriesKeepHandles(k: F.Kernel, s: D.State, op: W.Opcode, nodeid: nat, body: seq<byte>)
    requires MakesEntry(op) && op != W.Create
    ensures D.Run(k, s, op, nodeid, body).0.fs.handles == s.fs.handles
  {
    if op == W.Lookup {
      LookupCounts(k, s.fs, nodeid, D.TrimNul(body), 0);
    } else if op == W.Mkdir {
      if D.ParseName(body, 8).Some? {
        MakeCounts(k, s.fs, F.Mkdirat, nodeid, D.ParseName(body, 8).value, 0);
      }
    } else if D.ParseNames(body, 0).Some? {
      MakeCounts(k, s.fs, F.Symlinkat, nodeid, D.ParseNames(body, 0).value.0, 0);
    }
  }

  lemma {:induction false} NamesKeepHandles(k: F.Kernel, s: D.State, op: W.Opcode, nodeid: nat, body: seq<byte>)
    requires R.OnNames(op) && op != W.Create
    ensures D.Run(k, s, op, nodeid, body).0.fs.handles == s.fs.handles
  {
    if MakesEntry(op) {
      EntriesKeepHandles(k, s, op, nodeid, body);
    } else if op == W.Rename || op == W.Rename2 {
      RenamesKeep(k, s, op, nodeid, body, 0);
    } else {
      LinksKeepInodes(k, s, op, nodeid, body);
    }
  }

  function Success(r: F.FsResult<nat>): (v: Option<nat>) {
    if r.Ok? then Some(r.value) else None
  }

  /** The handle an operation opens, if it does. */
  function HandleResult(k: F.Kernel, s: D.State, op: W.Opcode, nodeid: nat, body: seq<byte>): (h: Option<nat>) {
    match op
    case Create =>
      (match D.ParseName(body, 16)
       case None => None
       case Some(n) => (match F.Create(k, s.fs, nodeid, n).1 case Err(_) => None case Ok((_, h)) => Some(h)))
    case Open => if |body| < 4 then None else Success(F.OpenNode(k, s.fs, false, nodeid).1)
    case Opendir => if |body| < 4 then None else Success(F.OpenNode(k, s.fs, true, nodeid).1)
    case _ => None
  }

  lemma {:induction false} HandlesAdvance(k: F.Kernel, s: D.State, op: W.Opcode, nodeid: nat, body: seq<byte>)
    ensures var s', h := D.Run(k, s, op, nodeid, body).0, HandleResult(k, s, op, nodeid, body);
            s'.fs.handles.nextId == s.fs.handles.nextId + (if h.Some? then 1 else 0)
            && (h.Some? ==> h.value == s.fs.handles.nextId)
  {
    if op == W.Create {
      if D.ParseName(body, 16).Some? {
        CreateCounts(k, s.fs, nodeid, D.ParseName(body, 16).value, 0);
      }
    } else if R.OnNames(op) {
      NamesKeepHandles(k, s, op, nodeid, body);
    } else {
      R.PastNames(k, s, op, nodeid, body);
      if R.OnHandles(op) {
        OpensAdvance(k, s, op, nodeid, body);
      } else {
        R.PastHandles(k, s, op, nodeid, body);
        RestKeepsHandles(k, s, op, nodeid, body);
      }
    }
  }

  lemma {:induction false} OpensAdvance(k: F.Kernel, s: D.State, op: W.Opcode, nodeid: nat, body: seq<byte>)
    requires R.OnHandles(op)
    ensures var s', h := D.RunOpen(k, s, op, nodeid, body).0, HandleResult(k, s, op, nodeid, body);
            s'.fs.handles.nextId == s.fs.handles.nextId + (if h.Some? then 1 else 0)
            && (h.Some? ==> h.value == s.fs.handles.nextId)
  {
    if op == W.Open || op == W.Opendir {
      OpenAdvances(k, s, op, nodeid, body);
    } else {
      FilesKeepNext(k, s, op, nodeid, body);
    }
  }

  lemma {:induction false} OpenAdvances(k: F.Kernel, s: D.State, op: W.Opcode, nodeid: nat, body: seq<byte>)
    requires op == W.Open || op == W.Opendir
    ensures var s', h := D.RunOpen(k, s, op, nodeid, body).0, HandleResult(k, s, op, nodeid, body);
            s'.fs.handles.nextId == s.fs.handles.nextId + (if h.Some? then 1 else 0)
            && (h.Some? ==> h.value == s.fs.handles.nextId)
  {
  }

  lemma {:induction false} FilesKeepNext(k: F.Kernel, s: D.State, op: W.Opcode, nodeid: nat, body: seq<byte>)
    requires R.OnHandles(op) && op != W.Open && op != W.Opendir
    ensures D.RunOpen(k, s, op, nodeid, body).0.fs.handles.nextId == s.fs.handles.nextId
  {
  }

  lemma {:induction false} RestKeepsHandles(k: F.Kernel, s: D.State, op: W.Opcode, nodeid: nat, body: seq<byte>)
    ensures D.RunRest(k, s, op, nodeid, body).0.fs.handles == s.fs.handles
  {
  }

  predicate Opens(op: W.Opcode) {
    op == W.Open || op == W.Opendir || op == W.Create
  }

  lemma {:induction false} OpenerCodes(code: nat)
    ensures code == 14 <==> W.OpcodeFrom(code) == W.Open
    ensures code == 27 <==> W.OpcodeFrom(code) == W.Opendir
    ensures code == 35 <==> W.OpcodeFrom(code) == W.Create
  {
  }

  lemma {:induction false} HandleVerdict(k: F.Kernel, s: D.State, op: W.Opcode, nodeid: nat, body: seq<byte>)
    requires Opens(op)
    ensures R.VerdictOf(k, s, op, nodeid, body) != R.Unanswered
    ensures R.ErrorField(R.VerdictOf(k, s, op, nodeid, body)) == 0 <==> HandleResult(k, s, op, nodeid, body).Some?
  {
  }

  lemma {:induction false} HandleCarried(k: F.Kernel, s: D.State, op: W.Opcode, nodeid: nat, body: seq<byte>,
                                         answer: seq<byte>)
    requires Opens(op) && R.Carries(k, s, op, nodeid, body, answer) && HandleResult(k, s, op, nodeid, body).Some?
    ensures R.HasHandle(answer, if op == W.Create then |answer| - 16 else 0, HandleResult(k, s, op, nodeid, body).value)
  {
  }

  lemma {:induction false} OpenedBytes(request: seq<byte>, b: seq<byte>, at: int, h: Option<nat>)
    requires |request| >= W.IN_HEADER_LEN && |b| >= W.OUT_HEADER_LEN
    requires var code := Num(request, 4, 4);
             (code == 14 || code == 27 || code == 35) && at == if code == 35 then |b| - W.OUT_HEADER_LEN - 16 else 0
    requires NumI32(b, 4) == 0 <==> h.Some?
    requires h.Some? ==> h.value < TWO_64 && R.HasHandle(b[W.OUT_HEADER_LEN..], at, h.value)
    ensures Opened(request, D.Bytes(b)) == h
  {
    if h.Some? {
      assert b[16 + at..16 + at + 8] == b[W.OUT_HEADER_LEN..][at..at + 8];
    }
  }

  /** What the client reads as its handle is the handle the file system opened. */
  lemma {:induction false} OpenedIsResult(x: Exchange, s: D.State, op: W.Opcode, nodeid: nat, body: seq<byte>)
    requires |x.request| >= W.IN_HEADER_LEN && Opens(op)
    requires op == W.OpcodeFrom(Num(x.request, 4, 4)) && nodeid == Num(x.request, 16, 8)
             && body == x.request[W.IN_HEADER_LEN..]
    requires var h := HandleResult(x.k, s, op, nodeid, body); h.Some? ==> h.value < TWO_64
    ensures Opened(x.request, ReplyTo(s, x)) == HandleResult(x.k, s, op, nodeid, body)
  {
    OpenerCodes(Num(x.request, 4, 4));
    R.MeaningIs(Num(x.request, 4, 4));
    HandleVerdict(x.k, s, op, nodeid, body);
    var b := AnsweredWith(x, s, op, nodeid, body);
    var h := HandleResult(x.k, s, op, nodeid, body);
    if h.Some? {
      HandleCarried(x.k, s, op, nodeid, body, b[W.OUT_HEADER_LEN..]);
    }
    OpenedBytes(x.request, b, if op == W.Create then |b| - W.OUT_HEADER_LEN - 16 else 0, h);
  }

  /** A service that hands out its next handle and counts on, or leaves handles alone. */
  ghost predicate CountsHandles(sv: Service, s: D.State, x: Exchange) {
    var (s', r) := sv(s, x);
    var lo, hi := s.fs.handles.nextId, s'.fs.handles.nextId;
    && lo <= hi <= lo + 1
    && (hi <= TWO_64 ==> Opened(x.request, r) == if hi > lo then Some(lo) else None)
  }

  lemma {:induction false} SessionCountsHandles(s: D.State, x: Exchange)
    ensures CountsHandles(Session(), s, x)
  {
    if |x.request| >= W.IN_HEADER_LEN {
      var op, nodeid, body := W.OpcodeFrom(Num(x.request, 4, 4)), Num(x.request, 16, 8), x.request[W.IN_HEADER_LEN..];
      HandlesAdvance(x.k, s, op, nodeid, body);
      OpenerCodes(Num(x.request, 4, 4));
      if Opens(op) && After(s, x).fs.handles.nextId <= TWO_64 {
        OpenedIsResult(x, s, op, nodeid, body);
      }
    }
  }

  lemma {:induction false} FinalHandles(sv: Service, s: D.State, xs: seq<Exchange>)
    requires forall s: D.State, x: Exchange :: CountsHandles(sv, s, x)
    ensures s.fs.handles.nextId <= Final(sv, s, xs).fs.handles.nextId
    decreases |xs|
  {
    if xs != [] {
      assert CountsHandles(sv, s, xs[0]);
      FinalHandles(sv, sv(s, xs[0]).0, xs[1..]);
    }
  }

  lemma {:induction false} HandlesAscend(sv: Service, s: D.State, xs: seq<Exchange>)
    requires forall s: D.State, x: Exchange :: CountsHandles(sv, s, x)
    requires Final(sv, s, xs).fs.handles.nextId <= TWO_64
    ensures I.Ascending(AllOpened(sv, s, xs), s.fs.handles.nextId, Final(sv, s, xs).fs.handles.nextId)
    decreases |xs|
  {
    if xs != [] {
      var s' := sv(s, xs[0]).0;
      assert CountsHandles(sv, s, xs[0]);
      FinalHandles(sv, s', xs[1..]);
      HandlesAscend(sv, s', xs[1..]);
      I.AscendingCons(AllOpened(sv, s', xs[1..]), s.fs.handles.nextId, s'.fs.handles.nextId,
                      Final(sv, s, xs).fs.handles.nextId);
    }
  }

  /**
   No handle is ever reused: over every session, each handle a reply hands out is larger than all
   handed out before it, whatever was released in between. Handles are taken to stay below 2^64.
   */
  lemma {:induction false} HandlesNeverReused(s: D.State, xs: seq<Exchange>, i: nat)
    requires Final(Session(), s, xs).fs.handles.nextId <= TWO_64 && i < |AllOpened(Session(), s, xs)|
    ensures AllOpened(Session(), s, xs)[i] >= s.fs.handles.nextId
    ensures forall j :: 0 <= j < i ==> AllOpened(Session(), s, xs)[j] < AllOpened(Session(), s, xs)[i]
  {
    forall s: D.State, x: Exchange
      ensures CountsHandles(Session(), s, x)
    {
      SessionCountsHandles(s, x);
    }
    HandlesAscend(Session(), s, xs);
    var hs, lo, hi := AllOpened(Session(), s, xs), s.fs.handles.nextId, Final(Session(), s, xs).fs.handles.nextId;
    I.AscendingBounds(hs, lo, hi);
    I.AscendingDistinct(hs, lo, hi, i);
  }
}
