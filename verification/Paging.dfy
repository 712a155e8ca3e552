/**
 Reading a directory over a whole session (fuse/dispatch.rs): any sequence of requests, seen through
 request and reply bytes. A client that asks on at the offset the last entry it used came with gets
 every entry once and in order, whatever other requests come in between.
 */
module Paging {
  import opened Basics
  import opened Bytes
  import W = Wire
  import F = Fs
  import P = Readdir
  import D = Dispatch
  import R = Replies
  import C = Clients
  import E = Effects

  /** An exchange, and how many entries of a page the client goes on to use. */
  datatype Turn = Turn(x: C.Exchange, take: nat)

  // ---- READDIR and RELEASEDIR, read off the bytes ----

  predicate IsReaddir(request: seq<byte>) {
    |request| >= 60 && Num(request, 4, 4) == 28
  }

  predicate IsReleasedir(request: seq<byte>) {
    |request| >= 48 && Num(request, 4, 4) == 29
  }

  function HandleIn(request: seq<byte>): (fh: nat)
    requires |request| >= 48
  {
    Num(request, 40, 8)
  }

  function AskedAt(request: seq<byte>): (at: nat)
    requires IsReaddir(request)
  {
    Num(request, 48, 8)
  }

  function Room(request: seq<byte>): (size: nat)
    requires IsReaddir(request)
  {
    Num(request, 56, 4)
  }

  predicate Reads(request: seq<byte>, fh: nat) {
    IsReaddir(request) && HandleIn(request) == fh
  }

  predicate Succeeds(reply: D.Reply) {
    reply.Bytes? && |reply.bytes| >= W.OUT_HEADER_LEN && NumI32(reply.bytes, 4) == 0
  }

  /** The entries of handle `fh` the client decodes from a reply and goes on to use. */
  ghost function Got(t: Turn, reply: D.Reply, fh: nat): (es: seq<P.Entry>) {
    if Reads(t.x.request, fh) && Succeeds(reply)
    then P.UsedOf(P.Decode, Ok(reply.bytes[W.OUT_HEADER_LEN..]), t.take)
    else []
  }

  /**
   The client reads handle `fh` on from offset `at`: each READDIR on it asks at the offset in the last
   entry used, with any room and using any part of the page. All other requests are unrestricted, but
   for releasing the handle.
   */
  ghost predicate Follows(sv: C.Service, s: D.State, ts: seq<Turn>, fh: nat, at: nat)
    decreases |ts|
  {
    ts == [] ||
    (var t := ts[0];
     var (s', reply) := sv(s, t.x);
     && (IsReleasedir(t.x.request) ==> HandleIn(t.x.request) != fh)
     && (Reads(t.x.request, fh) ==> AskedAt(t.x.request) == at)
     && Follows(sv, s', ts[1..], fh, P.NextOffset(Got(t, reply, fh), at)))
  }

  /** All entries of handle `fh` the client uses along the session, in order. */
  ghost function Used(sv: C.Service, s: D.State, ts: seq<Turn>, fh: nat): (es: seq<P.Entry>)
    decreases |ts|
  {
    if ts == [] then [] else Got(ts[0], sv(s, ts[0].x).1, fh) + Used(sv, sv(s, ts[0].x).0, ts[1..], fh)
  }

  function End(sv: C.Service, s: D.State, ts: seq<Turn>): (s': D.State)
    decreases |ts|
  {
    if ts == [] then s else End(sv, sv(s, ts[0].x).0, ts[1..])
  }

  /** The directory as the host kernel listed it when the client last read the handle from the start. */
  function InForce(sv: C.Service, s: D.State, ts: seq<Turn>, fh: nat, l: seq<F.DirEntry>): (l': seq<F.DirEntry>)
    decreases |ts|
  {
    if ts == [] then l
    else
      var x, (s', reply) := ts[0].x, sv(s, ts[0].x);
      InForce(sv, s', ts[1..], fh,
              if Reads(x.request, fh) && AskedAt(x.request) == 0 && Succeeds(reply) then x.k.listing else l)
  }

  // ---- Exchanges as calls on the snapshot cache ----

  ghost function CallOf(s: D.State, t: Turn): (c: Option<P.Call>) {
    var r := t.x.request;
    if IsReaddir(r) then
      Some(P.ReadAt(HandleIn(r), AskedAt(r), Room(r), F.ListDir(t.x.k, s.fs, HandleIn(r)), t.take))
    else if IsReleasedir(r) then Some(P.Releasedir(HandleIn(r)))
    else None
  }

  ghost function Calls(sv: C.Service, s: D.State, ts: seq<Turn>): (cs: seq<P.Call>)
    decreases |ts|
  {
    if ts == [] then []
    else
      var rest := Calls(sv, sv(s, ts[0].x).0, ts[1..]);
      match CallOf(s, ts[0]) case None => rest case Some(c) => [c] + rest
  }

  /** What the call behind a READDIR returns. */
  ghost function BodyOf(cache: P.Cache, c: P.Call): (r: F.FsResult<seq<byte>>)
    requires c.ReadAt?
  {
    P.ReadBody(P.Dirent, cache, c.fh, c.offset, c.size, c.listing)
  }

  /** The service does to its cache what the call does, and replies with what it returns. */
  ghost predicate Pages(sv: C.Service, s: D.State, t: Turn) {
    var (s', reply) := sv(s, t.x);
    match CallOf(s, t)
    case None => s'.cache == s.cache
    case Some(c) =>
      && s'.cache == P.After(s.cache, c)
      && (c.ReadAt? ==> (if Succeeds(reply) then BodyOf(s.cache, c) == Ok(reply.bytes[W.OUT_HEADER_LEN..])
                         else BodyOf(s.cache, c).Err?))
  }

  lemma {:induction false} GotIs(sv: C.Service, s: D.State, t: Turn, fh: nat)
    requires Pages(sv, s, t)
    ensures Got(t, sv(s, t.x).1, fh) ==
              match CallOf(s, t) case None => [] case Some(c) => P.UsedBy(P.Dirent, P.Decode, s.cache, c, fh)
  {
  }

  /** A directory read through `fh` has no more entries and no longer names than the wire has room for. */
  ghost predicate ListingFits(t: Turn, fh: nat) {
    Reads(t.x.request, fh) ==> P.Encodable(t.x.k.listing)
  }

  /** A session is a sequence of calls on the cache. */
  lemma {:induction false} Simulates(sv: C.Service, s: D.State, ts: seq<Turn>, fh: nat, at: nat, l: seq<F.DirEntry>)
    requires forall s: D.State, t: Turn :: Pages(sv, s, t)
    ensures var cs := Calls(sv, s, ts);
            && (Follows(sv, s, ts, fh, at) ==> P.Follows(P.Dirent, P.Decode, s.cache, cs, fh, at))
            && Used(sv, s, ts, fh) == P.Used(P.Dirent, P.Decode, s.cache, cs, fh)
            && InForce(sv, s, ts, fh, l) == P.InForce(l, cs, fh)
            && End(sv, s, ts).cache == P.AfterAll(s.cache, cs)
    decreases |ts|
  {
    if ts != [] {
      var t, s', reply := ts[0], sv(s, ts[0].x).0, sv(s, ts[0].x).1;
      assert Pages(sv, s, t);
      GotIs(sv, s, t, fh);
      var at' := P.NextOffset(Got(t, reply, fh), at);
      var l' := if Reads(t.x.request, fh) && AskedAt(t.x.request) == 0 && Succeeds(reply) then t.x.k.listing else l;
      Simulates(sv, s', ts[1..], fh, at', l');
      var rest := Calls(sv, s', ts[1..]);
      match CallOf(s, t)
      case None =>
      case Some(c) => assert ([c] + rest)[1..] == rest;
    }
  }

  lemma {:induction false} CallsEncodable(sv: C.Service, s: D.State, ts: seq<Turn>, fh: nat)
    requires forall i :: 0 <= i < |ts| ==> ListingFits(ts[i], fh)
    ensures forall i :: 0 <= i < |Calls(sv, s, ts)| ==> P.EncodableFor(Calls(sv, s, ts)[i], fh)
    decreases |ts|
  {
    if ts != [] {
      var s' := sv(s, ts[0].x).0;
      CallsEncodable(sv, s', ts[1..], fh);
      var cs, rest := Calls(sv, s, ts), Calls(sv, s', ts[1..]);
      if c :| CallOf(s, ts[0]) == Some(c) {
        assert ListingFits(ts[0], fh);
        forall i | 0 <= i < |cs|
          ensures P.EncodableFor(cs[i], fh)
        {
          assert cs[i] == if i == 0 then c else rest[i - 1];
        }
      }
    }
  }

  // ---- The session's own exchanges ----

  lemma {:induction false} NamesKeepCache(k: F.Kernel, s: D.State, op: W.Opcode, nodeid: nat, body: seq<byte>)
    requires R.OnNames(op)
    ensures D.Run(k, s, op, nodeid, body).0.cache == s.cache
  {
  }

  lemma {:induction false} FilesKeepCache(k: F.Kernel, s: D.State, op: W.Opcode, nodeid: nat, body: seq<byte>)
    requires R.OnHandles(op) && op != W.Readdir && op != W.Releasedir
    ensures D.RunOpen(k, s, op, nodeid, body).0.cache == s.cache
  {
  }

  lemma {:induction false} RestKeepsCache(k: F.Kernel, s: D.State, op: W.Opcode, nodeid: nat, body: seq<byte>)
    ensures D.RunRest(k, s, op, nodeid, body).0.cache == s.cache
  {
  }

  lemma {:induction false} OthersKeepCache(k: F.Kernel, s: D.State, op: W.Opcode, nodeid: nat, body: seq<byte>)
    requires op != W.Readdir && op != W.Releasedir
    ensures D.Run(k, s, op, nodeid, body).0.cache == s.cache
  {
    if R.OnNames(op) {
      NamesKeepCache(k, s, op, nodeid, body);
    } else {
      R.PastNames(k, s, op, nodeid, body);
      if R.OnHandles(op) {
        FilesKeepCache(k, s, op, nodeid, body);
      } else {
        R.PastHandles(k, s, op, nodeid, body);
        RestKeepsCache(k, s, op, nodeid, body);
      }
    }
  }

  lemma {:induction false} ReaddirCache(k: F.Kernel, s: D.State, nodeid: nat, body: seq<byte>)
    ensures D.Run(k, s, W.Readdir, nodeid, body).0.cache ==
              if |body| < 20 then s.cache
              else P.Snapshot(s.cache, Num(body, 0, 8), Num(body, 8, 8), F.ListDir(k, s.fs, Num(body, 0, 8)))
  {
  }

  lemma {:induction false} ReleasedirCache(k: F.Kernel, s: D.State, nodeid: nat, body: seq<byte>)
    ensures D.Run(k, s, W.Releasedir, nodeid, body).0.cache ==
              if |body| < 8 then s.cache else P.DropSnapshot(s.cache, Num(body, 0, 8))
  {
  }

  lemma {:induction false} DirCodes(code: nat)
    ensures code == 28 <==> W.OpcodeFrom(code) == W.Readdir
    ensures code == 29 <==> W.OpcodeFrom(code) == W.Releasedir
  {
  }

  /** The fields at the start of a request's body. */
  lemma {:induction false} BodyFields(request: seq<byte>)
    requires |request| >= 48
    ensures var body := request[W.IN_HEADER_LEN..];
            && Num(body, 0, 8) == Num(request, 40, 8)
            && (|request| >= 60 ==> Num(body, 8, 8) == Num(request, 48, 8) && Num(body, 16, 4) == Num(request, 56, 4))
  {
    var body := request[W.IN_HEADER_LEN..];
    assert body[0..8] == request[40..48];
    if |request| >= 60 {
      assert body[8..16] == request[48..56] && body[16..20] == request[56..60];
    }
  }

  /** A READDIR succeeds exactly if there is a page to give, and then that page is its body. */
  lemma {:induction false} ReaddirReplies(x: C.Exchange, s: D.State, c: P.Call)
    requires IsReaddir(x.request) && c.ReadAt? && c.fh == HandleIn(x.request) && c.offset == AskedAt(x.request)
    requires c.size == Room(x.request) && c.listing == F.ListDir(x.k, s.fs, c.fh)
    ensures var reply := C.ReplyTo(s, x);
            if Succeeds(reply) then BodyOf(s.cache, c) == Ok(reply.bytes[W.OUT_HEADER_LEN..])
                else BodyOf(s.cache, c).Err?
  {
    BodyFields(x.request);
    DirCodes(Num(x.request, 4, 4));
    R.MeaningIs(Num(x.request, 4, 4));
    var op, nodeid, body := W.OpcodeFrom(Num(x.request, 4, 4)), Num(x.request, 16, 8), x.request[W.IN_HEADER_LEN..];
    ReaddirVerdict(x.k, s, op, nodeid, body);
    var b := C.AnsweredWith(x, s, op, nodeid, body);
    PageCarried(x.k, s, op, nodeid, body);
  }

  lemma {:induction false} PageCarried(k: F.Kernel, s: D.State, op: W.Opcode, nodeid: nat, body: seq<byte>)
    requires op == W.Readdir && |body| >= 20
    ensures R.ContentOf(k, s, op, nodeid, body) ==
              R.Data(R.PageFor(k, s, Num(body, 0, 8), Num(body, 8, 8), Num(body, 16, 4)))
  {
  }

  lemma {:induction false} ReaddirVerdict(k: F.Kernel, s: D.State, op: W.Opcode, nodeid: nat, body: seq<byte>)
    requires op == W.Readdir && |body| >= 20
    ensures var v, fh, at := R.VerdictOf(k, s, op, nodeid, body), Num(body, 0, 8), Num(body, 8, 8);
            && v != R.Unanswered
            && (R.ErrorField(v) == 0 <==> (at != 0 && fh in s.cache) || F.ListDir(k, s.fs, fh).Ok?)
  {
    VerdictIs(k, s, op, nodeid, body);
  }

  lemma {:induction false} VerdictIs(k: F.Kernel, s: D.State, op: W.Opcode, nodeid: nat, body: seq<byte>)
    requires op == W.Readdir && |body| >= 20
    ensures R.VerdictOf(k, s, op, nodeid, body) ==
              if Num(body, 8, 8) != 0 && Num(body, 0, 8) in s.cache then R.Succeeded
              else R.Of(F.ListDir(k, s.fs, Num(body, 0, 8)))
  {
  }

  lemma {:induction false} SessionPages(s: D.State, t: Turn)
    ensures Pages(C.Session(), s, t)
  {
    var r := t.x.request;
    if |r| >= W.IN_HEADER_LEN {
      var op, nodeid, body := W.OpcodeFrom(Num(r, 4, 4)), Num(r, 16, 8), r[W.IN_HEADER_LEN..];
      DirCodes(Num(r, 4, 4));
      if |r| >= 48 {
        BodyFields(r);
      }
      if op == W.Readdir {
        ReaddirCache(t.x.k, s, nodeid, body);
        if IsReaddir(r) {
          ReaddirReplies(t.x, s, CallOf(s, t).value);
        }
      } else if op == W.Releasedir {
        ReleasedirCache(t.x.k, s, nodeid, body);
      } else {
        OthersKeepCache(t.x.k, s, op, nodeid, body);
      }
    }
  }

  /** What every request does to the directory snapshots, read off its bytes. */
  lemma {:induction false} SnapshotsKept(s: D.State, x: C.Exchange)
    ensures var r, cache, cache' := x.request, s.cache, C.After(s, x).cache;
            if IsReaddir(r) then
              var fh := HandleIn(r);
              var listed := && fh in s.fs.handles.open && s.fs.handles.open[fh].DirStream?
                            && x.k.fault(F.Getdents).None?;
              cache' == if (AskedAt(r) == 0 || fh !in cache) && listed then cache[fh := x.k.listing] else cache
            else if IsReleasedir(r) then HandleIn(r) !in cache' && E.Elsewhere(cache, cache', HandleIn(r))
            else cache' == cache
  {
    SessionPages(s, Turn(x, 0));
    if IsReaddir(x.request) {
      E.ListEffect(x.k, s.fs, HandleIn(x.request));
    }
  }

  // ---- The theorem ----

  /**
   Over every session, a client that reads handle `fh` from offset 0 on and follows the offsets has
   used a beginning of the listing the kernel gave, each entry exactly once and in order, with its own
   name, inode number and type, and its offset is how many.
   Its next READDIR starts with the next entry if there is one and room for it, and has an empty body
   if there is none.
   */
  lemma {:induction false} PagingOverSessions(s: D.State, ts: seq<Turn>, fh: nat, next: Turn)
    requires forall i :: 0 <= i < |ts| ==> ListingFits(ts[i], fh)
    requires Follows(C.Session(), s, ts, fh, 0)
    requires Reads(next.x.request, fh) && next.take == 1 && ListingFits(next, fh)
    requires AskedAt(next.x.request) == P.NextOffset(Used(C.Session(), s, ts, fh), 0)
    ensures var used, l := Used(C.Session(), s, ts, fh), InForce(C.Session(), s, ts, fh, []);
            var reply := C.ReplyTo(End(C.Session(), s, ts), next.x);
            var room := Room(next.x.request);
            && P.Begins(used, l) && P.NextOffset(used, 0) == |used|
            && (0 < |used| < |l| && P.Padded(|l[|used|].name|) <= room ==>
                  Got(next, reply, fh) != [] && P.Begins(Got(next, reply, fh), l[|used|..]))
            && (0 < |used| == |l| ==> Succeeds(reply) && |reply.bytes| == W.OUT_HEADER_LEN)
            && (used == [] && Succeeds(reply) ==>
                  var l1 := next.x.k.listing;
                  && (l1 == [] ==> |reply.bytes| == W.OUT_HEADER_LEN)
                  && (l1 != [] && P.Padded(|l1[0].name|) <= room ==>
                        Got(next, reply, fh) != [] && P.Begins(Got(next, reply, fh), l1)))
  {
    forall s: D.State, t: Turn
      ensures Pages(C.Session(), s, t)
    {
      SessionPages(s, t);
    }
    PagingIn(C.Session(), s, ts, fh, next);
  }

  lemma {:induction false} PagingIn(sv: C.Service, s: D.State, ts: seq<Turn>, fh: nat, next: Turn)
    requires forall s: D.State, t: Turn :: Pages(sv, s, t)
    requires forall i :: 0 <= i < |ts| ==> ListingFits(ts[i], fh)
    requires Follows(sv, s, ts, fh, 0)
    requires Reads(next.x.request, fh) && next.take == 1 && ListingFits(next, fh)
    requires AskedAt(next.x.request) == P.NextOffset(Used(sv, s, ts, fh), 0)
    ensures var used, l := Used(sv, s, ts, fh), InForce(sv, s, ts, fh, []);
            var reply := sv(End(sv, s, ts), next.x).1;
            var room := Room(next.x.request);
            && P.Begins(used, l) && P.NextOffset(used, 0) == |used|
            && (0 < |used| < |l| && P.Padded(|l[|used|].name|) <= room ==>
                  Got(next, reply, fh) != [] && P.Begins(Got(next, reply, fh), l[|used|..]))
            && (0 < |used| == |l| ==> Succeeds(reply) && |reply.bytes| == W.OUT_HEADER_LEN)
            && (used == [] && Succeeds(reply) ==>
                  var l1 := next.x.k.listing;
                  && (l1 == [] ==> |reply.bytes| == W.OUT_HEADER_LEN)
                  && (l1 != [] && P.Padded(|l1[0].name|) <= room ==>
                        Got(next, reply, fh) != [] && P.Begins(Got(next, reply, fh), l1)))
  {
    var cs, s' := Calls(sv, s, ts), End(sv, s, ts);
    Simulates(sv, s, ts, fh, 0, []);
    CallsEncodable(sv, s, ts, fh);
    assert Pages(sv, s', next);
    GotIs(sv, s', next, fh);
    P.PagingLossless(s.cache, cs, fh, Room(next.x.request), F.ListDir(next.x.k, s'.fs, fh));
    P.PagingEnds(s.cache, cs, fh, Room(next.x.request), F.ListDir(next.x.k, s'.fs, fh));
  }
}
