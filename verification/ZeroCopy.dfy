/**
 Serving one descriptor chain (vhost_user/server.rs): the generic path that gathers, dispatches and
 scatters, the zero-copy paths of WRITE and READ, and when the two kinds agree.
 */
module ZeroCopy {
  import opened Basics
  import opened Bytes
  import opened Memory
  import opened Segments
  import opened Chains
  import V = Virtqueue
  import W = Wire
  import F = Fs
  import I = Inodes
  import D = Dispatch

  const REQUEST_HEADER_LEN := 80

  /** Host store and session after a chain, and the length reported for it. */
  datatype Served = Served(host: seq<byte>, state: D.State, written: Result<u32, VqError>)

  /** Host store after a reply has been put in place, and the length reported for it. */
  datatype Replied = Replied(host: seq<byte>, written: Result<u32, VqError>) {
    function With(s: D.State): Served {
      Served(host, s, written)
    }
  }

  /** A reply scattered into the writable segments. */
  function Answered(x: Xlate, h: seq<byte>, segs: seq<Segment>, reply: seq<byte>): (r: Replied)
    requires InStore(x, |h|)
    ensures |r.host| == |h|
  {
    var (h', n) := Scatter(x, h, segs, reply);
    Replied(h', V.Wrapped(n))
  }

  function DispatchGeneric(k: F.Kernel, x: Xlate, h: seq<byte>, s: D.State, chain: DescChain): (r: Served)
    requires InStore(x, |h|)
    ensures |r.host| == |h|
  {
    match Gather(x, h, chain.readable)
    case Err(e) => Served(h, s, Err(e))
    case Ok(request) =>
      var (s', reply) := D.Handle(k, s, request);
      match reply
      case NoReply => Served(h, s', Ok(0))
      case Bytes(b) => Answered(x, h, chain.writable, b).With(s')
  }

  /** `pwritev` of the vector's bytes. */
  function WriteVectored(k: F.Kernel, h: seq<byte>, s: F.State, io: W.IoIn,
                         iov: seq<Iovec>): (r: (F.State, F.FsResult<nat>))
    requires IovFits(iov, |h|)
  {
    F.WriteFile(k, s, io.fh, io.offset, DrainIov(h, iov))
  }

  function WriteReply(unique: u64, r: F.FsResult<nat>): (b: seq<byte>) {
    match r
    case Ok(n) => W.Reply(unique, 0, D.WriteOut(n))
    case Err(e) => W.ErrorFor(unique, e)
  }

  /** `None` when the header does not parse and the generic path has to take over. */
  function TryWrite(k: F.Kernel, x: Xlate, h: seq<byte>, s: D.State, chain: DescChain,
                    prefix: seq<byte>): (r: Option<Served>)
    requires InStore(x, |h|)
    ensures r.Some? ==> |r.value.host| == |h|
  {
    if |prefix| < REQUEST_HEADER_LEN then None
    else
      var unique := W.ParseInHeader(prefix).value.unique;
      var w := W.ParseWriteIn(W.Body(prefix)).value.0;
      match Iovecs(x, chain.readable, REQUEST_HEADER_LEN, w.size)
      case Err(e) => Some(Served(h, s, Err(e)))
      case Ok(iov) =>
        IovecsWithin(x, chain.readable, REQUEST_HEADER_LEN, w.size, |h|);
        var (fs', r) := WriteVectored(k, h, s.fs, w, iov);
        Some(Answered(x, h, chain.writable, WriteReply(unique, r)).With(s.(fs := fs')))
  }

  function IovLen(iov: seq<Iovec>): (n: nat) {
    if iov == [] then 0 else iov[0].len + IovLen(iov[1..])
  }

  /** Data read straight into the vector, then the reply header in front of it. */
  function InPlace(x: Xlate, h: seq<byte>, segs: seq<Segment>, iov: seq<Iovec>, header: seq<byte>,
                   data: seq<byte>): (o: Replied)
    requires InStore(x, |h|) && IovFits(iov, |h|)
    ensures |o.host| == |h|
  {
    var o := Answered(x, FillIov(h, iov, data), segs, header);
    o.(written := match o.written case Err(e) => Err(e) case Ok(m) => Ok((m + |data|) % 0x1_0000_0000))
  }

  /** The reply to a read whose data is already in place: just the header, or an error. */
  function ReadReply(x: Xlate, h: seq<byte>, segs: seq<Segment>, unique: u64, iov: seq<Iovec>,
                     r: F.FsResult<seq<byte>>): (o: Replied)
    requires InStore(x, |h|) && IovFits(iov, |h|)
    ensures |o.host| == |h|
  {
    match r
    case Err(e) => Answered(x, h, segs, W.ErrorFor(unique, e))
    case Ok(data) =>
      InPlace(x, h, segs, iov, W.HeaderOnly(unique, (W.OUT_HEADER_LEN + |data|) % 0x1_0000_0000), data)
  }

  function TryRead(k: F.Kernel, x: Xlate, h: seq<byte>, s: D.State, chain: DescChain,
                   prefix: seq<byte>): (r: Option<Served>)
    requires InStore(x, |h|)
    ensures r.Some? ==> |r.value.host| == |h|
  {
    if |prefix| < W.IN_HEADER_LEN + 20 then None
    else
      var unique := W.ParseInHeader(prefix).value.unique;
      var io := W.ParseReadIn(W.Body(prefix)).value;
      var want := Min(io.size, Max(Capacity(chain.writable) - W.OUT_HEADER_LEN, 0));
      match Iovecs(x, chain.writable, W.OUT_HEADER_LEN, want)
      case Err(e) => Some(Served(h, s, Err(e)))
      case Ok(iov) =>
        IovecsWithin(x, chain.writable, W.OUT_HEADER_LEN, want, |h|);
        Some(ReadReply(x, h, chain.writable, unique, iov, F.ReadFile(k, s.fs, io.fh, io.offset, IovLen(iov))).With(s))
  }

  function PeekOpcode(prefix: seq<byte>): (op: W.Opcode) {
    if |prefix| < 8 then W.Unknown(0) else W.OpcodeFrom(Num(prefix, 4, 4))
  }

  /** The zero-copy path for the opcode in the prefix, if there is one and it applies. */
  function TryFast(k: F.Kernel, x: Xlate, h: seq<byte>, s: D.State, chain: DescChain,
                   prefix: seq<byte>): (r: Option<Served>)
    requires InStore(x, |h|)
    ensures r.Some? ==> |r.value.host| == |h|
  {
    var op := PeekOpcode(prefix);
    if op == W.Write then TryWrite(k, x, h, s, chain, prefix)
    else if op == W.Read then TryRead(k, x, h, s, chain, prefix)
    else None
  }

  function ServeChain(k: F.Kernel, x: Xlate, h: seq<byte>, s: D.State, chain: DescChain): (r: Served)
    requires InStore(x, |h|)
    ensures |r.host| == |h|
  {
    match GatherPrefix(x, h, chain.readable, REQUEST_HEADER_LEN)
    case Err(e) => Served(h, s, Err(e))
    case Ok(prefix) =>
      match TryFast(k, x, h, s, chain, prefix)
      case Some(r) => r
      case None => DispatchGeneric(k, x, h, s, chain)
  }

  // ---- What the bounded prefix tells about the whole request ----

  /** Parsing the first 80 bytes gives what parsing the whole request gives. */
  lemma {:induction false} PrefixParses(req: seq<byte>)
    ensures var p := req[..Min(REQUEST_HEADER_LEN, |req|)];
            && W.ParseInHeader(p) == W.ParseInHeader(req)
            && W.ParseReadIn(W.Body(p)) == W.ParseReadIn(W.Body(req))
            && (|req| >= 8 ==> |p| >= 8 && Num(p, 4, 4) == Num(req, 4, 4))
            && (|req| >= REQUEST_HEADER_LEN ==>
                  W.ParseWriteIn(W.Body(p)).value.0 == W.ParseWriteIn(W.Body(req)).value.0)
  {
    var n := Min(REQUEST_HEADER_LEN, |req|);
    if |req| >= 8 {
      NumOfPrefix(req, n, 4, 4);
    }
    if |req| >= W.IN_HEADER_LEN {
      HeaderOfPrefix(req, n);
      var b := req[W.IN_HEADER_LEN..];
      assert req[..n][W.IN_HEADER_LEN..] == b[..n - W.IN_HEADER_LEN];
      if |req| >= 60 {
        NumOfPrefix(b, n - 40, 0, 8);
        NumOfPrefix(b, n - 40, 8, 8);
        NumOfPrefix(b, n - 40, 16, 4);
      }
    }
  }

  lemma {:induction false} HeaderOfPrefix(req: seq<byte>, n: nat)
    requires W.IN_HEADER_LEN <= n <= |req|
    ensures W.ParseInHeader(req[..n]) == W.ParseInHeader(req)
  {
    NumOfPrefix(req, n, 0, 4);
    NumOfPrefix(req, n, 4, 4);
    NumOfPrefix(req, n, 8, 8);
    NumOfPrefix(req, n, 16, 8);
    NumOfPrefix(req, n, 24, 4);
    NumOfPrefix(req, n, 28, 4);
    NumOfPrefix(req, n, 32, 4);
  }

  /** What a mapped chain's bounded gather yields. */
  lemma {:induction false} PrefixOf(x: Xlate, h: seq<byte>, chain: DescChain)
    requires InStore(x, |h|) && Linear(x) && Mapped(x, chain.readable)
    ensures Gather(x, h, chain.readable).Ok?
    ensures var req := Gather(x, h, chain.readable).value;
            GatherPrefix(x, h, chain.readable, REQUEST_HEADER_LEN) == Ok(req[..Min(REQUEST_HEADER_LEN, |req|)])
  {
    GatherIsFlat(x, h, chain.readable);
    GatherPrefixIsPrefix(x, h, chain.readable, REQUEST_HEADER_LEN);
  }

  // ---- WRITE ----

  lemma {:induction false} AtSlice(h: seq<byte>, a: seq<nat>, lo: nat, hi: nat)
    requires Within(a, |h|) && lo <= hi <= |a|
    ensures Within(a[lo..hi], |h|) && At(h, a[lo..hi]) == At(h, a)[lo..hi]
  {
    var part := a[lo..hi];
    forall i | 0 <= i < |part|
      ensures At(h, part)[i] == At(h, a)[lo + i]
    {
    }
  }

  /** The vector of a mapped chain holds the request's bytes after the header, at most `size` of them. */
  lemma {:induction false} PayloadOf(x: Xlate, h: seq<byte>, segs: seq<Segment>, size: nat)
    requires InStore(x, |h|) && Linear(x) && Mapped(x, segs)
    ensures Gather(x, h, segs).Ok? && Iovecs(x, segs, REQUEST_HEADER_LEN, size).Ok?
    ensures var req := Gather(x, h, segs).value;
            var iov := Iovecs(x, segs, REQUEST_HEADER_LEN, size).value;
            && IovFits(iov, |h|)
            && DrainIov(h, iov) == req[Min(REQUEST_HEADER_LEN, |req|)..Min(REQUEST_HEADER_LEN + size, |req|)]
  {
    GatherIsFlat(x, h, segs);
    IovecsAreSlice(x, segs, REQUEST_HEADER_LEN, size);
    IovecsWithin(x, segs, REQUEST_HEADER_LEN, size, |h|);
    var iov := Iovecs(x, segs, REQUEST_HEADER_LEN, size).value;
    DrainIovIsAt(h, iov);
    var flat := Addrs(x, segs);
    AtSlice(h, flat, Min(REQUEST_HEADER_LEN, |flat|), Min(REQUEST_HEADER_LEN + size, |flat|));
  }

  /** The fast WRITE path is taken exactly when the generic path would parse the request. */
  lemma {:induction false} WriteTakesFastPath(k: F.Kernel, x: Xlate, h: seq<byte>, s: D.State, chain: DescChain,
                                              req: seq<byte>)
    requires InStore(x, |h|) && Linear(x) && Gather(x, h, chain.readable) == Ok(req)
    ensures GatherPrefix(x, h, chain.readable, REQUEST_HEADER_LEN).Ok?
    ensures TryWrite(k, x, h, s, chain, GatherPrefix(x, h, chain.readable, REQUEST_HEADER_LEN).value).Some?
            <==> W.ParseInHeader(req).Some? && W.ParseWriteIn(W.Body(req)).Some?
  {
    GatherIsFlat(x, h, chain.readable);
    PrefixOf(x, h, chain);
  }

  /** A WRITE request as the generic path serves it. */
  lemma {:induction false} GenericWrite(k: F.Kernel, x: Xlate, h: seq<byte>, s: D.State, chain: DescChain,
                                        req: seq<byte>, io: W.IoIn, data: seq<byte>)
    requires InStore(x, |h|) && Gather(x, h, chain.readable) == Ok(req)
    requires |req| >= REQUEST_HEADER_LEN && Num(req, 4, 4) == 16
    requires W.ParseWriteIn(W.Body(req)) == Some((io, data))
    ensures var (fs', r) := F.WriteFile(k, s.fs, io.fh, io.offset, data[..Min(io.size, |data|)]);
            DispatchGeneric(k, x, h, s, chain)
            == Answered(x, h, chain.writable, WriteReply(W.ParseInHeader(req).value.unique, r)).With(s.(fs := fs'))
  {
  }

  lemma {:induction false} FastWrite(k: F.Kernel, x: Xlate, h: seq<byte>, s: D.State, chain: DescChain,
                                     req: seq<byte>, io: W.IoIn, data: seq<byte>)
    requires InStore(x, |h|) && Linear(x) && Mapped(x, chain.readable)
    requires Gather(x, h, chain.readable) == Ok(req) && |req| >= REQUEST_HEADER_LEN
    requires W.ParseWriteIn(W.Body(req)) == Some((io, data))
    ensures var (fs', r) := F.WriteFile(k, s.fs, io.fh, io.offset, data[..Min(io.size, |data|)]);
            TryWrite(k, x, h, s, chain, req[..REQUEST_HEADER_LEN])
            == Some(Answered(x, h, chain.writable,
                             WriteReply(W.ParseInHeader(req).value.unique, r)).With(s.(fs := fs')))
  {
    PrefixParses(req);
    PayloadOf(x, h, chain.readable, io.size);
    var iov := Iovecs(x, chain.readable, REQUEST_HEADER_LEN, io.size).value;
    assert DrainIov(h, iov) == data[..Min(io.size, |data|)];
  }

  /**
   Zero-copy WRITE is the generic WRITE: on every chain whose request is mapped, wherever header and
   payload fall relative to descriptor boundaries, the two paths leave the same memory, the same
   session and the same reported length. The writable side may be anything.
   */
  lemma {:induction false} WriteRefines(k: F.Kernel, x: Xlate, h: seq<byte>, s: D.State, chain: DescChain,
                                        req: seq<byte>)
    requires InStore(x, |h|) && Linear(x) && Mapped(x, chain.readable)
    requires Gather(x, h, chain.readable) == Ok(req) && |req| >= REQUEST_HEADER_LEN
    requires Num(req, 4, 4) == 16
    ensures TryWrite(k, x, h, s, chain, req[..REQUEST_HEADER_LEN]) == Some(DispatchGeneric(k, x, h, s, chain))
  {
    var (io, data) := W.ParseWriteIn(W.Body(req)).value;
    GenericWrite(k, x, h, s, chain, req, io, data);
    FastWrite(k, x, h, s, chain, req, io, data);
  }

  // ---- READ ----

  lemma {:induction false} IovLenIsCount(iov: seq<Iovec>)
    ensures IovLen(iov) == |IovAddrs(iov)|
  {
    if iov != [] {
      IovLenIsCount(iov[1..]);
    }
  }

  /** The order of two adjacent writes to disjoint places does not matter. */
  lemma {:induction false} WroteSwap(h: seq<byte>, h': seq<byte>, a: seq<nat>, d: seq<byte>, b: seq<nat>, e: seq<byte>)
    requires |a| == |d| && |b| == |e| && Wrote(h, h', a + b, d + e)
    ensures Wrote(h, h', b + a, e + d)
  {
    forall j | 0 <= j < |a| + |b|
      ensures (b + a)[j] < |h| && h'[(b + a)[j]] == (e + d)[j]
    {
      var i := if j < |b| then |a| + j else j - |b|;
      assert (a + b)[i] == (b + a)[j] && (d + e)[i] == (e + d)[j];
    }
    forall i | 0 <= i < |h| && i !in b + a
      ensures h'[i] == h[i]
    {
      assert i !in a + b;
    }
  }

  /** The data vector of a read: exactly the `want` host bytes after the reply header. */
  lemma {:induction false} ReadVector(x: Xlate, segs: seq<Segment>, want: nat, hostLen: nat)
    requires InStore(x, hostLen) && Linear(x) && Mapped(x, segs)
    requires want == 0 || W.OUT_HEADER_LEN + want <= Capacity(segs)
    ensures Iovecs(x, segs, W.OUT_HEADER_LEN, want).Ok?
    ensures var iov := Iovecs(x, segs, W.OUT_HEADER_LEN, want).value;
            && IovFits(iov, hostLen) && IovLen(iov) == want
            && IovAddrs(iov) == Addrs(x, segs)[Min(W.OUT_HEADER_LEN, Capacity(segs))..][..want]
  {
    IovecsAreSlice(x, segs, W.OUT_HEADER_LEN, want);
    IovecsWithin(x, segs, W.OUT_HEADER_LEN, want, hostLen);
    IovLenIsCount(Iovecs(x, segs, W.OUT_HEADER_LEN, want).value);
  }

  lemma {:induction false} DistinctParts(flat: seq<nat>, lo: nat, n: nat)
    requires Distinct(flat) && lo + n <= |flat|
    ensures Distinct(flat[lo..][..n]) && Distinct(flat[lo..][..n] + flat[..lo])
  {
    var a, b := flat[lo..][..n], flat[..lo];
    forall i: nat, j: nat
      ensures Differ(a + b, i, j) && Differ(a, i, j)
    {
      if i < j < |a + b| {
        var i', j' := if i < n then lo + i else i - n, if j < n then lo + j else j - n;
        assert flat[i'] == (a + b)[i] && flat[j'] == (a + b)[j];
        assert Differ(flat, Min(i', j'), Max(i', j'));
      }
    }
  }

  /** Data put in place first and the header written afterwards make the reply written in order. */
  lemma {:induction false} HeaderLast(h: seq<byte>, h1: seq<byte>, h2: seq<byte>, h3: seq<byte>, flat: seq<nat>,
                                      m: nat, header: seq<byte>, data: seq<byte>)
    requires Distinct(flat) && m == |header| && m + |data| <= |flat|
    requires Wrote(h, h1, flat[m..][..|data|], data)
    requires Wrote(h1, h2, flat[..m], header)
    requires Wrote(h, h3, flat[..m + |data|], header + data)
    ensures h2 == h3
  {
    var a, b := flat[m..][..|data|], flat[..m];
    DistinctParts(flat, m, |data|);
    WroteThen(h, h1, h2, a, data, b, header);
    WroteSwap(h, h2, a, data, b, header);
    assert flat[..m + |data|] == b + a;
    WroteUnique(h, h2, h3, b + a, header + data);
  }

  lemma {:induction false} FillSlice(h: seq<byte>, flat: seq<nat>, iov: seq<Iovec>, m: nat, data: seq<byte>)
    requires Distinct(flat) && IovFits(iov, |h|) && m + |IovAddrs(iov)| <= |flat| && |data| <= |IovAddrs(iov)|
    requires IovAddrs(iov) == flat[m..][..|IovAddrs(iov)|]
    ensures Wrote(h, FillIov(h, iov, data), flat[m..][..|data|], data)
  {
    DistinctParts(flat, m, |IovAddrs(iov)|);
    FillIovWrites(h, iov, data);
    assert IovAddrs(iov)[..|data|] == flat[m..][..|data|];
  }

  lemma {:induction false} ScatterReply(x: Xlate, h: seq<byte>, segs: seq<Segment>, flat: seq<nat>, header: seq<byte>,
                                        data: seq<byte>, m: nat)
    requires InStore(x, |h|) && Linear(x) && Mapped(x, segs) && flat == Addrs(x, segs) && Distinct(flat)
    requires m == Min(|header|, |flat|) && m + |data| <= |flat| && (data == [] || m == |header|)
    ensures Scatter(x, h, segs, header + data).1 == Ok(m + |data|)
    ensures Wrote(h, Scatter(x, h, segs, header + data).0, flat[..m + |data|], header[..m] + data)
  {
    ScatterWrites(x, h, segs, header + data);
    assert (header + data)[..m + |data|] == header[..m] + data;
  }

  lemma {:induction false} FillThenScatter(x: Xlate, h: seq<byte>, segs: seq<Segment>, flat: seq<nat>,
                                           iov: seq<Iovec>, header: seq<byte>, data: seq<byte>, m: nat)
    requires InStore(x, |h|) && Linear(x) && Mapped(x, segs) && flat == Addrs(x, segs) && Distinct(flat)
    requires m == Min(|header|, |flat|) && IovFits(iov, |h|)
    requires |data| <= |IovAddrs(iov)| <= |flat| - m && (data == [] || m == |header|)
    requires IovAddrs(iov) == flat[m..][..|IovAddrs(iov)|]
    ensures Scatter(x, FillIov(h, iov, data), segs, header) == (Scatter(x, h, segs, header + data).0, Ok(m))
    ensures Scatter(x, h, segs, header + data).1 == Ok(m + |data|)
  {
    var h1 := FillIov(h, iov, data);
    var h2 := Scatter(x, h1, segs, header);
    var h3 := Scatter(x, h, segs, header + data);
    assert Wrote(h, h1, flat[m..][..|data|], data) by {
      FillSlice(h, flat, iov, m, data);
    }
    assert h2.1 == Ok(m) && Wrote(h1, h2.0, flat[..m], header[..m]) by {
      ScatterReply(x, h1, segs, flat, header, [], m);
      assert header + [] == header && header[..m] + [] == header[..m];
    }
    assert h3.1 == Ok(m + |data|) && Wrote(h, h3.0, flat[..m + |data|], header[..m] + data) by {
      ScatterReply(x, h, segs, flat, header, data, m);
    }
    HeaderLast(h, h1, h2.0, h3.0, flat, m, header[..m], data);
  }

  /** Nothing fits, so nothing is written. */
  lemma {:induction false} NoRoom(x: Xlate, h: seq<byte>, segs: seq<Segment>, data: seq<byte>)
    requires InStore(x, |h|) && Linear(x) && Mapped(x, segs) && Capacity(segs) == 0
    ensures Scatter(x, h, segs, data) == (h, Ok(0))
  {
    WholeIovAddrs(x, segs, |h|);
    ScatterIsFill(x, h, segs, data);
    FillNothing(h, WholeIov(x, segs));
  }

  /** The writable space takes the whole reply, or there is nothing to hand over. */
  predicate RoomFor(size: nat, capacity: nat) {
    capacity == 0 || size == 0 || W.OUT_HEADER_LEN + size <= capacity
  }

  /** The reply bytes of the generic READ. */
  function ReadBytes(unique: u64, r: F.FsResult<seq<byte>>): (b: seq<byte>) {
    match r
    case Err(e) => W.ErrorFor(unique, e)
    case Ok(data) => W.Reply(unique, 0, data)
  }

  lemma {:induction false} SmallCount(n: nat)
    requires n < 0x1_0000_0000
    ensures V.Wrapped(Ok(n)) == Ok(n) && n % 0x1_0000_0000 == n
  {
  }

  lemma {:induction false} InPlaceIsAnswered(x: Xlate, h: seq<byte>, segs: seq<Segment>, iov: seq<Iovec>, want: nat,
                                             header: seq<byte>, data: seq<byte>)
    requires InStore(x, |h|) && Linear(x) && Mapped(x, segs) && Distinct(Addrs(x, segs))
    requires want == 0 || W.OUT_HEADER_LEN + want <= Capacity(segs)
    requires Iovecs(x, segs, W.OUT_HEADER_LEN, want) == Ok(iov) && IovFits(iov, |h|)
    requires |header| == W.OUT_HEADER_LEN && |data| <= want && |data| <= F.MAX_RW
    ensures InPlace(x, h, segs, iov, header, data) == Answered(x, h, segs, header + data)
  {
    var m := Min(W.OUT_HEADER_LEN, Capacity(segs));
    var h1 := FillIov(h, iov, data);
    assert Scatter(x, h1, segs, header) == (Scatter(x, h, segs, header + data).0, Ok(m))
           && Scatter(x, h, segs, header + data).1 == Ok(m + |data|) by {
      ReadVector(x, segs, want, |h|);
      IovLenIsCount(iov);
      FillThenScatter(x, h, segs, Addrs(x, segs), iov, header, data, m);
    }
    SmallCount(m);
    SmallCount(m + |data|);
  }

  lemma {:induction false} ReadReplyIsGeneric(x: Xlate, h: seq<byte>, segs: seq<Segment>, unique: u64,
                                              iov: seq<Iovec>, want: nat, r: F.FsResult<seq<byte>>)
    requires InStore(x, |h|) && Linear(x) && Mapped(x, segs) && Distinct(Addrs(x, segs))
    requires want == 0 || W.OUT_HEADER_LEN + want <= Capacity(segs)
    requires Iovecs(x, segs, W.OUT_HEADER_LEN, want) == Ok(iov) && IovFits(iov, |h|)
    requires r.Ok? ==> |r.value| <= want && |r.value| <= F.MAX_RW
    ensures ReadReply(x, h, segs, unique, iov, r) == Answered(x, h, segs, ReadBytes(unique, r))
  {
    if r.Ok? {
      W.HeaderOnlyIsReplyHeader(unique, r.value);
      var header := W.HeaderOnly(unique, (W.OUT_HEADER_LEN + |r.value|) % 0x1_0000_0000);
      InPlaceIsAnswered(x, h, segs, iov, want, header, r.value);
    }
  }

  /** A READ request as the generic path serves it. */
  lemma {:induction false} GenericRead(k: F.Kernel, x: Xlate, h: seq<byte>, s: D.State, chain: DescChain,
                                       req: seq<byte>, io: W.IoIn)
    requires InStore(x, |h|) && Gather(x, h, chain.readable) == Ok(req)
    requires |req| >= 60 && Num(req, 4, 4) == 15 && W.ParseReadIn(W.Body(req)) == Some(io)
    ensures DispatchGeneric(k, x, h, s, chain)
            == Answered(x, h, chain.writable,
                        ReadBytes(W.ParseInHeader(req).value.unique,
                                  F.ReadFile(k, s.fs, io.fh, io.offset, io.size))).With(s)
  {
  }

  lemma {:induction false} FastRead(k: F.Kernel, x: Xlate, h: seq<byte>, s: D.State, chain: DescChain, req: seq<byte>,
                                    io: W.IoIn, want: nat)
    requires InStore(x, |h|) && Linear(x) && Mapped(x, chain.writable) && Distinct(Addrs(x, chain.writable))
    requires |req| >= 60 && W.ParseReadIn(W.Body(req)) == Some(io)
    requires want == Min(io.size, Max(Capacity(chain.writable) - W.OUT_HEADER_LEN, 0))
    ensures TryRead(k, x, h, s, chain, req[..Min(REQUEST_HEADER_LEN, |req|)])
            == Some(Answered(x, h, chain.writable,
                             ReadBytes(W.ParseInHeader(req).value.unique,
                                       F.ReadFile(k, s.fs, io.fh, io.offset, want))).With(s))
  {
    PrefixParses(req);
    ReadVector(x, chain.writable, want, |h|);
    var iov := Iovecs(x, chain.writable, W.OUT_HEADER_LEN, want).value;
    ReadReplyIsGeneric(x, h, chain.writable, W.ParseInHeader(req).value.unique, iov, want,
                       F.ReadFile(k, s.fs, io.fh, io.offset, want));
  }

  lemma {:induction false} ReadRefines(k: F.Kernel, x: Xlate, h: seq<byte>, s: D.State, chain: DescChain,
                                       req: seq<byte>, io: W.IoIn)
    requires InStore(x, |h|) && Linear(x) && Mapped(x, chain.writable) && Distinct(Addrs(x, chain.writable))
    requires Gather(x, h, chain.readable) == Ok(req) && |req| >= 60
    requires Num(req, 4, 4) == 15 && W.ParseReadIn(W.Body(req)) == Some(io)
    requires RoomFor(io.size, Capacity(chain.writable))
    ensures TryRead(k, x, h, s, chain, req[..Min(REQUEST_HEADER_LEN, |req|)])
            == Some(DispatchGeneric(k, x, h, s, chain))
  {
    var segs := chain.writable;
    var want := Min(io.size, Max(Capacity(segs) - W.OUT_HEADER_LEN, 0));
    FastRead(k, x, h, s, chain, req, io, want);
    GenericRead(k, x, h, s, chain, req, io);
    if Capacity(segs) == 0 {
      var unique := W.ParseInHeader(req).value.unique;
      NoRoom(x, h, segs, ReadBytes(unique, F.ReadFile(k, s.fs, io.fh, io.offset, want)));
      NoRoom(x, h, segs, ReadBytes(unique, F.ReadFile(k, s.fs, io.fh, io.offset, io.size)));
    }
  }

  // ---- When serving a chain is the same as the generic path ----

  /** Not a READ that parses, or one whose offset is refused or whose reply the writable space can take. */
  predicate ReadFits(req: seq<byte>, capacity: nat) {
    |req| >= 60 && Num(req, 4, 4) == 15 && Num(req, 48, 8) < F.OFF_LIMIT ==>
      RoomFor(Num(req, 56, 4), capacity)
  }

  lemma {:induction false} ReadFields(req: seq<byte>)
    requires |req| >= 60
    ensures var io := W.ParseReadIn(W.Body(req)).value;
            io.fh == Num(req, 40, 8) && io.offset == Num(req, 48, 8) && io.size == Num(req, 56, 4)
    ensures |req| >= 80 ==> W.ParseWriteIn(W.Body(req)) == Some((W.ParseReadIn(W.Body(req)).value, req[80..]))
  {
    var b := W.Body(req);
    assert b[0..8] == req[40..48] && b[8..16] == req[48..56] && b[16..20] == req[56..60];
    if |req| >= 80 {
      assert b[40..] == req[80..];
    }
  }

  /** WRITE is 16 and takes its path from 80 bytes on, READ is 15 and takes its from 60 on; all else is generic. */
  lemma {:induction false} ServePaths(k: F.Kernel, x: Xlate, h: seq<byte>, s: D.State, chain: DescChain, req: seq<byte>)
    requires InStore(x, |h|) && Linear(x) && Gather(x, h, chain.readable) == Ok(req)
    ensures Mapped(x, chain.readable)
    ensures var prefix := req[..Min(REQUEST_HEADER_LEN, |req|)];
            ServeChain(k, x, h, s, chain) ==
            if |req| >= 80 && Num(req, 4, 4) == 16 then TryWrite(k, x, h, s, chain, prefix).value
            else if |req| >= 60 && Num(req, 4, 4) == 15 then TryRead(k, x, h, s, chain, prefix).value
            else DispatchGeneric(k, x, h, s, chain)
  {
    PrefixPicks(x, h, chain, req);
    PeekedCode(req);
  }

  lemma {:induction false} PeekedCode(req: seq<byte>)
    ensures PeekOpcode(req) == W.Read <==> |req| >= 8 && Num(req, 4, 4) == 15
    ensures PeekOpcode(req) == W.Write <==> |req| >= 8 && Num(req, 4, 4) == 16
  {
  }

  lemma {:induction false} ServeRefines(k: F.Kernel, x: Xlate, h: seq<byte>, s: D.State, chain: DescChain,
                                        req: seq<byte>)
    requires InStore(x, |h|) && Linear(x) && Gather(x, h, chain.readable) == Ok(req)
    requires Mapped(x, chain.writable) && Distinct(Addrs(x, chain.writable))
    requires ReadFits(req, Capacity(chain.writable))
    ensures ServeChain(k, x, h, s, chain) == DispatchGeneric(k, x, h, s, chain)
  {
    ServePaths(k, x, h, s, chain, req);
    if |req| >= REQUEST_HEADER_LEN && Num(req, 4, 4) == 16 {
      WriteRefines(k, x, h, s, chain, req);
    } else if |req| >= 60 && Num(req, 4, 4) == 15 {
      ReadFields(req);
      var io := W.ParseReadIn(W.Body(req)).value;
      if io.offset < F.OFF_LIMIT {
        ReadRefines(k, x, h, s, chain, req, io);
      } else {
        RefusedRead(k, x, h, s, chain, req, io);
      }
    }
  }

  /** At an offset the kernel refuses both paths answer with the same error. */
  lemma {:induction false} RefusedRead(k: F.Kernel, x: Xlate, h: seq<byte>, s: D.State, chain: DescChain,
                                       req: seq<byte>, io: W.IoIn)
    requires InStore(x, |h|) && Linear(x) && Gather(x, h, chain.readable) == Ok(req)
    requires Mapped(x, chain.writable) && Distinct(Addrs(x, chain.writable))
    requires |req| >= 60 && Num(req, 4, 4) == 15 && W.ParseReadIn(W.Body(req)) == Some(io)
    requires io.offset >= F.OFF_LIMIT
    ensures ServeChain(k, x, h, s, chain) == DispatchGeneric(k, x, h, s, chain)
  {
    var want := Min(io.size, Max(Capacity(chain.writable) - W.OUT_HEADER_LEN, 0));
    SameRefusal(k, s.fs, io, want, io.size);
    ReadPaths(k, x, h, s, chain, req, io, want);
  }

  lemma {:induction false} SameRefusal(k: F.Kernel, s: F.State, io: W.IoIn, m: nat, n: nat)
    requires io.offset >= F.OFF_LIMIT
    ensures F.ReadFile(k, s, io.fh, io.offset, m) == F.ReadFile(k, s, io.fh, io.offset, n)
  {
  }

  /** The prefix gather yields the start of the request, and the opcode peeked there is the request's own. */
  lemma {:induction false} PrefixPicks(x: Xlate, h: seq<byte>, chain: DescChain, req: seq<byte>)
    requires InStore(x, |h|) && Linear(x) && Gather(x, h, chain.readable) == Ok(req)
    ensures Mapped(x, chain.readable)
    ensures GatherPrefix(x, h, chain.readable, REQUEST_HEADER_LEN) == Ok(req[..Min(REQUEST_HEADER_LEN, |req|)])
    ensures PeekOpcode(req[..Min(REQUEST_HEADER_LEN, |req|)]) == PeekOpcode(req)
  {
    GatherIsFlat(x, h, chain.readable);
    PrefixOf(x, h, chain);
    if |req| >= 8 {
      NumOfPrefix(req, Min(REQUEST_HEADER_LEN, |req|), 4, 4);
    }
  }

  /** A kernel that serves a read of `size` bytes with two and any other with one. */
  function Grudging(size: nat): (k: F.Kernel) {
    F.Kernel((_: F.Sys) => None, (c: F.Sys) => if c == F.Pread(size) then 2 else 1,
             I.FileKey(0, 0), I.Regular, [], [], [], [])
  }

  /** A session with a file open as `fh` that ends two bytes after `offset`. */
  function OpenAt(fh: nat, offset: nat): (s: D.State) {
    var key := I.FileKey(0, 1);
    D.State(F.Raw(I.InitTable(I.FileKey(0, 0)), F.Handles(map[fh := F.File(key)], fh + 1),
                  F.Host(map[], map[key := seq(offset + 2, i => 0)])), map[])
  }

  lemma {:induction false} GrudgingRead(size: nat, fh: nat, offset: nat, len: nat)
    requires offset < F.OFF_LIMIT
    ensures var r := F.ReadFile(Grudging(size), OpenAt(fh, offset).fs, fh, offset, len);
            r.Ok? && |r.value| == if len == 0 then 0 else if len == size then Min(2, size) else 1
  {
  }

  lemma {:induction false} FirstByte(x: Xlate, h: seq<byte>, segs: seq<Segment>, reply: seq<byte>)
    requires InStore(x, |h|) && Linear(x) && Mapped(x, segs) && Distinct(Addrs(x, segs)) && Capacity(segs) > 0
    requires reply != []
    ensures Addrs(x, segs)[0] < |h| && Scatter(x, h, segs, reply).0[Addrs(x, segs)[0]] == reply[0]
  {
    ScatterWrites(x, h, segs, reply);
    var n := Min(|reply|, Capacity(segs));
    assert Addrs(x, segs)[..n][0] == Addrs(x, segs)[0] && reply[..n][0] == reply[0];
  }

  lemma {:induction false} LengthByte(unique: u64, data: seq<byte>)
    requires |data| <= 2
    ensures W.Reply(unique, 0, data) != [] && W.Reply(unique, 0, data)[0] == W.OUT_HEADER_LEN + |data|
  {
    assert W.Reply(unique, 0, data)[0] == Le(W.OUT_HEADER_LEN + |data|, 4)[0] == Digit(W.OUT_HEADER_LEN + |data|, 0);
  }

  /** Replies of different short lengths leave different memory: their length fields differ. */
  lemma {:induction false} LengthShows(x: Xlate, h: seq<byte>, segs: seq<Segment>, unique: u64, a: seq<byte>,
                                       b: seq<byte>)
    requires InStore(x, |h|) && Linear(x) && Mapped(x, segs) && Distinct(Addrs(x, segs)) && Capacity(segs) > 0
    requires |a| <= 2 && |b| <= 2 && |a| != |b|
    ensures Answered(x, h, segs, W.Reply(unique, 0, a)).host != Answered(x, h, segs, W.Reply(unique, 0, b)).host
  {
    LengthByte(unique, a);
    LengthByte(unique, b);
    FirstByte(x, h, segs, W.Reply(unique, 0, a));
    FirstByte(x, h, segs, W.Reply(unique, 0, b));
  }

  lemma {:induction false} OversizedRead(req: seq<byte>, capacity: nat) returns (io: W.IoIn, want: nat)
    requires !ReadFits(req, capacity)
    ensures |req| >= 60 && Num(req, 4, 4) == 15 && W.ParseReadIn(W.Body(req)) == Some(io)
    ensures want == Min(io.size, Max(capacity - W.OUT_HEADER_LEN, 0)) && want < io.size && capacity > 0
    ensures io.offset < F.OFF_LIMIT
  {
    ReadFields(req);
    io := W.ParseReadIn(W.Body(req)).value;
    want := Min(io.size, Max(capacity - W.OUT_HEADER_LEN, 0));
  }

  lemma {:induction false} ShortAnswers(x: Xlate, h: seq<byte>, segs: seq<Segment>, unique: u64, io: W.IoIn, want: nat)
    returns (k: F.Kernel, s: D.State, few: Replied, more: Replied)
    requires InStore(x, |h|) && Linear(x) && Mapped(x, segs) && Distinct(Addrs(x, segs)) && Capacity(segs) > 0
    requires want < io.size && io.offset < F.OFF_LIMIT
    ensures few == Answered(x, h, segs, ReadBytes(unique, F.ReadFile(k, s.fs, io.fh, io.offset, want)))
    ensures more == Answered(x, h, segs, ReadBytes(unique, F.ReadFile(k, s.fs, io.fh, io.offset, io.size)))
    ensures few.host != more.host
  {
    k, s := Grudging(io.size), OpenAt(io.fh, io.offset);
    GrudgingRead(io.size, io.fh, io.offset, want);
    GrudgingRead(io.size, io.fh, io.offset, io.size);
    LengthShows(x, h, segs, unique, F.ReadFile(k, s.fs, io.fh, io.offset, want).value,
                F.ReadFile(k, s.fs, io.fh, io.offset, io.size).value);
    few := Answered(x, h, segs, ReadBytes(unique, F.ReadFile(k, s.fs, io.fh, io.offset, want)));
    more := Answered(x, h, segs, ReadBytes(unique, F.ReadFile(k, s.fs, io.fh, io.offset, io.size)));
  }

  /** Either path answers with what one read returned; only how much they ask for may differ. */
  lemma {:induction false} ReadPaths(k: F.Kernel, x: Xlate, h: seq<byte>, s: D.State, chain: DescChain,
                                     req: seq<byte>, io: W.IoIn, want: nat)
    requires InStore(x, |h|) && Linear(x) && Gather(x, h, chain.readable) == Ok(req)
    requires Mapped(x, chain.writable) && Distinct(Addrs(x, chain.writable))
    requires |req| >= 60 && Num(req, 4, 4) == 15 && W.ParseReadIn(W.Body(req)) == Some(io)
    requires want == Min(io.size, Max(Capacity(chain.writable) - W.OUT_HEADER_LEN, 0))
    ensures var unique := W.ParseInHeader(req).value.unique;
            && ServeChain(k, x, h, s, chain)
               == Answered(x, h, chain.writable, ReadBytes(unique, F.ReadFile(k, s.fs, io.fh, io.offset, want))).With(s)
            && DispatchGeneric(k, x, h, s, chain)
               == Answered(x, h, chain.writable,
                           ReadBytes(unique, F.ReadFile(k, s.fs, io.fh, io.offset, io.size))).With(s)
  {
    ServePaths(k, x, h, s, chain, req);
    FastRead(k, x, h, s, chain, req, io, want);
    GenericRead(k, x, h, s, chain, req, io);
  }

  lemma {:induction false} PathsDiffer(k: F.Kernel, x: Xlate, h: seq<byte>, s: D.State, chain: DescChain,
                                       req: seq<byte>, io: W.IoIn, want: nat, few: Replied, more: Replied)
    requires InStore(x, |h|) && Linear(x) && Gather(x, h, chain.readable) == Ok(req)
    requires Mapped(x, chain.writable) && Distinct(Addrs(x, chain.writable))
    requires |req| >= 60 && Num(req, 4, 4) == 15 && W.ParseReadIn(W.Body(req)) == Some(io)
    requires want == Min(io.size, Max(Capacity(chain.writable) - W.OUT_HEADER_LEN, 0))
    requires var unique := W.ParseInHeader(req).value.unique;
             && few == Answered(x, h, chain.writable, ReadBytes(unique, F.ReadFile(k, s.fs, io.fh, io.offset, want)))
             && more == Answered(x, h, chain.writable,
                                 ReadBytes(unique, F.ReadFile(k, s.fs, io.fh, io.offset, io.size)))
    requires few.host != more.host
    ensures ServeChain(k, x, h, s, chain) != DispatchGeneric(k, x, h, s, chain)
  {
    ReadPaths(k, x, h, s, chain, req, io, want);
  }

  /** A READ asking for more than the writable space takes can be told apart from the generic READ. */
  lemma {:induction false} ShortReadDiffers(x: Xlate, h: seq<byte>, chain: DescChain,
                                            req: seq<byte>) returns (k: F.Kernel, s: D.State)
    requires InStore(x, |h|) && Linear(x) && Gather(x, h, chain.readable) == Ok(req)
    requires Mapped(x, chain.writable) && Distinct(Addrs(x, chain.writable))
    requires !ReadFits(req, Capacity(chain.writable))
    ensures ServeChain(k, x, h, s, chain) != DispatchGeneric(k, x, h, s, chain)
  {
    var io, want := OversizedRead(req, Capacity(chain.writable));
    var few, more;
    k, s, few, more := ShortAnswers(x, h, chain.writable, W.ParseInHeader(req).value.unique, io, want);
    PathsDiffer(k, x, h, s, chain, req, io, want, few, more);
  }

  /**
   Serving a chain gives what the generic path gives, whatever the file system holds and the kernel
   answers, exactly when the request is not a READ, at an offset the kernel accepts, asking for more
   than the writable space takes.
   */
  lemma {:induction false} ServeExact(x: Xlate, h: seq<byte>, chain: DescChain, req: seq<byte>)
    requires InStore(x, |h|) && Linear(x) && Gather(x, h, chain.readable) == Ok(req)
    requires Mapped(x, chain.writable) && Distinct(Addrs(x, chain.writable))
    ensures (forall k: F.Kernel, s: D.State :: ServeChain(k, x, h, s, chain) == DispatchGeneric(k, x, h, s, chain))
            <==> ReadFits(req, Capacity(chain.writable))
  {
    if ReadFits(req, Capacity(chain.writable)) {
      forall k: F.Kernel, s: D.State
        ensures ServeChain(k, x, h, s, chain) == DispatchGeneric(k, x, h, s, chain)
      {
        ServeRefines(k, x, h, s, chain, req);
      }
    } else {
      var k, s := ShortReadDiffers(x, h, chain, req);
    }
  }

  // ---- What the generic path delivers ----

  /**
   The generic path, from buffers to buffers: the request is what the readable segments hold, the session
   becomes what handling it makes of it, and the reply is at the start of the writable segments, as much
   of it as fits and as much as is reported. Without a reply nothing is written and 0 is reported.
   */
  lemma {:induction false} GenericDelivers(k: F.Kernel, x: Xlate, h: seq<byte>, s: D.State, chain: DescChain,
                                           req: seq<byte>)
    requires InStore(x, |h|) && Linear(x) && Gather(x, h, chain.readable) == Ok(req)
    requires Mapped(x, chain.writable) && Distinct(Addrs(x, chain.writable))
    ensures var r, (s', reply) := DispatchGeneric(k, x, h, s, chain), D.Handle(k, s, req);
            && r.state == s'
            && (match reply
                case NoReply => r.host == h && r.written == Ok(0)
                case Bytes(b) =>
                  |b| < 0x1_0000_0000 ==>
                    && r.written == Ok(Min(|b|, Capacity(chain.writable))) && Gather(x, r.host, chain.writable).Ok?
                    && var n, got := r.written.value, Gather(x, r.host, chain.writable).value;
                       n <= |got| && got[..n] == b[..n])
  {
    match D.Handle(k, s, req).1
    case NoReply =>
    case Bytes(b) =>
      if |b| < 0x1_0000_0000 {
        Delivers(x, h, chain.writable, b);
      }
  }

  lemma {:induction false} Delivers(x: Xlate, h: seq<byte>, segs: seq<Segment>, b: seq<byte>)
    requires InStore(x, |h|) && Linear(x) && Mapped(x, segs) && Distinct(Addrs(x, segs)) && |b| < 0x1_0000_0000
    ensures var a, n := Answered(x, h, segs, b), Min(|b|, Capacity(segs));
            && a.written == Ok(n) && Gather(x, a.host, segs).Ok?
            && n <= |Gather(x, a.host, segs).value| && Gather(x, a.host, segs).value[..n] == b[..n]
  {
    ScatterWrites(x, h, segs, b);
    ScatterThenGather(x, h, segs, b);
    SmallCount(Min(|b|, Capacity(segs)));
  }

  // ---- Announced and delivered lengths ----

  /** The length field the driver finds at the start of its buffers. */
  ghost function Announced(x: Xlate, h: seq<byte>, segs: seq<Segment>): (n: nat)
    requires InStore(x, |h|) && Gather(x, h, segs).Ok? && Capacity(segs) >= 4
  {
    Num(Gather(x, h, segs).value, 0, 4)
  }

  /** A reply announces its whole length, and what fits of it is delivered. */
  lemma {:induction false} AnsweredLengths(x: Xlate, h: seq<byte>, segs: seq<Segment>, unique: u64, error: int,
                                           body: seq<byte>)
    requires InStore(x, |h|) && Linear(x) && Mapped(x, segs) && Distinct(Addrs(x, segs)) && Capacity(segs) >= 4
    requires -125 <= error <= 0 && W.OUT_HEADER_LEN + |body| < 0x1_0000_0000
    ensures var reply := W.Reply(unique, error, body);
            var a := Answered(x, h, segs, reply);
            && a.written == Ok(Min(|reply|, Capacity(segs)))
            && Gather(x, a.host, segs).Ok? && Announced(x, a.host, segs) == |reply|
  {
    var reply := W.Reply(unique, error, body);
    W.ReplyIsWellFormed(unique, error, body);
    ScatterWrites(x, h, segs, reply);
    ScatterThenGather(x, h, segs, reply);
    SmallCount(Min(|reply|, Capacity(segs)));
    var n, got := Min(|reply|, Capacity(segs)), Gather(x, Scatter(x, h, segs, reply).0, segs).value;
    assert got[0..4] == reply[..n][0..4] == reply[0..4];
  }

  /** Zero-copy READ announces what it delivers, whatever the kernel answers, if the header fits. */
  lemma {:induction false} FastLengthTrue(k: F.Kernel, x: Xlate, h: seq<byte>, s: D.State, chain: DescChain,
                                          req: seq<byte>, io: W.IoIn)
    requires InStore(x, |h|) && Linear(x) && Gather(x, h, chain.readable) == Ok(req)
    requires Mapped(x, chain.writable) && Distinct(Addrs(x, chain.writable))
    requires |req| >= 60 && Num(req, 4, 4) == 15 && W.ParseReadIn(W.Body(req)) == Some(io)
    requires Capacity(chain.writable) >= W.OUT_HEADER_LEN
    ensures var r := ServeChain(k, x, h, s, chain);
            && Gather(x, r.host, chain.writable).Ok?
            && r.written == Ok(Announced(x, r.host, chain.writable))
  {
    var want := Min(io.size, Max(Capacity(chain.writable) - W.OUT_HEADER_LEN, 0));
    ReadPaths(k, x, h, s, chain, req, io, want);
    ReadLengths(x, h, chain.writable, W.ParseInHeader(req).value.unique,
                F.ReadFile(k, s.fs, io.fh, io.offset, want), want);
  }

  lemma {:induction false} ReadLengths(x: Xlate, h: seq<byte>, segs: seq<Segment>, unique: u64,
                                       r: F.FsResult<seq<byte>>, want: nat)
    requires InStore(x, |h|) && Linear(x) && Mapped(x, segs) && Distinct(Addrs(x, segs)) && Capacity(segs) >= 4
    requires r.Ok? ==> |r.value| <= want && |r.value| <= F.MAX_RW
    ensures var a, n := Answered(x, h, segs, ReadBytes(unique, r)), W.OUT_HEADER_LEN + (if r.Ok? then |r.value| else 0);
            && a.written == Ok(Min(n, Capacity(segs)))
            && Gather(x, a.host, segs).Ok? && Announced(x, a.host, segs) == n
  {
    match r
    case Err(e) => AnsweredLengths(x, h, segs, unique, -W.ToLinuxErrno(e), []);
    case Ok(data) => AnsweredLengths(x, h, segs, unique, 0, data);
  }

  /**
   The generic READ does not: when the kernel reads all that is asked for and the writable space takes
   less, the length field names the whole reply, and the used length only what was written.
   */
  lemma {:induction false} GenericOverstates(k: F.Kernel, x: Xlate, h: seq<byte>, s: D.State, chain: DescChain,
                                             req: seq<byte>, io: W.IoIn)
    requires InStore(x, |h|) && Linear(x) && Gather(x, h, chain.readable) == Ok(req)
    requires Mapped(x, chain.writable) && Distinct(Addrs(x, chain.writable))
    requires |req| >= 60 && Num(req, 4, 4) == 15 && W.ParseReadIn(W.Body(req)) == Some(io)
    requires 4 <= Capacity(chain.writable) < W.OUT_HEADER_LEN + io.size
    requires var data := F.ReadFile(k, s.fs, io.fh, io.offset, io.size); data.Ok? && |data.value| == io.size
    ensures var r := DispatchGeneric(k, x, h, s, chain);
            && r.written == Ok(Capacity(chain.writable))
            && Gather(x, r.host, chain.writable).Ok?
            && Announced(x, r.host, chain.writable) == W.OUT_HEADER_LEN + io.size > Capacity(chain.writable)
  {
    GenericRead(k, x, h, s, chain, req, io);
    ReadLengths(x, h, chain.writable, W.ParseInHeader(req).value.unique,
                F.ReadFile(k, s.fs, io.fh, io.offset, io.size), io.size);
  }

  // ---- What serving a chain can touch ----

  /** Host bytes no part of a writable segment reaches keep their value, on every path and outcome. */
  lemma {:induction false} ServeFrame(k: F.Kernel, x: Xlate, h: seq<byte>, s: D.State, chain: DescChain, i: nat)
    requires InStore(x, |h|) && i < |h| && Unreachable(x, chain.writable, i)
    ensures ServeChain(k, x, h, s, chain).host[i] == h[i]
    ensures DispatchGeneric(k, x, h, s, chain).host[i] == h[i]
  {
    GenericFrame(k, x, h, s, chain, i);
    match GatherPrefix(x, h, chain.readable, REQUEST_HEADER_LEN)
    case Err(_) =>
    case Ok(prefix) =>
      TryWriteFrame(k, x, h, s, chain, prefix, i);
      TryReadFrame(k, x, h, s, chain, prefix, i);
  }

  lemma {:induction false} GenericFrame(k: F.Kernel, x: Xlate, h: seq<byte>, s: D.State, chain: DescChain, i: nat)
    requires InStore(x, |h|) && i < |h| && Unreachable(x, chain.writable, i)
    ensures DispatchGeneric(k, x, h, s, chain).host[i] == h[i]
  {
    match Gather(x, h, chain.readable)
    case Err(_) =>
    case Ok(req) =>
      match D.Handle(k, s, req).1
      case NoReply =>
      case Bytes(b) => ScatterFrame(x, h, chain.writable, b, i);
  }

  lemma {:induction false} TryWriteFrame(k: F.Kernel, x: Xlate, h: seq<byte>, s: D.State, chain: DescChain,
                                         prefix: seq<byte>, i: nat)
    requires InStore(x, |h|) && i < |h| && Unreachable(x, chain.writable, i)
    ensures var r := TryWrite(k, x, h, s, chain, prefix); r.Some? ==> r.value.host[i] == h[i]
  {
    forall reply: seq<byte>
      ensures Scatter(x, h, chain.writable, reply).0[i] == h[i]
    {
      ScatterFrame(x, h, chain.writable, reply, i);
    }
  }

  lemma {:induction false} TryReadFrame(k: F.Kernel, x: Xlate, h: seq<byte>, s: D.State, chain: DescChain,
                                        prefix: seq<byte>, i: nat)
    requires InStore(x, |h|) && i < |h| && Unreachable(x, chain.writable, i)
    ensures var r := TryRead(k, x, h, s, chain, prefix); r.Some? ==> r.value.host[i] == h[i]
  {
    if |prefix| >= 60 {
      var io := W.ParseReadIn(W.Body(prefix)).value;
      var want := Min(io.size, Max(Capacity(chain.writable) - W.OUT_HEADER_LEN, 0));
      match Iovecs(x, chain.writable, W.OUT_HEADER_LEN, want)
      case Err(_) =>
      case Ok(iov) =>
        IovecsWithin(x, chain.writable, W.OUT_HEADER_LEN, want, |h|);
        IovecsUnreachable(x, chain.writable, W.OUT_HEADER_LEN, want, i);
        ReadReplyFrame(x, h, chain.writable, W.ParseInHeader(prefix).value.unique, iov,
                       F.ReadFile(k, s.fs, io.fh, io.offset, IovLen(iov)), i);
    }
  }

  lemma {:induction false} ReadReplyFrame(x: Xlate, h: seq<byte>, segs: seq<Segment>, unique: u64, iov: seq<Iovec>,
                                          r: F.FsResult<seq<byte>>, i: nat)
    requires InStore(x, |h|) && IovFits(iov, |h|) && i < |h| && Unreachable(x, segs, i) && i !in IovAddrs(iov)
    ensures ReadReply(x, h, segs, unique, iov, r).host[i] == h[i]
  {
    match r
    case Err(e) => ScatterFrame(x, h, segs, W.ErrorFor(unique, e), i);
    case Ok(data) =>
      FillIovFrame(h, iov, data, i);
      ScatterFrame(x, FillIov(h, iov, data), segs,
                   W.HeaderOnly(unique, (W.OUT_HEADER_LEN + |data|) % 0x1_0000_0000), i);
  }
}
