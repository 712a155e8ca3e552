/**
 A file written through one descriptor chain and read back through another (vhost_user/server.rs,
 passthrough.rs): from guest memory into the file and from the file into guest memory.
 */
module EndToEnd {
  import opened Basics
  import opened Bytes
  import opened Memory
  import opened Segments
  import opened Chains
  import W = Wire
  import F = Fs
  import D = Dispatch
  import R = Replies
  import Z = ZeroCopy
  import E = Effects

  /** Handle, offset and size as the request has them, after its 40-byte header. */
  predicate Fields(req: seq<byte>, io: W.IoIn) {
    |req| >= 60 && io.fh == Num(req, 40, 8) && io.offset == Num(req, 48, 8) && io.size == Num(req, 56, 4)
  }

  /** A WRITE chain hands the bytes after its 80-byte header to the file, at most `size` of them. */
  lemma {:induction false} WriteServed(k: F.Kernel, x: Xlate, h: seq<byte>, s: D.State, chain: DescChain,
                                       req: seq<byte>, io: W.IoIn, data: seq<byte>)
    requires InStore(x, |h|) && Linear(x) && Gather(x, h, chain.readable) == Ok(req)
    requires |req| >= 80 && Num(req, 4, 4) == 16 && Fields(req, io) && data == req[80..Min(|req|, 80 + io.size)]
    ensures Z.ServeChain(k, x, h, s, chain).state == s.(fs := F.WriteFile(k, s.fs, io.fh, io.offset, data).0)
  {
    Z.ServePaths(k, x, h, s, chain, req);
    Z.ReadFields(req);
    var payload := req[80..];
    assert payload[..Min(io.size, |payload|)] == data;
    Z.FastWrite(k, x, h, s, chain, req, io, payload);
  }

  /** The chain is a READ of `io` into disjoint mapped buffers with room for the header. */
  ghost predicate IsRead(x: Xlate, h: seq<byte>, chain: DescChain, req: seq<byte>, io: W.IoIn)
    requires InStore(x, |h|)
  {
    && Gather(x, h, chain.readable) == Ok(req)
    && |req| >= 60 && Num(req, 4, 4) == 15 && Fields(req, io)
    && Mapped(x, chain.writable) && Distinct(Addrs(x, chain.writable))
    && Capacity(chain.writable) >= W.OUT_HEADER_LEN
  }

  /** The buffers hold a success header and then `data`, and exactly that much is reported. */
  ghost predicate Holds(x: Xlate, h: seq<byte>, written: Result<u32, VqError>, segs: seq<Segment>, data: seq<byte>)
    requires InStore(x, |h|)
  {
    && written == Ok(W.OUT_HEADER_LEN + |data|) && Gather(x, h, segs).Ok?
    && var b := Gather(x, h, segs).value;
       && |b| >= W.OUT_HEADER_LEN + |data| && NumI32(b, 4) == 0
       && b[W.OUT_HEADER_LEN..W.OUT_HEADER_LEN + |data|] == data
  }

  /** A READ chain delivers what was read. */
  lemma {:induction false} ReadDelivers(k: F.Kernel, x: Xlate, h: seq<byte>, s: D.State, chain: DescChain,
                                        req: seq<byte>, io: W.IoIn, want: nat)
    requires InStore(x, |h|) && Linear(x) && IsRead(x, h, chain, req, io)
    requires want == Min(io.size, Capacity(chain.writable) - W.OUT_HEADER_LEN)
    ensures var r, got := Z.ServeChain(k, x, h, s, chain), F.ReadFile(k, s.fs, io.fh, io.offset, want);
            got.Ok? ==> Holds(x, r.host, r.written, chain.writable, got.value)
  {
    Z.ReadFields(req);
    Z.ReadPaths(k, x, h, s, chain, req, io, want);
    var got := F.ReadFile(k, s.fs, io.fh, io.offset, want);
    if got.Ok? {
      DeliveredIs(x, h, chain.writable, W.ParseInHeader(req).value.unique, got.value);
    }
  }

  lemma {:induction false} DeliveredIs(x: Xlate, h: seq<byte>, segs: seq<Segment>, unique: u64, data: seq<byte>)
    requires InStore(x, |h|) && Linear(x) && Mapped(x, segs) && Distinct(Addrs(x, segs))
    requires W.OUT_HEADER_LEN + |data| <= Capacity(segs) && |data| <= F.MAX_RW
    ensures var a := Z.Answered(x, h, segs, W.Reply(unique, 0, data));
            Holds(x, a.host, a.written, segs, data)
  {
    var reply, n := W.Reply(unique, 0, data), W.OUT_HEADER_LEN + |data|;
    R.ReplyFields(unique, 0, data);
    Z.AnsweredLengths(x, h, segs, unique, 0, data);
    ScatterThenGather(x, h, segs, reply);
    var b := Gather(x, Scatter(x, h, segs, reply).0, segs).value;
    assert |reply| == n;
    assert b[..n] == reply[..n] == reply;
    assert b[4..8] == reply[4..8];
    assert b[W.OUT_HEADER_LEN..n] == b[..n][W.OUT_HEADER_LEN..];
  }

  /**
   What was written is what is read: a WRITE chain is served, then a READ chain for a range within what
   that WRITE reported, on any handle of the same file. Wherever both requests and both buffers fall
   relative to descriptor boundaries, the READ's buffers then hold the bytes the WRITE's buffers held,
   as many as the reply reports, and at least one if the range and the room are not empty; the only
   other outcome is an error from the kernel.
   */
  lemma {:induction false} ReadAfterWrite(kw: F.Kernel, kr: F.Kernel, x: Xlate, h: seq<byte>, s: D.State,
                                          wc: DescChain, wreq: seq<byte>, wio: W.IoIn, data: seq<byte>,
                                          rc: DescChain, rreq: seq<byte>, rio: W.IoIn, want: nat)
    requires InStore(x, |h|) && Linear(x) && Gather(x, h, wc.readable) == Ok(wreq)
    requires |wreq| >= 80 && Num(wreq, 4, 4) == 16 && Fields(wreq, wio)
    requires data == wreq[80..Min(|wreq|, 80 + wio.size)]
    requires IsRead(x, Z.ServeChain(kw, x, h, s, wc).host, rc, rreq, rio)
    requires want == Min(rio.size, Capacity(rc.writable) - W.OUT_HEADER_LEN)
    requires F.FileOf(s.fs.handles, wio.fh) == F.FileOf(s.fs.handles, rio.fh)
    requires var w := F.WriteFile(kw, s.fs, wio.fh, wio.offset, data).1;
             w.Ok? && wio.offset <= rio.offset && rio.offset + want <= wio.offset + w.value
    ensures var s1 := Z.ServeChain(kw, x, h, s, wc);
            var r := Z.ServeChain(kr, x, s1.host, s1.state, rc);
            var got := F.ReadFile(kr, s1.state.fs, rio.fh, rio.offset, want);
            got.Ok? ==>
              && var n := |got.value|;
                 && n <= want && (want > 0 ==> n > 0)
                 && Holds(x, r.host, r.written, rc.writable, data[rio.offset - wio.offset..][..n])
  {
    var s1 := Z.ServeChain(kw, x, h, s, wc);
    WriteServed(kw, x, h, s, wc, wreq, wio, data);
    ThenRead(kw, kr, x, s.fs, wio, data, s1.host, s1.state, rc, rreq, rio, want);
  }

  lemma {:induction false} ThenRead(kw: F.Kernel, kr: F.Kernel, x: Xlate, fs: F.State, wio: W.IoIn, data: seq<byte>,
                                    h: seq<byte>, s: D.State, rc: DescChain, rreq: seq<byte>, rio: W.IoIn, want: nat)
    requires InStore(x, |h|) && Linear(x) && IsRead(x, h, rc, rreq, rio)
    requires want == Min(rio.size, Capacity(rc.writable) - W.OUT_HEADER_LEN)
    requires F.FileOf(fs.handles, wio.fh) == F.FileOf(fs.handles, rio.fh)
    requires var (fs', w) := F.WriteFile(kw, fs, wio.fh, wio.offset, data);
             s.fs == fs' && w.Ok? && wio.offset <= rio.offset && rio.offset + want <= wio.offset + w.value
    ensures var got := F.ReadFile(kr, s.fs, rio.fh, rio.offset, want);
            var r := Z.ServeChain(kr, x, h, s, rc);
            got.Ok? ==>
              && var n := |got.value|;
                 && n <= want && (want > 0 ==> n > 0)
                 && Holds(x, r.host, r.written, rc.writable, data[rio.offset - wio.offset..][..n])
  {
    var got := F.ReadFile(kr, s.fs, rio.fh, rio.offset, want);
    if got.Ok? {
      assert got.value == data[rio.offset - wio.offset..][..|got.value|] && (want > 0 ==> got.value != []) by {
        E.FileRoundTrip(kw, kr, fs, wio.fh, wio.offset, data, rio.fh, rio.offset, want);
      }
      ReadDelivers(kr, x, h, s, rc, rreq, rio, want);
    }
  }
}
