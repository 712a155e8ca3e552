/**
 The device's side of one request, as the source runs it (vhost_user/server.rs): the generic path,
 the two zero-copy paths, one iteration of the queue loop, and the loop. Guest memory, session and
 queue are updated in place; each method is proved to do what the corresponding function says.
 */
module Serving {
  import opened Basics
  import opened Memory
  import opened Segments
  import opened Chains
  import opened Rings
  import opened Drain
  import V = Virtqueue
  import W = Wire
  import F = Fs
  import S = Session
  import Z = ZeroCopy

  /** Session and guest memory are usable and apart from each other. */
  ghost predicate Ready(session: S.Session, mem: GuestMemory)
    reads session, session.fs, session.fs.inodes, session.fs.handles, session.fs.inodes.entries
  {
    session.Valid() && mem.Valid() && mem.host !in session.Repr()
  }

  method DispatchGeneric(k: F.Kernel, session: S.Session, mem: GuestMemory, vq: V.Virtqueue, chain: DescChain)
    returns (r: Result<u32, VqError>)
    requires Ready(session, mem)
    modifies session.Repr(), mem.host
    ensures Ready(session, mem) && fresh(session.Repr() - old(session.Repr()))
    ensures Z.Served(mem.host[..], session.View(), r)
            == Z.DispatchGeneric(k, mem.gpa, old(mem.host[..]), old(session.View()), chain)
  {
    var request := vq.GatherReadable(mem, chain);
    if request.Err? {
      return Err(request.error);
    }
    var reply := session.Handle(k, request.value);
    if reply.NoReply? {
      return Ok(0);
    }
    r := vq.ScatterWritable(mem, chain, reply.bytes);
  }

  /** `None` hands the request over to the generic path. */
  method TryWriteZeroCopy(k: F.Kernel, session: S.Session, mem: GuestMemory, vq: V.Virtqueue, chain: DescChain,
                          prefix: seq<byte>)
    returns (r: Option<Result<u32, VqError>>)
    requires Ready(session, mem)
    modifies session.Repr(), mem.host
    ensures Ready(session, mem) && session.Repr() == old(session.Repr())
    ensures var spec := Z.TryWrite(k, mem.gpa, old(mem.host[..]), old(session.View()), chain, prefix);
            match r
            case None => spec.None? && mem.host[..] == old(mem.host[..]) && session.View() == old(session.View())
            case Some(written) => spec == Some(Z.Served(mem.host[..], session.View(), written))
  {
    var header := W.InHeaderFromBytes(prefix);
    if header.Err? {
      return None;
    }
    var w := W.WriteInFromBytes(W.Body(prefix));
    if w.Err? {
      return None;
    }
    var io := w.value.0;
    var iov := V.Virtqueue.IovecsFrom(mem, chain.readable, Z.REQUEST_HEADER_LEN, io.size);
    if iov.Err? {
      return Some(Err(iov.error));
    }
    IovecsWithin(mem.gpa, chain.readable, Z.REQUEST_HEADER_LEN, io.size, mem.host.Length);
    var n := session.fs.WriteFile(k, io.fh, io.offset, DrainIov(mem.host[..], iov.value));
    var written := vq.ScatterWritable(mem, chain, Z.WriteReply(header.value.unique, n));
    r := Some(written);
  }

  /** `preadv`: the bytes read land in the vector's ranges, in order. */
  method ReadVectored(k: F.Kernel, session: S.Session, mem: GuestMemory, fh: u64, offset: u64, iov: seq<Iovec>)
    returns (r: F.FsResult<nat>)
    requires Ready(session, mem) && IovFits(iov, mem.host.Length)
    modifies mem.host
    ensures Ready(session, mem)
    ensures match F.ReadFile(k, session.View().fs, fh, offset, Z.IovLen(iov))
            case Err(e) => r == Err(e) && mem.host[..] == old(mem.host[..])
            case Ok(data) => r == Ok(|data|) && mem.host[..] == FillIov(old(mem.host[..]), iov, data)
  {
    var data := session.fs.ReadFile(k, fh, offset, Z.IovLen(iov));
    if data.Err? {
      return Err(data.error);
    }
    ghost var h0 := mem.host[..];
    var rest, i := data.value, 0;
    assert iov[0..] == iov;
    while i < |iov|
      invariant 0 <= i <= |iov| && IovFits(iov[i..], mem.host.Length)
      invariant FillIov(h0, iov, data.value) == FillIov(mem.host[..], iov[i..], rest)
    {
      var n := Min(|rest|, iov[i].len);
      assert iov[i..][0] == iov[i] && iov[i..][1..] == iov[i + 1..];
      mem.Overwrite(iov[i].base, rest[..n]);
      rest := rest[n..];
      i := i + 1;
    }
    r := Ok(|data.value|);
  }

  method TryReadZeroCopy(k: F.Kernel, session: S.Session, mem: GuestMemory, vq: V.Virtqueue, chain: DescChain,
                         prefix: seq<byte>)
    returns (r: Option<Result<u32, VqError>>)
    requires Ready(session, mem)
    modifies mem.host
    ensures Ready(session, mem)
    ensures var spec := Z.TryRead(k, mem.gpa, old(mem.host[..]), session.View(), chain, prefix);
            match r
            case None => spec.None? && mem.host[..] == old(mem.host[..])
            case Some(written) => spec == Some(Z.Served(mem.host[..], session.View(), written))
  {
    var header := W.InHeaderFromBytes(prefix);
    if header.Err? {
      return None;
    }
    var parsed := W.ReadInFromBytes(W.Body(prefix));
    if parsed.Err? {
      return None;
    }
    var io, unique := parsed.value, header.value.unique;
    var want := Min(io.size, Max(Capacity(chain.writable) - W.OUT_HEADER_LEN, 0));
    var iov := V.Virtqueue.IovecsFrom(mem, chain.writable, W.OUT_HEADER_LEN, want);
    if iov.Err? {
      return Some(Err(iov.error));
    }
    IovecsWithin(mem.gpa, chain.writable, W.OUT_HEADER_LEN, want, mem.host.Length);
    var written := ReadInPlace(k, session, mem, vq, chain, unique, io, iov.value);
    r := Some(written);
  }

  /** Read into the vector, then put the reply header in front, or an error reply. */
  method ReadInPlace(k: F.Kernel, session: S.Session, mem: GuestMemory, vq: V.Virtqueue, chain: DescChain,
                     unique: u64, io: W.IoIn, iov: seq<Iovec>)
    returns (r: Result<u32, VqError>)
    requires Ready(session, mem) && IovFits(iov, mem.host.Length)
    modifies mem.host
    ensures Ready(session, mem)
    ensures Z.Replied(mem.host[..], r)
            == Z.ReadReply(mem.gpa, old(mem.host[..]), chain.writable, unique, iov,
                           F.ReadFile(k, session.View().fs, io.fh, io.offset, Z.IovLen(iov)))
  {
    ghost var h0, data := mem.host[..], F.ReadFile(k, session.View().fs, io.fh, io.offset, Z.IovLen(iov));
    var n := ReadVectored(k, session, mem, io.fh, io.offset, iov);
    if n.Err? {
      r := vq.ScatterWritable(mem, chain, W.ErrorFor(unique, n.error));
    } else {
      var header := W.HeaderOnly(unique, (W.OUT_HEADER_LEN + n.value) % 0x1_0000_0000);
      r := PutHeader(mem, vq, chain, header, n.value, iov, h0, data.value);
    }
  }

  /** The header in front of `n` bytes already in place. */
  method PutHeader(mem: GuestMemory, vq: V.Virtqueue, chain: DescChain, header: seq<byte>, n: nat, iov: seq<Iovec>,
                   ghost h0: seq<byte>, ghost data: seq<byte>)
    returns (r: Result<u32, VqError>)
    requires mem.Valid() && |h0| == mem.host.Length && IovFits(iov, |h0|)
    requires mem.host[..] == FillIov(h0, iov, data) && n == |data|
    modifies mem.host
    ensures Z.Replied(mem.host[..], r) == Z.InPlace(mem.gpa, h0, chain.writable, iov, header, data)
  {
    r := vq.ScatterWritable(mem, chain, header);
    if r.Ok? {
      r := Ok((r.value + n) % 0x1_0000_0000);
    }
  }

  /** The zero-copy path for the opcode in the prefix, if there is one and it applies. */
  method TryZeroCopy(k: F.Kernel, session: S.Session, mem: GuestMemory, vq: V.Virtqueue, chain: DescChain,
                     prefix: seq<byte>)
    returns (r: Option<Result<u32, VqError>>)
    requires Ready(session, mem)
    modifies session.Repr(), mem.host
    ensures Ready(session, mem) && session.Repr() == old(session.Repr())
    ensures var spec := Z.TryFast(k, mem.gpa, old(mem.host[..]), old(session.View()), chain, prefix);
            match r
            case None => spec.None? && mem.host[..] == old(mem.host[..]) && session.View() == old(session.View())
            case Some(written) => spec == Some(Z.Served(mem.host[..], session.View(), written))
  {
    var opcode := Z.PeekOpcode(prefix);
    r := None;
    if opcode == W.Write {
      r := TryWriteZeroCopy(k, session, mem, vq, chain, prefix);
    } else if opcode == W.Read {
      r := TryReadZeroCopy(k, session, mem, vq, chain, prefix);
    }
  }

  method ServeChain(k: F.Kernel, session: S.Session, mem: GuestMemory, vq: V.Virtqueue, chain: DescChain)
    returns (r: Result<u32, VqError>)
    requires Ready(session, mem)
    modifies session.Repr(), mem.host
    ensures Ready(session, mem) && fresh(session.Repr() - old(session.Repr()))
    ensures Z.Served(mem.host[..], session.View(), r)
            == Z.ServeChain(k, mem.gpa, old(mem.host[..]), old(session.View()), chain)
  {
    var prefix := vq.GatherReadablePrefix(mem, chain, Z.REQUEST_HEADER_LEN);
    if prefix.Err? {
      return Err(prefix.error);
    }
    var fast := TryZeroCopy(k, session, mem, vq, chain, prefix.value);
    if fast.Some? {
      return fast.value;
    }
    r := DispatchGeneric(k, session, mem, vq, chain);
  }

  /** What one iteration of the loop came to. */
  datatype Outcome = Nothing | Stopped(error: VqError) | Served(elem: Elem)

  /** The device as the objects hold it. */
  ghost function DevOf(session: S.Session, mem: GuestMemory, vq: V.Virtqueue, log: seq<Elem>): (d: Dev)
    reads session, session.fs, mem.host, vq
  {
    Dev(mem.host[..], session.View(), vq.lastAvailIdx, log)
  }

  ghost predicate TurnIs(t: Turn, o: Outcome, before: Dev, after: Dev) {
    match o
    case Nothing => t == Idle && after == before
    case Stopped(err) => t == Failed(after, err)
    case Served(elem) => t == Done(after.(log := before.log + [elem]))
  }

  method PushServed(mem: GuestMemory, session: S.Session, vq: V.Virtqueue, head: u16, written: Result<u32, VqError>,
                    ghost e: Env, ghost d: Dev, ghost r: Z.Served)
    returns (o: Outcome)
    requires r == Z.Served(mem.host[..], session.View(), written)
    requires Ready(session, mem) && |d.host| == mem.host.Length && d.last == vq.lastAvailIdx
    requires e.gpa == mem.gpa && e.user == mem.user && e.q == vq.cfg
    modifies mem.host
    ensures Ready(session, mem) && session.Repr() == old(session.Repr())
    ensures TurnIs(Finish(e, d, head, r), o, d, DevOf(session, mem, vq, d.log))
  {
    if written.Err? {
      return Stopped(written.error);
    }
    var pushed := vq.PushUsedElem(mem, head, written.value);
    o := if pushed.Err? then Stopped(pushed.error) else Served(Elem(head, written.value));
  }

  method ServeHeadNow(k: F.Kernel, session: S.Session, mem: GuestMemory, vq: V.Virtqueue, head: u16, ghost e: Env,
                      ghost d: Dev)
    returns (o: Outcome)
    requires Ready(session, mem) && vq !in session.Repr() && d == DevOf(session, mem, vq, d.log)
    requires e.gpa == mem.gpa && e.user == mem.user && e.q == vq.cfg
    modifies session.Repr(), mem.host
    ensures Ready(session, mem) && fresh(session.Repr() - old(session.Repr()))
    ensures TurnIs(ServeHead(k, e, d, head), o, d, DevOf(session, mem, vq, d.log))
  {
    var chain := vq.ReadChainAt(mem, head);
    if chain.Err? {
      return Stopped(chain.error);
    }
    o := ServeRead(k, session, mem, vq, head, chain.value, e, d);
  }

  method ServeRead(k: F.Kernel, session: S.Session, mem: GuestMemory, vq: V.Virtqueue, head: u16, chain: DescChain,
                   ghost e: Env, ghost d: Dev)
    returns (o: Outcome)
    requires Ready(session, mem) && vq !in session.Repr() && d == DevOf(session, mem, vq, d.log)
    requires e.gpa == mem.gpa && e.user == mem.user && e.q == vq.cfg
    modifies session.Repr(), mem.host
    ensures Ready(session, mem) && fresh(session.Repr() - old(session.Repr()))
    ensures TurnIs(Finish(e, d, head, Z.ServeChain(k, e.gpa, d.host, d.state, chain)), o, d,
                   DevOf(session, mem, vq, d.log))
  {
    ghost var r := Z.ServeChain(k, e.gpa, d.host, d.state, chain);
    var written := ServeChain(k, session, mem, vq, chain);
    o := PushServed(mem, session, vq, head, written, e, d, r);
  }

  method ServeNext(k: F.Kernel, session: S.Session, mem: GuestMemory, vq: V.Virtqueue, ghost e: Env, ghost d: Dev)
    returns (o: Outcome)
    requires Ready(session, mem) && vq !in session.Repr() && d == DevOf(session, mem, vq, d.log)
    requires e.gpa == mem.gpa && e.user == mem.user && e.q == vq.cfg
    modifies session.Repr(), mem.host, vq
    ensures Ready(session, mem) && vq !in session.Repr() && fresh(session.Repr() - old(session.Repr()))
    ensures TurnIs(TakeTurn(k, e, d), o, d, DevOf(session, mem, vq, d.log))
  {
    var head := vq.PopAvailNext(mem);
    if head.Err? {
      return Stopped(head.error);
    }
    if head.value.None? {
      return Nothing;
    }
    o := ServeHeadNow(k, session, mem, vq, head.value.value, e, d.(last := V.NextIdx(d.last)));
  }

  lemma {:induction false} DrainStep(turn: Loop, d: Dev, fuel: nat, o: Outcome, after: Dev)
    requires Ends(turn, d, fuel) && TurnIs(turn(d), o, d, after)
    ensures o.Nothing? ==> DrainAll(turn, d, fuel) == (after, Ok(()))
    ensures o.Stopped? ==> DrainAll(turn, d, fuel) == (after, Err(o.error))
    ensures o.Served? ==> var d' := after.(log := d.log + [o.elem]);
                          fuel > 0 && Ends(turn, d', fuel - 1)
                              && DrainAll(turn, d, fuel) == DrainAll(turn, d', fuel - 1)
  {
  }

  method ServeTurn(ks: Answers, n: nat, session: S.Session, mem: GuestMemory, vq: V.Virtqueue, ghost e: Env,
                   ghost d: Dev)
    returns (o: Outcome)
    requires Ready(session, mem) && vq !in session.Repr() && d == DevOf(session, mem, vq, d.log)
    requires e.gpa == mem.gpa && e.user == mem.user && e.q == vq.cfg && n == |d.log|
    modifies session.Repr(), mem.host, vq
    ensures Ready(session, mem) && vq !in session.Repr() && fresh(session.Repr() - old(session.Repr()))
    ensures TurnIs(LoopOf(ks, e, mem.host.Length)(d), o, d, DevOf(session, mem, vq, d.log))
  {
    o := ServeNext(ks(n), session, mem, vq, e, d);
  }

  /**
   Turns until one finds nothing or fails. `past` is what was pushed before, `first` how much that is;
   `fuel` is any bound within which the loop stops by itself, and `Drain.DrainEnds` gives one for
   every queue whose buffers stay off its rings.
   */
  method DrainQueue(ks: Answers, first: nat, session: S.Session, mem: GuestMemory, vq: V.Virtqueue,
                    ghost e: Env, ghost turn: Loop, ghost past: seq<Elem>, ghost fuel: nat)
    returns (r: Result<(), VqError>, processed: nat, ghost log: seq<Elem>)
    requires first == |past|
    requires Ready(session, mem) && vq !in session.Repr()
    requires e.gpa == mem.gpa && e.user == mem.user && e.q == vq.cfg
    requires turn == LoopOf(ks, e, mem.host.Length) && Ends(turn, DevOf(session, mem, vq, past), fuel)
    modifies session.Repr(), mem.host, vq
    ensures Ready(session, mem) && vq !in session.Repr() && fresh(session.Repr() - old(session.Repr()))
    ensures (DevOf(session, mem, vq, log), r) == DrainAll(turn, old(DevOf(session, mem, vq, past)), fuel)
    ensures |log| == first + processed
  {
    processed := 0;
    log := past;
    ghost var left, d := fuel, DevOf(session, mem, vq, past);
    ghost var d0 := d;
    while true
      invariant Ready(session, mem) && vq !in session.Repr() && fresh(session.Repr() - old(session.Repr()))
      invariant d == DevOf(session, mem, vq, log) && |log| == first + processed
      invariant Ends(turn, d, left) && DrainAll(turn, d0, fuel) == DrainAll(turn, d, left)
      decreases left
    {
      var o := ServeTurn(ks, first + processed, session, mem, vq, e, d);
      DrainStep(turn, d, left, o, DevOf(session, mem, vq, log));
      if o.Nothing? {
        return Ok(()), processed, log;
      }
      if o.Stopped? {
        return Err(o.error), processed, log;
      }
      log := log + [o.elem];
      d := DevOf(session, mem, vq, log);
      left := left - 1;
      processed := processed + 1;
    }
  }
}
