/**
 When `process_vring` panics (vhost_user/virtqueue.rs, vhost_user/server.rs): taking a slot of a queue
 of size 0 divides by zero, and nothing else in the loop does.
 */
module Panics {
  import opened Basics
  import opened Bytes
  import opened Memory
  import opened Segments
  import opened Chains
  import V = Virtqueue
  import W = Wire
  import F = Fs
  import D = Dispatch
  import Z = ZeroCopy
  import R = Rings
  import L = Drain
  import Vrings

  // ---- Serving a chain never panics ----

  lemma {:induction false} WalkNever(t: Table, idx: nat, fuel: nat)
    ensures Walk(t, idx, fuel) != Err(Panicked)
    decreases fuel
  {
    if fuel > 0 && t(idx).Some? {
      WalkNever(t, t(idx).value.next, fuel - 1);
    }
  }

  lemma {:induction false} GatherNever(x: Xlate, h: seq<byte>, segs: seq<Segment>)
    requires InStore(x, |h|)
    ensures Gather(x, h, segs) != Err(Panicked)
    decreases |segs|
  {
    if segs != [] {
      GatherNever(x, h, segs[1..]);
    }
  }

  lemma {:induction false} GatherPrefixNever(x: Xlate, h: seq<byte>, segs: seq<Segment>, max: nat)
    requires InStore(x, |h|)
    ensures GatherPrefix(x, h, segs, max) != Err(Panicked)
    decreases |segs|
  {
    if segs != [] && max > 0 {
      GatherPrefixNever(x, h, segs[1..], max - Min(max, segs[0].len));
    }
  }

  lemma {:induction false} IovecsNever(x: Xlate, segs: seq<Segment>, skip: nat, max: nat)
    ensures Iovecs(x, segs, skip, max) != Err(Panicked)
    decreases |segs|
  {
    if segs != [] && max > 0 {
      if skip >= segs[0].len {
        IovecsNever(x, segs[1..], skip - segs[0].len, max);
      } else {
        IovecsNever(x, segs[1..], 0, max - Min(segs[0].len - skip, max));
      }
    }
  }

  lemma {:induction false} ScatterNever(x: Xlate, h: seq<byte>, segs: seq<Segment>, data: seq<byte>)
    requires InStore(x, |h|)
    ensures Scatter(x, h, segs, data).1 != Err(Panicked)
    decreases |segs|
  {
    if segs != [] && data != [] {
      var n := Min(|data|, segs[0].len);
      var h1 := Store(x, h, segs[0].addr, data[..n]);
      if h1.Some? {
        ScatterNever(x, h1.value, segs[1..], data[n..]);
      }
    }
  }

  lemma {:induction false} AnsweredNever(x: Xlate, h: seq<byte>, segs: seq<Segment>, reply: seq<byte>)
    requires InStore(x, |h|)
    ensures Z.Answered(x, h, segs, reply).written != Err(Panicked)
  {
    ScatterNever(x, h, segs, reply);
  }

  lemma {:induction false} GenericNever(k: F.Kernel, x: Xlate, h: seq<byte>, s: D.State, chain: DescChain)
    requires InStore(x, |h|)
    ensures Z.DispatchGeneric(k, x, h, s, chain).written != Err(Panicked)
  {
    GatherNever(x, h, chain.readable);
    forall reply: seq<byte>
      ensures Z.Answered(x, h, chain.writable, reply).written != Err(Panicked)
    {
      AnsweredNever(x, h, chain.writable, reply);
    }
  }

  lemma {:induction false} TryWriteNever(k: F.Kernel, x: Xlate, h: seq<byte>, s: D.State, chain: DescChain,
                                         prefix: seq<byte>)
    requires InStore(x, |h|)
    ensures var r := Z.TryWrite(k, x, h, s, chain, prefix); r.Some? ==> r.value.written != Err(Panicked)
  {
    if |prefix| >= Z.REQUEST_HEADER_LEN {
      forall max: nat
        ensures Iovecs(x, chain.readable, Z.REQUEST_HEADER_LEN, max) != Err(Panicked)
      {
        IovecsNever(x, chain.readable, Z.REQUEST_HEADER_LEN, max);
      }
      forall reply: seq<byte>
        ensures Z.Answered(x, h, chain.writable, reply).written != Err(Panicked)
      {
        AnsweredNever(x, h, chain.writable, reply);
      }
    }
  }

  lemma {:induction false} ReadReplyNever(x: Xlate, h: seq<byte>, segs: seq<Segment>, unique: u64, iov: seq<Iovec>,
                                          r: F.FsResult<seq<byte>>)
    requires InStore(x, |h|) && IovFits(iov, |h|)
    ensures Z.ReadReply(x, h, segs, unique, iov, r).written != Err(Panicked)
  {
    match r
    case Err(e) => AnsweredNever(x, h, segs, W.ErrorFor(unique, e));
    case Ok(data) =>
      AnsweredNever(x, FillIov(h, iov, data), segs,
                    W.HeaderOnly(unique, (W.OUT_HEADER_LEN + |data|) % 0x1_0000_0000));
  }

  lemma {:induction false} TryReadNever(k: F.Kernel, x: Xlate, h: seq<byte>, s: D.State, chain: DescChain,
                                        prefix: seq<byte>)
    requires InStore(x, |h|)
    ensures var r := Z.TryRead(k, x, h, s, chain, prefix); r.Some? ==> r.value.written != Err(Panicked)
  {
    if |prefix| >= 60 {
      var io := W.ParseReadIn(W.Body(prefix)).value;
      var want := Min(io.size, Max(Capacity(chain.writable) - W.OUT_HEADER_LEN, 0));
      IovecsNever(x, chain.writable, W.OUT_HEADER_LEN, want);
      match Iovecs(x, chain.writable, W.OUT_HEADER_LEN, want)
      case Err(_) =>
      case Ok(iov) =>
        IovecsWithin(x, chain.writable, W.OUT_HEADER_LEN, want, |h|);
        ReadReplyNever(x, h, chain.writable, W.ParseInHeader(prefix).value.unique, iov,
                       F.ReadFile(k, s.fs, io.fh, io.offset, Z.IovLen(iov)));
    }
  }

  lemma {:induction false} ServeNever(k: F.Kernel, x: Xlate, h: seq<byte>, s: D.State, chain: DescChain)
    requires InStore(x, |h|)
    ensures Z.ServeChain(k, x, h, s, chain).written != Err(Panicked)
  {
    GenericNever(k, x, h, s, chain);
    GatherPrefixNever(x, h, chain.readable, Z.REQUEST_HEADER_LEN);
    match GatherPrefix(x, h, chain.readable, Z.REQUEST_HEADER_LEN)
    case Err(_) =>
    case Ok(prefix) =>
      TryWriteNever(k, x, h, s, chain, prefix);
      TryReadNever(k, x, h, s, chain, prefix);
  }

  // ---- The loop ----

  /** Something is published past the device's position. */
  predicate Published(user: Xlate, h: seq<byte>, q: V.Config, last: nat)
    requires InStore(user, |h|)
  {
    var idx := LoadNum(user, h, q.avail + 2, 2);
    idx.Some? && idx.value != last
  }

  predicate TurnPanics(t: R.Turn) {
    t.Failed? && t.error == Panicked
  }

  lemma {:induction false} FinishPanics(e: R.Env, d: R.Dev, head: u16, r: Z.Served)
    requires InStore(e.user, |d.host|) && |r.host| == |d.host| && e.q.size > 0 && r.written != Err(Panicked)
    ensures !TurnPanics(R.Finish(e, d, head, r))
  {
  }

  /** One turn panics exactly if the size is 0 and something is published. */
  lemma {:induction false} TurnPanicsIff(k: F.Kernel, e: R.Env, d: R.Dev)
    requires InStore(e.gpa, |d.host|) && InStore(e.user, |d.host|)
    ensures TurnPanics(R.TakeTurn(k, e, d)) <==> e.q.size == 0 && Published(e.user, d.host, e.q, d.last)
    ensures e.q.size == 0 ==> !R.TakeTurn(k, e, d).Done?
  {
    match V.PopAvail(e.user, d.host, e.q, d.last)
    case Err(_) =>
    case Ok(None) =>
    case Ok(Some(head)) =>
      var d1 := d.(last := V.NextIdx(d.last));
      HeadNever(k, e, d1, head);
  }

  lemma {:induction false} HeadNever(k: F.Kernel, e: R.Env, d: R.Dev, head: u16)
    requires InStore(e.gpa, |d.host|) && InStore(e.user, |d.host|) && e.q.size > 0
    ensures !TurnPanics(R.ServeHead(k, e, d, head))
  {
    var t := V.TableAt(e.user, d.host, e.q.desc);
    WalkNever(t, head, MAX_CHAIN_LEN);
    match ReadChain(t, head)
    case Err(_) =>
    case Ok(chain) =>
      ServeNever(k, e.gpa, d.host, d.state, chain);
      FinishPanics(e, d, head, Z.ServeChain(k, e.gpa, d.host, d.state, chain));
  }

  /** Turns that panic exactly if the size is 0 and something is published, and then at once. */
  ghost predicate PanicsAtOnce(e: R.Env, n: nat, turn: L.Loop, d: R.Dev)
    requires InStore(e.user, n)
  {
    |d.host| == n ==>
      && (TurnPanics(turn(d)) <==> e.q.size == 0 && Published(e.user, d.host, e.q, d.last))
      && (turn(d).Done? ==> e.q.size > 0 && |turn(d).dev.host| == n)
  }

  lemma {:induction false} DrainPanics(e: R.Env, n: nat, turn: L.Loop, d: R.Dev, fuel: nat)
    requires InStore(e.user, n) && |d.host| == n && forall d': R.Dev :: PanicsAtOnce(e, n, turn, d')
    ensures L.DrainAll(turn, d, fuel).1 == Err(Panicked) <==> e.q.size == 0 && Published(e.user, d.host, e.q, d.last)
    decreases fuel
  {
    assert PanicsAtOnce(e, n, turn, d);
    if turn(d).Done? && fuel > 0 {
      DrainPanics(e, n, turn, turn(d).dev, fuel - 1);
    }
  }

  /**
   After any messages that have built a queue, in whatever order, `process_vring` panics on it exactly
   if the last size sent before its last address was 0 in 16 bits and the available index is not at the
   position last set.
   */
  lemma {:induction false} ProcessPanics(i: nat, cs: seq<Vrings.Control>, q: Vrings.Queue, ks: L.Answers, e: R.Env,
                                         d: R.Dev, fuel: nat)
    requires Vrings.After(i, cs).queue == Some(q) && e.q == q.cfg && d.last == q.last
    requires InStore(e.gpa, |d.host|) && InStore(e.user, |d.host|)
    ensures L.DrainAll(L.LoopOf(ks, e, |d.host|), d, fuel).1 == Err(Panicked) <==>
              && (exists n: nat, p: nat :: Vrings.BuiltEmpty(i, cs, n, p))
              && Published(e.user, d.host, e.q, Vrings.BaseOf(i, cs))
  {
    var n, turn := |d.host|, L.LoopOf(ks, e, |d.host|);
    forall d': R.Dev
      ensures PanicsAtOnce(e, n, turn, d')
    {
      if |d'.host| == n {
        TurnPanicsIff(ks(|d'.log|), e, d');
      }
    }
    DrainPanics(e, n, turn, d, fuel);
    Vrings.ConfiguredByHistory(i, cs);
    Vrings.EmptyQueues(i, cs);
  }
}
