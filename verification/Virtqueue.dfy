/**
 The split virtqueue (vhost_user/virtqueue.rs; section 2.7 of VIRTIO 1.2): the descriptor-chain
 walk, the available and used rings, and the queue object that runs them over guest memory.
 Ring structures are reached through user addresses, buffers through guest-physical ones.
 */
module Virtqueue {
  import opened Basics
  import opened Bytes
  import opened Memory
  import opened Segments
  import opened Chains
  import B = Descriptors

  const DESC_LEN := 16
  const AVAIL_RING_OFFSET := 4
  const USED_RING_OFFSET := 4
  const USED_ELEM_LEN := 8

  /** Where a queue's three structures are (user addresses), and its size. */
  datatype Config = Config(desc: u64, avail: u64, used: u64, size: u16)

  // ---- Descriptor chains ----

  function ReadDesc(x: Xlate, h: seq<byte>, table: nat, idx: nat): (r: Option<Desc>)
    requires InStore(x, |h|)
  {
    var off := table + idx * DESC_LEN;
    var addr := LoadNum(x, h, off, 8);
    var len := LoadNum(x, h, off + 8, 4);
    var flags := LoadNum(x, h, off + 12, 2);
    var next := LoadNum(x, h, off + 14, 2);
    PowFacts();
    if addr.Some? && len.Some? && flags.Some? && next.Some?
    then Some(Desc(addr.value, len.value, flags.value, next.value))
    else None
  }

  /** The descriptor table as guest memory currently shows it. */
  function TableAt(x: Xlate, h: seq<byte>, table: nat): (t: Table)
    requires InStore(x, |h|)
  {
    (idx: nat) => ReadDesc(x, h, table, idx)
  }

  /** `t` is the descriptor table guest memory shows. */
  ghost predicate Shows(t: Table, x: Xlate, h: seq<byte>, table: nat)
    requires InStore(x, |h|)
  {
    forall i: nat {:trigger ReadDesc(x, h, table, i)} :: t(i) == ReadDesc(x, h, table, i)
  }

  /** Entry `i` of the table is what the driver's bytes say. */
  ghost predicate Agrees(t: Table, x: Xlate, h: seq<byte>, table: nat, i: nat)
    requires InStore(x, |h|)
  {
    && (t(i).Some? <==> B.Readable(x, table, i))
    && (t(i).Some? ==>
          && t(i).value.Seg() == B.Buffer(x, h, table, i)
          && t(i).value.flags == B.Flags(x, h, table, i) && t(i).value.next == B.Next(x, h, table, i))
  }

  lemma {:induction false} EntryIsRead(x: Xlate, h: seq<byte>, table: nat, i: nat)
    requires InStore(x, |h|)
    ensures Agrees(TableAt(x, h, table), x, h, table, i)
  {
  }

  lemma {:induction false} ChainIsWalked(t: Table, x: Xlate, h: seq<byte>, table: nat, p: seq<nat>, max: nat)
    requires InStore(x, |h|) && p != [] && B.WholeChain(x, h, table, p[0], p, max)
    requires forall i: nat :: Agrees(t, x, h, table, i)
    ensures Walk(t, p[0], max) == B.ChainOf(x, h, table, p, max)
    decreases max
  {
    if max > 0 {
      assert Agrees(t, x, h, table, p[0]);
      if |p| > 1 {
        ChainIsWalked(t, x, h, table, p[1..], max - 1);
        B.ChainTail(x, h, table, p, max);
        WalkOne(t, x, h, table, p[0], max);
      } else {
        LastIsWalked(t, x, h, table, p[0], max);
        assert p == [p[0]];
      }
    }
  }

  lemma {:induction false} LastIsWalked(t: Table, x: Xlate, h: seq<byte>, table: nat, i: nat, max: nat)
    requires InStore(x, |h|) && max > 0 && Agrees(t, x, h, table, i) && B.Stops(x, h, table, i)
    ensures Walk(t, i, max) == B.ChainOf(x, h, table, [i], max)
  {
    if B.Readable(x, table, i) {
      assert B.Buffers(x, h, table, [i], 0) == B.Own(x, h, table, i, 0);
      assert B.Buffers(x, h, table, [i], 1) == B.Own(x, h, table, i, 1);
    }
    WalkOne(t, x, h, table, i, max);
  }

  /** One entry of the walk, in terms of its bytes. */
  lemma {:induction false} WalkOne(t: Table, x: Xlate, h: seq<byte>, table: nat, i: nat, max: nat)
    requires InStore(x, |h|) && max > 0 && Agrees(t, x, h, table, i)
    ensures Walk(t, i, max) ==
            if !B.Readable(x, table, i) then Err(OutOfBounds)
            else if B.Flags(x, h, table, i) / 4 % 2 == 1 then Err(IndirectUnsupported)
            else
              var r, w := B.Own(x, h, table, i, 0), B.Own(x, h, table, i, 1);
              if B.Flags(x, h, table, i) % 2 == 0 then Ok((r, w))
              else
                match Walk(t, B.Next(x, h, table, i), max - 1)
                case Err(e) => Err(e)
                case Ok(rw) => Ok((r + rw.0, w + rw.1))
  {
  }

  /** The chain of `head` in memory, read off the bytes of its entries, is what `read_chain` returns. */
  ghost predicate ReadsChain(x: Xlate, h: seq<byte>, table: nat, head: u16, r: Result<DescChain, VqError>)
    requires InStore(x, |h|)
  {
    forall p: seq<nat> :: B.WholeChain(x, h, table, head, p, 512) ==>
      match B.ChainOf(x, h, table, p, 512)
      case Err(e) => r == Err(e)
      case Ok(rw) => r == Ok(DescChain(head, rw.0, rw.1))
  }

  /**
   `read_chain` over memory: there is always a chain to speak of, and the result is what its entries
   say at their places in memory, errors included.
   */
  lemma {:induction false} ChainInMemory(x: Xlate, h: seq<byte>, table: nat, head: u16)
    requires InStore(x, |h|)
    ensures ReadsChain(x, h, table, head, ReadChain(TableAt(x, h, table), head))
    ensures exists p :: B.WholeChain(x, h, table, head, p, 512)
  {
    var t := TableAt(x, h, table);
    var p := B.HasChain(x, h, table, head, 512);
    forall i: nat
      ensures Agrees(t, x, h, table, i)
    {
      EntryIsRead(x, h, table, i);
    }
    forall p: seq<nat> | B.WholeChain(x, h, table, head, p, 512)
      ensures Walk(t, head, MAX_CHAIN_LEN) == B.ChainOf(x, h, table, p, 512)
    {
      ChainIsWalked(t, x, h, table, p, 512);
    }
  }

  // ---- Rings ----

  /** The next published head past `last`, if there is one; size 0 matters only if there is. */
  function PopAvail(x: Xlate, h: seq<byte>, q: Config, last: u16): (r: Result<Option<u16>, VqError>)
    requires InStore(x, |h|)
  {
    PowFacts();
    match LoadNum(x, h, q.avail + 2, 2)
    case None => Err(OutOfBounds)
    case Some(idx) =>
      if idx == last then Ok(None)
      else if q.size == 0 then Err(Panicked)
      else
        match LoadNum(x, h, q.avail + AVAIL_RING_OFFSET + last % q.size * 2, 2)
        case None => Err(OutOfBounds)
        case Some(head) => Ok(Some(head))
  }

  function NextIdx(i: u16): (r: u16) {
    (i + 1) % 0x1_0000
  }

  /** The host store after writing a used element (head, then length), and whether both were mapped. */
  function StoreElem(x: Xlate, h: seq<byte>, elem: nat, head: u16, len: u32): (r: (seq<byte>, bool))
    requires InStore(x, |h|)
    ensures |r.0| == |h|
  {
    match Store(x, h, elem, Le(head, 4))
    case None => (h, false)
    case Some(h1) =>
      match Store(x, h1, elem + 4, Le(len, 4))
      case None => (h1, false)
      case Some(h2) => (h2, true)
  }

  /** The host store after writing the element at `elem` and the index after `idx`, and whether all was mapped. */
  function StoreUsed(x: Xlate, h: seq<byte>, used: nat, elem: nat, idx: u16, head: u16,
                     len: u32): (r: (seq<byte>, Result<(), VqError>))
    requires InStore(x, |h|)
    ensures |r.0| == |h|
  {
    var (h1, ok) := StoreElem(x, h, elem, head, len);
    if !ok then (h1, Err(OutOfBounds))
    else
      match Store(x, h1, used + 2, Le(NextIdx(idx), 2))
      case None => (h1, Err(OutOfBounds))
      case Some(h2) => (h2, Ok(()))
  }

  /** The host store after publishing a used element, and whether every access was mapped. */
  function PushUsed(x: Xlate, h: seq<byte>, q: Config, head: u16, len: u32): (r: (seq<byte>, Result<(), VqError>))
    requires InStore(x, |h|)
    ensures |r.0| == |h|
  {
    PowFacts();
    match LoadNum(x, h, q.used + 2, 2)
    case None => (h, Err(OutOfBounds))
    case Some(idx) =>
      if q.size == 0 then (h, Err(Panicked)) else StoreUsed(x, h, q.used, UsedSlot(q, idx), idx, head, len)
  }

  /** User address of the used element for index `idx`. */
  function UsedSlot(q: Config, idx: u16): (addr: nat)
    requires q.size > 0
  {
    q.used + USED_RING_OFFSET + idx % q.size * USED_ELEM_LEN
  }

  // ---- Loop invariants of the queue object: what is left determines the whole ----

  ghost predicate WalkFrom(t: Table, head: nat, fuel0: nat, readable: seq<Segment>, writable: seq<Segment>, idx: nat,
                           fuel: nat) {
    Walk(t, head, fuel0) ==
    match Walk(t, idx, fuel)
    case Err(e) => Err(e)
    case Ok(rest) => Ok((readable + rest.0, writable + rest.1))
  }

  lemma {:induction false} WalkStart(t: Table, head: nat, fuel: nat)
    ensures WalkFrom(t, head, fuel, [], [], head, fuel)
  {
    match Walk(t, head, fuel)
    case Err(_) =>
    case Ok(rest) => assert [] + rest.0 == rest.0 && [] + rest.1 == rest.1;
  }

  lemma {:induction false} WalkAdvance(t: Table, head: nat, fuel0: nat, readable: seq<Segment>,
                                       writable: seq<Segment>, idx: nat, fuel: nat)
    requires WalkFrom(t, head, fuel0, readable, writable, idx, fuel) && fuel > 0
    ensures t(idx).None? ==> Walk(t, head, fuel0) == Err(OutOfBounds)
    ensures t(idx).Some? ==>
              var d := t(idx).value;
              var r2 := if d.IsWrite() then readable else readable + [d.Seg()];
              var w2 := if d.IsWrite() then writable + [d.Seg()] else writable;
              && (d.IsIndirect() ==> Walk(t, head, fuel0) == Err(IndirectUnsupported))
              && (!d.IsIndirect() && !d.HasNext() ==> Walk(t, head, fuel0) == Ok((r2, w2)))
              && (!d.IsIndirect() && d.HasNext() ==> WalkFrom(t, head, fuel0, r2, w2, d.next, fuel - 1))
  {
    if t(idx).Some? {
      var d := t(idx).value;
      assert readable + [] == readable && writable + [] == writable;
      match Walk(t, d.next, fuel - 1)
      case Err(_) =>
      case Ok(rest) =>
        assert readable + ([d.Seg()] + rest.0) == (readable + [d.Seg()]) + rest.0;
        assert writable + ([d.Seg()] + rest.1) == (writable + [d.Seg()]) + rest.1;
        assert [] + rest.0 == rest.0 && [] + rest.1 == rest.1;
    }
  }

  ghost predicate GatherFrom(x: Xlate, h: seq<byte>, segs: seq<Segment>, buf: seq<byte>, rest: seq<Segment>)
    requires InStore(x, |h|)
  {
    Gather(x, h, segs) == Prepend(buf, Gather(x, h, rest))
  }

  lemma {:induction false} GatherAdvance(x: Xlate, h: seq<byte>, segs: seq<Segment>, buf: seq<byte>, rest: seq<Segment>)
    requires InStore(x, |h|) && GatherFrom(x, h, segs, buf, rest) && rest != []
    ensures match Load(x, h, rest[0].addr, rest[0].len)
            case None => Gather(x, h, segs) == Err(OutOfBounds)
            case Some(b) => GatherFrom(x, h, segs, buf + b, rest[1..])
  {
    match Load(x, h, rest[0].addr, rest[0].len)
    case None =>
    case Some(b) => PrependLaws(buf, b, Gather(x, h, rest[1..]));
  }

  ghost predicate PrefixFrom(x: Xlate, h: seq<byte>, segs: seq<Segment>, max: nat, buf: seq<byte>, rest: seq<Segment>)
    requires InStore(x, |h|) && |buf| <= max
  {
    GatherPrefix(x, h, segs, max) == Prepend(buf, GatherPrefix(x, h, rest, max - |buf|))
  }

  lemma {:induction false} PrefixAdvance(x: Xlate, h: seq<byte>, segs: seq<Segment>, max: nat, buf: seq<byte>,
                                         rest: seq<Segment>)
    requires InStore(x, |h|) && |buf| < max && PrefixFrom(x, h, segs, max, buf, rest) && rest != []
    ensures match Load(x, h, rest[0].addr, Min(max - |buf|, rest[0].len))
            case None => GatherPrefix(x, h, segs, max) == Err(OutOfBounds)
            case Some(b) => PrefixFrom(x, h, segs, max, buf + b, rest[1..])
  {
    var want := Min(max - |buf|, rest[0].len);
    match Load(x, h, rest[0].addr, want)
    case None =>
    case Some(b) => PrependLaws(buf, b, GatherPrefix(x, h, rest[1..], max - |buf| - want));
  }

  /** A byte count as the source's wrapping 32-bit counter holds it. */
  function Wrapped(r: Result<nat, VqError>): (w: Result<u32, VqError>) {
    match r
    case Err(e) => Err(e)
    case Ok(n) => Ok(n % 0x1_0000_0000)
  }

  lemma {:induction false} WrapAdd(total: nat, n: nat)
    ensures (total % 0x1_0000_0000 + n) % 0x1_0000_0000 == (total + n) % 0x1_0000_0000
  {
  }

  ghost predicate ScatterFrom(x: Xlate, h0: seq<byte>, segs: seq<Segment>, data: seq<byte>,
                              h: seq<byte>, rest: seq<Segment>, remaining: seq<byte>, total: nat)
    requires InStore(x, |h0|)
  {
    && |h| == |h0|
    && Scatter(x, h0, segs, data) ==
       (Scatter(x, h, rest, remaining).0,
        match Scatter(x, h, rest, remaining).1 case Err(e) => Err(e) case Ok(n) => Ok(total + n))
  }

  lemma {:induction false} ScatterAdvance(x: Xlate, h0: seq<byte>, segs: seq<Segment>, data: seq<byte>,
                                          h: seq<byte>, i: nat, remaining: seq<byte>, total: nat)
    requires InStore(x, |h0|) && i < |segs| && ScatterFrom(x, h0, segs, data, h, segs[i..], remaining, total)
    requires remaining != []
    ensures var n := Min(|remaining|, segs[i].len);
            match Store(x, h, segs[i].addr, remaining[..n])
            case None => Scatter(x, h0, segs, data) == (h, Err(OutOfBounds))
            case Some(h1) => ScatterFrom(x, h0, segs, data, h1, segs[i + 1..], remaining[n..], total + n)
  {
    assert segs[i..][1..] == segs[i + 1..];
  }

  ghost predicate IovecsSoFar(x: Xlate, segs: seq<Segment>, skip0: nat, max0: nat,
                              iov: seq<Iovec>, rest: seq<Segment>, skip: nat, max: nat)
  {
    Iovecs(x, segs, skip0, max0) == Prepend(iov, Iovecs(x, rest, skip, max))
  }

  lemma {:induction false} IovecsAdvance(x: Xlate, segs: seq<Segment>, skip0: nat, max0: nat,
                                         iov: seq<Iovec>, rest: seq<Segment>, skip: nat, max: nat)
    requires IovecsSoFar(x, segs, skip0, max0, iov, rest, skip, max) && rest != [] && max > 0
    ensures if skip >= rest[0].len then
              IovecsSoFar(x, segs, skip0, max0, iov, rest[1..], skip - rest[0].len, max)
            else
              var n := Min(rest[0].len - skip, max);
              match x(rest[0].addr + skip, n)
              case None => Iovecs(x, segs, skip0, max0) == Err(OutOfBounds)
              case Some(p) => IovecsSoFar(x, segs, skip0, max0, iov + [Iovec(p, n)], rest[1..], 0, max - n)
  {
    if skip < rest[0].len {
      var n := Min(rest[0].len - skip, max);
      match x(rest[0].addr + skip, n)
      case None =>
      case Some(p) => PrependLaws(iov, [Iovec(p, n)], Iovecs(x, rest[1..], 0, max - n));
    }
  }

  // ---- The queue object ----

  class Virtqueue {
    const cfg: Config
    var lastAvailIdx: u16

    constructor (size: u16, desc: u64, avail: u64, used: u64)
      ensures cfg == Config(desc, avail, used, size) && lastAvailIdx == 0
    {
      cfg := Config(desc, avail, used, size);
      lastAvailIdx := 0;
    }

    method SetAvailBase(idx: u16)
      modifies this
      ensures lastAvailIdx == idx
    {
      lastAvailIdx := idx;
    }

    method PopAvailNext(mem: GuestMemory) returns (r: Result<Option<u16>, VqError>)
      requires mem.Valid()
      modifies this
      ensures r == PopAvail(mem.user, mem.host[..], cfg, old(lastAvailIdx))
      ensures lastAvailIdx == if r.Ok? && r.value.Some? then NextIdx(old(lastAvailIdx)) else old(lastAvailIdx)
    {
      var availIdx := mem.ReadU16(User, cfg.avail + 2);
      if availIdx.None? {
        return Err(OutOfBounds);
      }
      if availIdx.value == lastAvailIdx {
        return Ok(None);
      }
      if cfg.size == 0 {
        return Err(Panicked);
      }
      var slot := lastAvailIdx % cfg.size;
      var head := mem.ReadU16(User, cfg.avail + AVAIL_RING_OFFSET + slot * 2);
      if head.None? {
        return Err(OutOfBounds);
      }
      lastAvailIdx := NextIdx(lastAvailIdx);
      r := Ok(head);
    }

    method ReadDescriptor(mem: GuestMemory, idx: u16) returns (r: Option<Desc>)
      requires mem.Valid()
      ensures r == ReadDesc(mem.user, mem.host[..], cfg.desc, idx)
    {
      var off := cfg.desc + idx * DESC_LEN;
      var addr := mem.ReadU64(User, off);
      var len := mem.ReadU32(User, off + 8);
      var flags := mem.ReadU16(User, off + 12);
      var next := mem.ReadU16(User, off + 14);
      if addr.None? || len.None? || flags.None? || next.None? {
          return None;
      }
      r := Some(Desc(addr.value, len.value, flags.value, next.value));
    }

    method ReadEntry(mem: GuestMemory, ghost t: Table, idx: u16) returns (r: Option<Desc>)
      requires mem.Valid() && Shows(t, mem.user, mem.host[..], cfg.desc)
      ensures r == t(idx)
    {
      r := ReadDescriptor(mem, idx);
    }

    method ReadChainAt(mem: GuestMemory, head: u16) returns (r: Result<DescChain, VqError>)
      requires mem.Valid()
      ensures r == ReadChain(TableAt(mem.user, mem.host[..], cfg.desc), head)
      ensures ReadsChain(mem.user, mem.host[..], cfg.desc, head, r)
    {
      ChainInMemory(mem.user, mem.host[..], cfg.desc, head);
      r := WalkChain(mem, TableAt(mem.user, mem.host[..], cfg.desc), head);
    }

    method WalkChain(mem: GuestMemory, ghost t: Table, head: u16) returns (r: Result<DescChain, VqError>)
      requires mem.Valid() && Shows(t, mem.user, mem.host[..], cfg.desc)
      ensures r == ReadChain(t, head)
    {
      var readable: seq<Segment>, writable: seq<Segment> := [], [];
      var idx := head;
      ghost var limit: nat := MAX_CHAIN_LEN;
      WalkStart(t, head, limit);
      for n := 0 to MAX_CHAIN_LEN
        invariant WalkFrom(t, head, limit, readable, writable, idx, limit - n)
      {
        var d := ReadEntry(mem, t, idx);
        WalkAdvance(t, head, limit, readable, writable, idx, limit - n);
        if d.None? {
          return Err(OutOfBounds);
        }
        if d.value.IsIndirect() {
          return Err(IndirectUnsupported);
        }
        if d.value.IsWrite() {
          writable := writable + [d.value.Seg()];
        } else {
          readable := readable + [d.value.Seg()];
        }
        if !d.value.HasNext() {
          return Ok(DescChain(head, readable, writable));
        }
        idx := d.value.next;
      }
      r := Err(ChainTooLong);
    }

    method GatherReadable(mem: GuestMemory, chain: DescChain) returns (r: Result<seq<byte>, VqError>)
      requires mem.Valid()
      ensures r == Gather(mem.gpa, mem.host[..], chain.readable)
    {
      var buf: seq<byte> := [];
      var segs := chain.readable;
      ghost var x, h := mem.gpa, mem.host[..];
      assert segs[0..] == segs;
      PrependLaws(buf, buf, Gather(x, h, segs));
      for i := 0 to |segs|
        invariant GatherFrom(x, h, segs, buf, segs[i..])
      {
        GatherAdvance(x, h, segs, buf, segs[i..]);
        assert segs[i..][1..] == segs[i + 1..];
        var s := mem.GetSlice(Gpa, segs[i].addr, segs[i].len);
        if s.None? {
          return Err(OutOfBounds);
        }
        buf := buf + s.value;
      }
      PrependLaws(buf, [], Gather(x, h, []));
      r := Ok(buf);
    }

    method GatherReadablePrefix(mem: GuestMemory, chain: DescChain, max: nat) returns (r: Result<seq<byte>, VqError>)
      requires mem.Valid()
      ensures r == GatherPrefix(mem.gpa, mem.host[..], chain.readable, max)
    {
      var buf: seq<byte> := [];
      var segs := chain.readable;
      ghost var x, h := mem.gpa, mem.host[..];
      assert segs[0..] == segs;
      PrependLaws(buf, buf, GatherPrefix(x, h, segs, max));
      for i := 0 to |segs|
        invariant |buf| <= max
        invariant PrefixFrom(x, h, segs, max, buf, segs[i..])
      {
        if |buf| >= max {
          PrependLaws(buf, [], GatherPrefix(x, h, segs[i..], 0));
          return Ok(buf);
        }
        PrefixAdvance(x, h, segs, max, buf, segs[i..]);
        assert segs[i..][1..] == segs[i + 1..];
        var want := Min(max - |buf|, segs[i].len);
        var s := mem.GetSlice(Gpa, segs[i].addr, want);
        if s.None? {
          return Err(OutOfBounds);
        }
        buf := buf + s.value;
      }
      PrependLaws(buf, [], GatherPrefix(x, h, [], 0));
      r := Ok(buf);
    }

    /** Returns the number of bytes written, as the 32-bit counter of the source holds it. */
    method ScatterWritable(mem: GuestMemory, chain: DescChain, data: seq<byte>) returns (r: Result<u32, VqError>)
      requires mem.Valid()
      modifies mem.host
      ensures mem.host[..] == Scatter(mem.gpa, old(mem.host[..]), chain.writable, data).0
      ensures r == Wrapped(Scatter(mem.gpa, old(mem.host[..]), chain.writable, data).1)
    {
      var remaining := data;
      var written: u32 := 0;
      var segs := chain.writable;
      ghost var x, h0, h, total := mem.gpa, mem.host[..], mem.host[..], 0;
      assert segs[0..] == segs;
      for i := 0 to |segs|
        invariant written == total % 0x1_0000_0000
        invariant mem.host[..] == h
        invariant ScatterFrom(x, h0, segs, data, h, segs[i..], remaining, total)
      {
        if remaining == [] {
          break;
        }
        ScatterAdvance(x, h0, segs, data, h, i, remaining, total);
        var n := Min(|remaining|, segs[i].len);
        var ok := mem.CopyIn(Gpa, segs[i].addr, remaining[..n]);
        if !ok {
          return Err(OutOfBounds);
        }
        h := mem.host[..];
        WrapAdd(total, n);
        remaining, written, total := remaining[n..], (written + n) % 0x1_0000_0000, total + n;
      }
      r := Ok(written);
    }

    static method IovecsFrom(mem: GuestMemory, segs: seq<Segment>, skip0: nat,
                             max: nat) returns (r: Result<seq<Iovec>, VqError>)
      requires mem.Valid()
      ensures r == Iovecs(mem.gpa, segs, skip0, max)
    {
      var iov: seq<Iovec> := [];
      var skip: nat, remaining: nat := skip0, max;
      ghost var x := mem.gpa;
      assert segs[0..] == segs;
      PrependLaws(iov, iov, Iovecs(x, segs, skip0, max));
      for i := 0 to |segs|
        invariant IovecsSoFar(x, segs, skip0, max, iov, segs[i..], skip, remaining)
      {
        if remaining == 0 {
          PrependLaws(iov, [], Iovecs(x, segs[i..], skip, 0));
          return Ok(iov);
        }
        IovecsAdvance(x, segs, skip0, max, iov, segs[i..], skip, remaining);
        assert segs[i..][1..] == segs[i + 1..];
        if skip >= segs[i].len {
          skip := skip - segs[i].len;
          continue;
        }
        var start := segs[i].addr + skip;
        var n := Min(segs[i].len - skip, remaining);
        skip := 0;
        remaining := remaining - n;
        var p := Resolve(mem.regions, Gpa, start, n);
        if p.None? {
          return Err(OutOfBounds);
        }
        iov := iov + [Iovec(p.value, n)];
      }
      PrependLaws(iov, [], Iovecs(x, [], skip, remaining));
      r := Ok(iov);
    }

    method WriteElem(mem: GuestMemory, elem: nat, head: u16, len: u32) returns (ok: bool)
      requires mem.Valid()
      modifies mem.host
      ensures (mem.host[..], ok) == StoreElem(mem.user, old(mem.host[..]), elem, head, len)
    {
      ok := mem.WriteU32(User, elem, head);
      if ok {
        ok := mem.WriteU32(User, elem + 4, len);
      }
    }

    method WriteUsed(mem: GuestMemory, elem: nat, idx: u16, head: u16, len: u32) returns (r: Result<(), VqError>)
      requires mem.Valid()
      modifies mem.host
      ensures (mem.host[..], r) == StoreUsed(mem.user, old(mem.host[..]), cfg.used, elem, idx, head, len)
    {
      var ok := WriteElem(mem, elem, head, len);
      if !ok {
        return Err(OutOfBounds);
      }
      ok := mem.WriteU16(User, cfg.used + 2, NextIdx(idx));
      r := if ok then Ok(()) else Err(OutOfBounds);
    }

    method PushUsedElem(mem: GuestMemory, head: u16, len: u32) returns (r: Result<(), VqError>)
      requires mem.Valid()
      modifies mem.host
      ensures (mem.host[..], r) == PushUsed(mem.user, old(mem.host[..]), cfg, head, len)
    {
      var idx := mem.ReadU16(User, cfg.used + 2);
      if idx.None? {
        return Err(OutOfBounds);
      }
      if cfg.size == 0 {
        return Err(Panicked);
      }
      r := WriteUsed(mem, UsedSlot(cfg, idx.value), idx.value, head, len);
    }
  }
}
