/**
 A condition on guest memory at the start of a drain under which the whole drain is orderly: every
 pending head begins a well-formed chain inside the descriptor table whose reply buffers stay off the
 rings and the table (what section 2.7 of VIRTIO 1.2 asks of a driver).
 */
module Conforming {
  import opened Basics
  import opened Bytes
  import opened Memory
  import opened Segments
  import opened Chains
  import opened Rings
  import opened Drain
  import V = Virtqueue
  import F = Fs
  import Z = ZeroCopy
  import L = Delivery

  /** The descriptor table is mapped at host index `desc` and shares no byte with the used ring. */
  ghost predicate Tabled(e: Env, desc: nat) {
    && e.user(e.q.desc, 16 * e.q.size) == Some(desc)
    && (desc + 16 * e.q.size <= e.used || e.used + e.UsedLen() <= desc)
  }

  predicate Guarded(e: Env, desc: nat, i: nat) {
    e.InAvail(i) || desc <= i < desc + 16 * e.q.size
  }

  /** The segments reach neither ring nor the descriptor table. */
  ghost predicate Clear(e: Env, desc: nat, segs: seq<Segment>) {
    forall i: nat :: Guarded(e, desc, i) || e.InUsed(i) ==> Unreachable(e.gpa, segs, i)
  }

  /** `path` is a chain from `head` within the table, and its reply buffers are clear. */
  ghost predicate SafePath(e: Env, desc: nat, t: Table, head: nat, path: seq<nat>) {
    && IsPath(t, path) && path[0] == head && |path| <= MAX_CHAIN_LEN
    && (forall j :: 0 <= j < |path| ==> path[j] < e.q.size)
    && Clear(e, desc, Pick(t, path, true))
  }

  ghost predicate SafeHead(e: Env, desc: nat, h: seq<byte>, head: nat)
    requires InStore(e.user, |h|)
  {
    exists path :: SafePath(e, desc, V.TableAt(e.user, h, e.q.desc), head, path)
  }

  /** The head `i` entries after the device's position is safe. */
  ghost predicate SafeAt(e: Env, desc: nat, h: seq<byte>, last: nat, i: nat)
    requires InStore(e.user, |h|) && e.avail + e.AvailLen() <= |h| && e.q.size > 0
  {
    SafeHead(e, desc, h, AvailAt(e, h, Slot(e, last + i)))
  }

  // ---- The guarded bytes do not change, so neither do the chains ----

  ghost predicate Kept(e: Env, desc: nat, h: seq<byte>, h': seq<byte>, i: nat) {
    Guarded(e, desc, i) && i < |h| && i < |h'| ==> h'[i] == h[i]
  }

  ghost predicate AllKept(e: Env, desc: nat, h: seq<byte>, h': seq<byte>) {
    |h'| == |h| && forall i: nat :: Kept(e, desc, h, h', i)
  }

  lemma {:induction false} KeptNum(e: Env, desc: nat, h: seq<byte>, h': seq<byte>, p: nat, k: nat)
    requires AllKept(e, desc, h, h') && p + k <= |h|
    requires (e.avail <= p && p + k <= e.avail + e.AvailLen()) || (desc <= p && p + k <= desc + 16 * e.q.size)
    ensures Num(h', p, k) == Num(h, p, k)
  {
    forall i | p <= i < p + k
      ensures h'[i] == h[i]
    {
      assert Kept(e, desc, h, h', i);
    }
    assert h'[p..p + k] == h[p..p + k];
  }

  lemma {:induction false} FieldKept(e: Env, desc: nat, h: seq<byte>, h': seq<byte>, off: nat, k: nat)
    requires Laid(e, |h|) && Tabled(e, desc) && AllKept(e, desc, h, h') && off + k <= 16 * e.q.size && 0 < k
    ensures LoadNum(e.user, h', e.q.desc + off, k) == LoadNum(e.user, h, e.q.desc + off, k)
  {
    UserNum(e, h, e.q.desc, 16 * e.q.size, desc, off, k);
    UserNum(e, h', e.q.desc, 16 * e.q.size, desc, off, k);
    KeptNum(e, desc, h, h', desc + off, k);
  }

  lemma {:induction false} DescKept(e: Env, desc: nat, h: seq<byte>, h': seq<byte>, idx: nat)
    requires Laid(e, |h|) && Tabled(e, desc) && AllKept(e, desc, h, h') && idx < e.q.size
    ensures V.ReadDesc(e.user, h', e.q.desc, idx) == V.ReadDesc(e.user, h, e.q.desc, idx)
  {
    var off := 16 * idx;
    FieldKept(e, desc, h, h', off, 8);
    FieldKept(e, desc, h, h', off + 8, 4);
    FieldKept(e, desc, h, h', off + 12, 2);
    FieldKept(e, desc, h, h', off + 14, 2);
    var at := e.q.desc + off;
    assert at + 8 == e.q.desc + (off + 8) && at + 12 == e.q.desc + (off + 12) && at + 14 == e.q.desc + (off + 14);
  }

  /** A path and its segments depend only on the descriptors along it. */
  lemma {:induction false} PathKept(t: Table, t': Table, path: seq<nat>)
    requires IsPath(t, path) && forall j :: 0 <= j < |path| ==> t'(path[j]) == t(path[j])
    ensures IsPath(t', path) && Pick(t', path, true) == Pick(t, path, true)
    decreases |path|
  {
    if |path| > 1 {
      PathKept(t, t', path[1..]);
    } else {
      assert path[1..] == [];
    }
  }

  /** A head that was safe at the start is still a chain with clear reply buffers. */
  lemma {:induction false} StillClear(e: Env, desc: nat, h: seq<byte>, h': seq<byte>, head: u16)
    requires Laid(e, |h|) && Tabled(e, desc) && AllKept(e, desc, h, h') && SafeHead(e, desc, h, head)
    ensures var c := ReadChain(V.TableAt(e.user, h', e.q.desc), head);
            c.Ok? && Clear(e, desc, c.value.writable)
  {
    var t, t' := V.TableAt(e.user, h, e.q.desc), V.TableAt(e.user, h', e.q.desc);
    var path :| SafePath(e, desc, t, head, path);
    forall j | 0 <= j < |path|
      ensures t'(path[j]) == t(path[j])
    {
      DescKept(e, desc, h, h', path[j]);
    }
    PathKept(t, t', path);
    PathIsWalked(t', path, MAX_CHAIN_LEN);
  }

  lemma {:induction false} ServeKept(k: F.Kernel, e: Env, desc: nat, d: Dev, chain: DescChain)
    requires InStore(e.gpa, |d.host|) && Clear(e, desc, chain.writable)
    ensures AllKept(e, desc, d.host, Z.ServeChain(k, e.gpa, d.host, d.state, chain).host)
  {
    var h' := Z.ServeChain(k, e.gpa, d.host, d.state, chain).host;
    forall i: nat
      ensures Kept(e, desc, d.host, h', i)
    {
      if Guarded(e, desc, i) && i < |d.host| {
        Z.ServeFrame(k, e.gpa, d.host, d.state, chain, i);
      }
    }
  }

  lemma {:induction false} PushKept(e: Env, desc: nat, h: seq<byte>, head: u16, len: u32)
    requires Laid(e, |h|) && Tabled(e, desc)
    ensures AllKept(e, desc, h, V.PushUsed(e.user, h, e.q, head, len).0)
  {
    var idx := UsedIdx(e, h);
    var at := UsedPos(e, idx % e.q.size);
    PushWrites(e, h, head, len, idx, at);
    forall i: nat
      ensures Kept(e, desc, h, PutUsed(e, h, at, Elem(head, len), V.NextIdx(idx)), i)
    {
      if Guarded(e, desc, i) && i < |h| {
        PutUsedFrame(e, h, at, Elem(head, len), V.NextIdx(idx), i);
      }
    }
  }

  lemma {:induction false} KeptTwice(e: Env, desc: nat, a: seq<byte>, b: seq<byte>, c: seq<byte>)
    requires AllKept(e, desc, a, b) && AllKept(e, desc, b, c)
    ensures AllKept(e, desc, a, c)
  {
    forall i: nat
      ensures Kept(e, desc, a, c, i)
    {
      assert Kept(e, desc, a, b, i) && Kept(e, desc, b, c, i);
    }
  }

  lemma {:induction false} FinishKept(e: Env, desc: nat, d: Dev, head: u16, r: Z.Served)
    requires Laid(e, |d.host|) && Tabled(e, desc) && |r.host| == |d.host|
    ensures AllKept(e, desc, r.host, Finish(e, d, head, r).dev.host)
  {
    if r.written.Ok? {
      PushKept(e, desc, r.host, head, r.written.value);
    }
  }

  lemma {:induction false} HeadKept(k: F.Kernel, e: Env, desc: nat, d: Dev, head: u16)
    requires Laid(e, |d.host|) && Tabled(e, desc)
    requires var c := ReadChain(V.TableAt(e.user, d.host, e.q.desc), head); c.Ok? && Clear(e, desc, c.value.writable)
    ensures HeadOffRings(e, d, head)
    ensures AllKept(e, desc, d.host, ServeHead(k, e, d, head).dev.host)
  {
    var chain := ReadChain(V.TableAt(e.user, d.host, e.q.desc), head).value;
    var r := Z.ServeChain(k, e.gpa, d.host, d.state, chain);
    ServeKept(k, e, desc, d, chain);
    FinishKept(e, desc, d, head, r);
    KeptTwice(e, desc, d.host, r.host, Finish(e, d, head, r).dev.host);
  }

  // ---- A conforming driver's queue is drained in order ----

  lemma {:induction false} NextClear(e: Env, desc: nat, h: seq<byte>, h': seq<byte>, slot: nat, head: u16)
    requires Laid(e, |h|) && Tabled(e, desc) && AllKept(e, desc, h, h') && e.avail + e.AvailLen() <= |h|
    requires slot < e.q.size && SafeHead(e, desc, h, AvailAt(e, h, slot)) && head == AvailAt(e, h', slot)
    ensures var c := ReadChain(V.TableAt(e.user, h', e.q.desc), head);
            c.Ok? && Clear(e, desc, c.value.writable)
  {
    KeptNum(e, desc, h, h', AvailPos(e, slot), 2);
    StillClear(e, desc, h, h', head);
  }

  lemma {:induction false} LastClear(e: Env, desc: nat, h: seq<byte>, h': seq<byte>, last: u16, head: u16)
    requires Laid(e, |h|) && Tabled(e, desc) && AllKept(e, desc, h, h') && e.avail + e.AvailLen() <= |h|
    requires SafeAt(e, desc, h, last, 0) && head == AvailAt(e, h', last % e.q.size)
    ensures var c := ReadChain(V.TableAt(e.user, h', e.q.desc), head);
            c.Ok? && Clear(e, desc, c.value.writable)
  {
    var slot := last % e.q.size;
    assert Slot(e, last + 0) == slot;
    NextClear(e, desc, h, h', slot, head);
  }

  /** The next turn comes across a clear chain, and leaves rings' publishing side and table alone. */
  lemma {:induction false} TurnKept(k: F.Kernel, e: Env, desc: nat, h: seq<byte>, d: Dev)
    requires Laid(e, |h|) && Tabled(e, desc) && AllKept(e, desc, h, d.host)
    requires e.avail + e.AvailLen() <= |h|
    requires AvailIdx(e, d.host) != d.last ==> SafeAt(e, desc, h, d.last, 0)
    ensures NextOffRings(e, d)
    ensures var t := TakeTurn(k, e, d); t.Done? ==> AllKept(e, desc, h, t.dev.host)
  {
    PopReads(e, d.host, d.last);
    PowFacts();
    if AvailIdx(e, d.host) != d.last {
      var head := AvailAt(e, d.host, d.last % e.q.size);
      LastClear(e, desc, h, d.host, d.last, head);
      var d1 := d.(last := V.NextIdx(d.last));
      HeadKept(k, e, desc, d1, head);
      KeptTwice(e, desc, h, d.host, ServeHead(k, e, d1, head).dev.host);
    }
  }

  lemma {:induction false} NextSafe(e: Env, desc: nat, h: seq<byte>, last: u16, i: nat)
    requires InStore(e.user, |h|) && e.avail + e.AvailLen() <= |h| && e.q.size > 0
    ensures SafeAt(e, desc, h, V.NextIdx(last), i) == SafeAt(e, desc, h, last, i + 1)
  {
    NextSlot(e, last, i);
  }

  lemma {:induction false} NextSlot(e: Env, last: u16, i: nat)
    requires e.q.size > 0
    ensures Slot(e, V.NextIdx(last) + i) == Slot(e, last + (i + 1))
  {
    assert (V.NextIdx(last) + i) % 0x1_0000 == (last + (i + 1)) % 0x1_0000;
  }

  ghost predicate SafeAhead(e: Env, desc: nat, h: seq<byte>, last: u16, n: nat)
    requires InStore(e.user, |h|) && e.avail + e.AvailLen() <= |h| && e.q.size > 0
  {
    forall i: nat :: i < n ==> SafeAt(e, desc, h, last, i)
  }

  lemma {:induction false} NextSafeAhead(e: Env, desc: nat, h: seq<byte>, last: u16, n: nat)
    requires InStore(e.user, |h|) && e.avail + e.AvailLen() <= |h| && e.q.size > 0
    requires n > 0 && SafeAhead(e, desc, h, last, n)
    ensures SafeAhead(e, desc, h, V.NextIdx(last), n - 1)
  {
    forall i: nat | i < n - 1
      ensures SafeAt(e, desc, h, V.NextIdx(last), i)
    {
      NextSafe(e, desc, h, last, i);
    }
  }

  /** Turns that each keep the guarded bytes, and come across clear chains as long as heads are pending. */
  ghost predicate KeptOn(e: Env, desc: nat, h: seq<byte>, turn: Loop, d: Dev)
    requires InStore(e.user, |h|) && e.avail + e.AvailLen() <= |h| && e.q.size > 0
  {
    AllKept(e, desc, h, d.host) && (Pending(e, d) > 0 ==> SafeAt(e, desc, h, d.last, 0)) ==>
      && NextOffRings(e, d) && Moves(e, d, turn(d))
      && (turn(d).Done? ==> AllKept(e, desc, h, turn(d).dev.host))
  }

  lemma {:induction false} KeptOrderly(e: Env, desc: nat, h: seq<byte>, turn: Loop, d: Dev, n: nat)
    requires InStore(e.user, |h|) && e.avail + e.AvailLen() <= |h| && e.q.size > 0
    requires forall d': Dev :: KeptOn(e, desc, h, turn, d')
    requires AllKept(e, desc, h, d.host) && n == Pending(e, d) && SafeAhead(e, desc, h, d.last, n)
    ensures Orderly(e, turn, d, n)
    decreases n
  {
    assert KeptOn(e, desc, h, turn, d);
    if turn(d).Done? {
      MovesCount(e, d, turn(d));
      NextSafeAhead(e, desc, h, d.last, n);
      KeptOrderly(e, desc, h, turn, turn(d).dev, n - 1);
    }
  }

  /**
   If at the start every pending head begins a chain within the table whose reply buffers reach
   neither ring nor the table, the drain is orderly from beginning to end, whatever the requests are.
   */
  lemma {:induction false} ConformingIsOrderly(ks: Answers, e: Env, desc: nat, d: Dev, n: nat)
    requires Laid(e, n) && |d.host| == n && Tabled(e, desc) && e.avail + e.AvailLen() <= n
    requires SafeAhead(e, desc, d.host, d.last, Pending(e, d))
    ensures Orderly(e, LoopOf(ks, e, n), d, Pending(e, d))
  {
    var turn := LoopOf(ks, e, n);
    forall d': Dev
      ensures KeptOn(e, desc, d.host, turn, d')
    {
      if AllKept(e, desc, d.host, d'.host) && (Pending(e, d') > 0 ==> SafeAt(e, desc, d.host, d'.last, 0)) {
        TurnKept(ks(|d'.log|), e, desc, d.host, d');
        TurnMoves(ks(|d'.log|), e, d');
      }
    }
    KeptOrderly(e, desc, d.host, turn, d, Pending(e, d));
  }

  /**
   From any point in a run, a queue with a size that divides 65536 whose pending heads are all safe is
   drained to the end: the loop stops by itself, and without an error every published head has been
   answered exactly once, in order.
   */
  lemma {:induction false} ConformingConserves(ks: Answers, e: Env, desc: nat, s: L.Sys, n: nat)
    requires L.SysInv(e, s) && |s.dev.host| == n && s.inflight.None? && 0x1_0000 % e.q.size == 0
    requires Tabled(e, desc) && SafeAhead(e, desc, s.dev.host, s.dev.last, Pending(e, s.dev))
    ensures var fuel := Pending(e, s.dev);
            var r := DrainAll(LoopOf(ks, e, n), s.dev, fuel);
            && Ends(LoopOf(ks, e, n), s.dev, fuel)
            && Drained(e, s, r)
            && (r.1.Ok? ==> L.Heads(r.0.log) == s.published && |r.0.log| - |s.dev.log| == fuel)
  {
    ConformingIsOrderly(ks, e, desc, s.dev, n);
    DrainConserves(ks, e, s, n);
  }
}
