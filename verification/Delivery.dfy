/**
 Delivery through the rings (vhost_user/virtqueue.rs, vhost_user/server.rs): driver and device take
 steps in any order; what one publishes the other pops, and what one pushes the other reaps, exactly
 once and in order, however often the 16-bit indices wrap. The logs below record what each side
 actually read from or wrote to guest memory.
 */
module Delivery {
  import opened Basics
  import opened Bytes
  import opened Memory
  import opened Rings
  import V = Virtqueue
  import F = Fs
  import Z = ZeroCopy

  // ---- Slots ----

  lemma {:induction false} ModShift(m: nat, n: nat, r: nat)
    requires n > 0
    ensures (m * n + r) % n == r % n
  {
    if m > 0 {
      ModShift(m - 1, n, r);
      assert m * n + r == ((m - 1) * n + r) + n;
      AddOne((m - 1) * n + r, n);
    }
  }

  lemma {:induction false} AddOne(a: nat, n: nat)
    requires n > 0
    ensures (a + n) % n == a % n
  {
    var q := a / n;
    assert a + n == (q + 1) * n + a % n;
    DivUnique(a + n, n, q + 1, a % n);
  }

  /** With a size that divides 65536 the wrap of the 16-bit index does not show in the slot. */
  lemma {:induction false} SlotIsMod(i: nat, size: nat)
    requires size > 0 && 0x1_0000 % size == 0
    ensures i % 0x1_0000 % size == i % size
  {
    var c, a, r := 0x1_0000 / size, i / 0x1_0000, i % 0x1_0000;
    assert 0x1_0000 == c * size;
    assert i == a * c * size + r by {
      assert a * 0x1_0000 == a * c * size;
    }
    ModShift(a * c, size, r);
  }

  lemma {:induction false} NearDiffer(i: nat, j: nat, size: nat)
    requires size > 0 && i < j < i + size
    ensures i % size != j % size
  {
    var a, b := i / size, j / size;
    assert (b - a) * size == (j - j % size) - (i - i % size);
    Multiple(b - a, size);
  }

  /** Entries fewer than `size` apart never share a slot, exactly when `size` divides 65536. */
  lemma {:induction false} SlotsExact(size: nat)
    requires 0 < size < 0x1_0000
    ensures (forall i: nat, j: nat :: i < j < i + size ==> i % 0x1_0000 % size != j % 0x1_0000 % size)
            <==> 0x1_0000 % size == 0
  {
    if 0x1_0000 % size == 0 {
      forall i: nat, j: nat | i < j < i + size
        ensures i % 0x1_0000 % size != j % 0x1_0000 % size
      {
        SlotIsMod(i, size);
        SlotIsMod(j, size);
        NearDiffer(i, j, size);
      }
    } else {
      var i := 0x1_0000 - 0x1_0000 % size;
      DivUnique(i, size, 0x1_0000 / size, 0);
      assert i % 0x1_0000 % size == 0x1_0000 % 0x1_0000 % size;
    }
  }

  // ---- The protocol on the rings as values ----

  /**
   What has happened so far: heads the driver published, the head the device has popped and not yet
   pushed, elements the device pushed, elements the driver took back.
   */
  datatype Ledger = Ledger(published: seq<nat>, inflight: Option<nat>, log: seq<Elem>, seen: seq<Elem>) {
    /** Everything the device has popped, in pop order. */
    function Popped(): seq<nat> {
      Heads(log) + (if inflight.Some? then [inflight.value] else [])
    }
  }

  function Heads(log: seq<Elem>): (s: seq<nat>)
    ensures |s| == |log|
  {
    seq(|log|, i requires 0 <= i < |log| => log[i].head)
  }

  /**
   Nothing lost, repeated or reordered in either direction: what was popped is what was published
   first, what came back is what was pushed first.
   */
  ghost predicate InOrder(l: Ledger) {
    l.Popped() <= l.published && l.seen <= l.log
  }

  ghost predicate PendingAt(e: Env, v: View, l: Ledger, k: nat)
    requires e.q.size > 0 && |v.avail| == e.q.size
  {
    |l.Popped()| <= k < |l.published| ==> v.avail[Slot(e, k)] == l.published[k]
  }

  ghost predicate UnreadAt(e: Env, v: View, l: Ledger, k: nat)
    requires e.q.size > 0 && |v.used| == e.q.size
  {
    |l.seen| <= k < |l.log| ==> v.used[Slot(e, k)] == l.log[k]
  }

  /** Both indices count modulo 65536, and the slots hold every entry the other side has yet to read. */
  ghost predicate Inv(e: Env, v: View, last: nat, l: Ledger) {
    && 0 < e.q.size < 0x1_0000 && |v.avail| == |v.used| == e.q.size
    && InOrder(l) && |l.published| - |l.seen| <= e.q.size
    && v.availIdx == |l.published| % 0x1_0000
    && last == |l.Popped()| % 0x1_0000
    && v.usedIdx == |l.log| % 0x1_0000
    && (forall k: nat :: PendingAt(e, v, l, k))
    && (forall k: nat :: UnreadAt(e, v, l, k))
  }

  lemma {:induction false} SlotsApart(e: Env, i: nat, j: nat)
    requires 0 < e.q.size && 0x1_0000 % e.q.size == 0 && i < j < i + e.q.size
    ensures Slot(e, i) != Slot(e, j)
  {
    SlotIsMod(i, e.q.size);
    SlotIsMod(j, e.q.size);
    NearDiffer(i, j, e.q.size);
  }

  lemma {:induction false} NextIs(n: nat)
    ensures (n % 0x1_0000 + 1) % 0x1_0000 == (n + 1) % 0x1_0000
  {
  }

  lemma {:induction false} SameIdx(a: nat, b: nat)
    requires a <= b < a + 0x1_0000
    ensures a % 0x1_0000 == b % 0x1_0000 <==> a == b
  {
  }

  lemma {:induction false} PublishKeeps(e: Env, v: View, last: nat, l: Ledger, head: nat)
    requires Inv(e, v, last, l) && 0x1_0000 % e.q.size == 0 && |l.published| - |l.seen| < e.q.size
    ensures Inv(e, WithAvail(e, v, head), last, l.(published := l.published + [head]))
  {
    var v', l' := WithAvail(e, v, head), l.(published := l.published + [head]);
    var n := |l.published|;
    NextIs(n);
    forall k: nat
      ensures PendingAt(e, v', l', k)
    {
      if |l.Popped()| <= k < n {
        assert PendingAt(e, v, l, k);
        SlotsApart(e, k, n);
      }
    }
    forall k: nat
      ensures UnreadAt(e, v', l', k)
    {
      assert UnreadAt(e, v, l, k);
    }
  }

  /** `pop_avail` answers None exactly when nothing is pending, and otherwise the oldest pending head. */
  lemma {:induction false} PopExact(e: Env, v: View, last: nat, l: Ledger)
    requires Inv(e, v, last, l)
    ensures v.availIdx == last <==> |l.Popped()| == |l.published|
    ensures v.availIdx != last ==> |l.Popped()| < |l.published| && v.avail[last % e.q.size] == l.published[|l.Popped()|]
  {
    SameIdx(|l.Popped()|, |l.published|);
    assert PendingAt(e, v, l, |l.Popped()|);
  }

  lemma {:induction false} PopKeeps(e: Env, v: View, last: nat, l: Ledger)
    requires Inv(e, v, last, l) && l.inflight.None? && v.availIdx != last
    ensures Inv(e, v, (last + 1) % 0x1_0000, l.(inflight := Some(v.avail[last % e.q.size])))
  {
    PopExact(e, v, last, l);
    var l' := l.(inflight := Some(v.avail[last % e.q.size]));
    assert l'.Popped() == l.Popped() + [l.published[|l.Popped()|]];
    NextIs(|l.Popped()|);
    forall k: nat
      ensures PendingAt(e, v, l', k) && UnreadAt(e, v, l', k)
    {
      assert PendingAt(e, v, l, k) && UnreadAt(e, v, l, k);
    }
  }

  lemma {:induction false} PushKeeps(e: Env, v: View, last: nat, l: Ledger, len: nat)
    requires Inv(e, v, last, l) && 0x1_0000 % e.q.size == 0 && l.inflight.Some?
    ensures var elem := Elem(l.inflight.value, len);
            Inv(e, WithUsed(e, v, elem), last, l.(inflight := None, log := l.log + [elem]))
  {
    var elem := Elem(l.inflight.value, len);
    var v', l' := WithUsed(e, v, elem), l.(inflight := None, log := l.log + [elem]);
    assert l'.Popped() == l.Popped();
    var n := |l.log|;
    NextIs(n);
    forall k: nat
      ensures PendingAt(e, v', l', k)
    {
      assert PendingAt(e, v, l, k);
    }
    forall k: nat
      ensures UnreadAt(e, v', l', k)
    {
      if |l.seen| <= k < n {
        assert UnreadAt(e, v, l, k);
        SlotsApart(e, k, n);
      }
    }
  }

  /** The driver finds something to take back exactly when there is, and it is the oldest element. */
  lemma {:induction false} ReapKeeps(e: Env, v: View, last: nat, l: Ledger)
    requires Inv(e, v, last, l)
    ensures v.usedIdx != |l.seen| % 0x1_0000 <==> |l.seen| < |l.log|
    ensures |l.seen| < |l.log| ==> Inv(e, v, last, l.(seen := l.seen + [v.used[Slot(e, |l.seen|)]]))
  {
    SameIdx(|l.seen|, |l.log|);
    if |l.seen| < |l.log| {
      assert UnreadAt(e, v, l, |l.seen|);
      var l' := l.(seen := l.seen + [v.used[Slot(e, |l.seen|)]]);
      forall k: nat
        ensures PendingAt(e, v, l', k) && UnreadAt(e, v, l', k)
      {
        assert PendingAt(e, v, l, k) && UnreadAt(e, v, l, k);
      }
    }
  }

  // ---- Driver and device over guest memory ----

  datatype Sys = Sys(dev: Dev, inflight: Option<u16>, published: seq<u16>, seen: seq<Elem>)

  /**
   Driver: publish a head, take an element back, write a byte of its own memory. Device: pop a head,
   serve the popped head (with whatever the host kernel answers) and push its element.
   */
  datatype Action = Publish(head: u16) | Reap | Scribble(at: nat, b: byte) | Pop | Serve(k: F.Kernel)

  function LedgerOf(s: Sys): (l: Ledger) {
    Ledger(s.published, match s.inflight case None => None case Some(head) => Some(head), s.dev.log, s.seen)
  }

  ghost predicate SysInv(e: Env, s: Sys) {
    && Laid(e, |s.dev.host|)
    && e.avail + e.AvailLen() <= |s.dev.host| && e.used + e.UsedLen() <= |s.dev.host|
    && Inv(e, ViewOf(e, s.dev.host), s.dev.last, LedgerOf(s))
  }

  lemma {:induction false} RingsFit(e: Env, n: nat)
    requires Laid(e, n)
    ensures e.avail + e.AvailLen() <= n && e.used + e.UsedLen() <= n
  {
  }

  ghost function Published(e: Env, s: Sys, head: u16): (s': Sys)
    requires Laid(e, |s.dev.host|)
    ensures |s'.dev.host| == |s.dev.host|
  {
    RingsFit(e, |s.dev.host|);
    var n := |s.published|;
    s.(dev := s.dev.(host := PutAvail(e, s.dev.host, AvailPos(e, Slot(e, n)), head, (n + 1) % 0x1_0000)),
       published := s.published + [head])
  }

  /** The driver's own test for a new element in the used ring. */
  ghost predicate HasUsed(e: Env, s: Sys)
    requires Laid(e, |s.dev.host|)
  {
    RingsFit(e, |s.dev.host|);
    UsedIdx(e, s.dev.host) != |s.seen| % 0x1_0000
  }

  ghost function Reaped(e: Env, s: Sys): (s': Sys)
    requires Laid(e, |s.dev.host|)
    ensures |s'.dev.host| == |s.dev.host|
  {
    RingsFit(e, |s.dev.host|);
    s.(seen := s.seen + [UsedAt(e, s.dev.host, Slot(e, |s.seen|))])
  }

  function Scribbled(s: Sys, at: nat, b: byte): (s': Sys)
    requires at < |s.dev.host|
    ensures |s'.dev.host| == |s.dev.host|
  {
    s.(dev := s.dev.(host := s.dev.host[at := b]))
  }

  ghost function PoppedOne(e: Env, s: Sys): (s': Sys)
    requires Laid(e, |s.dev.host|)
    ensures |s'.dev.host| == |s.dev.host|
  {
    match V.PopAvail(e.user, s.dev.host, e.q, s.dev.last)
    case Ok(Some(head)) => s.(dev := s.dev.(last := V.NextIdx(s.dev.last)), inflight := Some(head))
    case Ok(None) => s
    case Err(_) => s
  }

  lemma {:induction false} AvailAsCounted(e: Env, v: View, n: nat, head: nat)
    requires e.q.size > 0 && |v.avail| == e.q.size && v.availIdx == n % 0x1_0000
    ensures WithAvail(e, v, head) == v.(avail := v.avail[Slot(e, n) := head], availIdx := (n + 1) % 0x1_0000)
  {
    NextIs(n);
  }

  lemma {:induction false} PublishView(e: Env, s: Sys, head: u16)
    requires Laid(e, |s.dev.host|) && e.avail + e.AvailLen() <= |s.dev.host| && e.used + e.UsedLen() <= |s.dev.host|
    requires AvailIdx(e, s.dev.host) == |s.published| % 0x1_0000
    ensures ViewOf(e, Published(e, s, head).dev.host) == WithAvail(e, ViewOf(e, s.dev.host), head)
  {
    var n := |s.published|;
    ViewAvail(e, s.dev.host, Slot(e, n), head, (n + 1) % 0x1_0000);
    AvailAsCounted(e, ViewOf(e, s.dev.host), n, head);
  }

  lemma {:induction false} PublishStep(e: Env, s: Sys, head: u16)
    requires SysInv(e, s) && |s.published| - |s.seen| < e.q.size && 0x1_0000 % e.q.size == 0
    ensures SysInv(e, Published(e, s, head))
  {
    var v := ViewOf(e, s.dev.host);
    PublishKeeps(e, v, s.dev.last, LedgerOf(s), head);
    PublishView(e, s, head);
    assert LedgerOf(Published(e, s, head)) == LedgerOf(s).(published := LedgerOf(s).published + [head]);
  }

  lemma {:induction false} ReapStep(e: Env, s: Sys)
    requires SysInv(e, s)
    ensures HasUsed(e, s) <==> |s.seen| < |s.dev.log|
    ensures HasUsed(e, s) ==> SysInv(e, Reaped(e, s))
  {
    ReapKeeps(e, ViewOf(e, s.dev.host), s.dev.last, LedgerOf(s));
  }

  lemma {:induction false} ScribbleStep(e: Env, s: Sys, at: nat, b: byte)
    requires SysInv(e, s) && at < |s.dev.host| && !e.InAvail(at) && !e.InUsed(at)
    ensures SysInv(e, Scribbled(s, at, b))
  {
    var h' := s.dev.host[at := b];
    forall i: nat
      ensures SameAt(e, s.dev.host, h', i)
    {
    }
    ViewSame(e, s.dev.host, h');
  }

  lemma {:induction false} PopStep(e: Env, s: Sys)
    requires SysInv(e, s) && s.inflight.None?
    ensures SysInv(e, PoppedOne(e, s))
    ensures V.PopAvail(e.user, s.dev.host, e.q, s.dev.last).Ok?
    ensures PoppedOne(e, s).inflight.None? <==> |s.dev.log| == |s.published|
  {
    var v := ViewOf(e, s.dev.host);
    PopView(e, s.dev.host, s.dev.last);
    PopExact(e, v, s.dev.last, LedgerOf(s));
    if v.availIdx != s.dev.last {
      PopKeeps(e, v, s.dev.last, LedgerOf(s));
      assert LedgerOf(PoppedOne(e, s)) == LedgerOf(s).(inflight := Some(v.avail[s.dev.last % e.q.size]));
    }
  }

  ghost function Completed(e: Env, s: Sys, k: F.Kernel): (s': Sys)
    requires Laid(e, |s.dev.host|) && s.inflight.Some?
    ensures |s'.dev.host| == |s.dev.host|
  {
    s.(dev := ServeHead(k, e, s.dev, s.inflight.value).dev, inflight := None)
  }

  lemma {:induction false} ServeStep(e: Env, s: Sys, k: F.Kernel)
    requires SysInv(e, s) && s.inflight.Some? && 0x1_0000 % e.q.size == 0
    requires HeadOffRings(e, s.dev, s.inflight.value) && ServeHead(k, e, s.dev, s.inflight.value).Done?
    ensures SysInv(e, Completed(e, s, k))
  {
    var head := s.inflight.value;
    HeadView(k, e, s.dev, head);
    PushKeeps(e, ViewOf(e, s.dev.host), s.dev.last, LedgerOf(s), ServeHead(k, e, s.dev, head).dev.log[|s.dev.log|].len);
  }

  // ---- Runs ----

  /** What a conforming driver does, and the device as long as no error stops it. */
  ghost predicate Enabled(e: Env, s: Sys, a: Action)
    requires Laid(e, |s.dev.host|)
  {
    match a
    case Publish(_) => |s.published| - |s.seen| < e.q.size
    case Reap => HasUsed(e, s)
    case Scribble(at, _) => at < |s.dev.host| && !e.InAvail(at) && !e.InUsed(at)
    case Pop => s.inflight.None?
    case Serve(k) => s.inflight.Some? && HeadOffRings(e, s.dev, s.inflight.value)
                     && ServeHead(k, e, s.dev, s.inflight.value).Done?
  }

  ghost function Next(e: Env, s: Sys, a: Action): (s': Sys)
    requires Laid(e, |s.dev.host|) && Enabled(e, s, a)
    ensures |s'.dev.host| == |s.dev.host|
  {
    match a
    case Publish(head) => Published(e, s, head)
    case Reap => Reaped(e, s)
    case Scribble(at, b) => Scribbled(s, at, b)
    case Pop => PoppedOne(e, s)
    case Serve(k) => Completed(e, s, k)
  }

  ghost predicate CanRun(e: Env, s: Sys, actions: seq<Action>)
    requires Laid(e, |s.dev.host|)
    decreases actions
  {
    actions == [] || (Enabled(e, s, actions[0]) && CanRun(e, Next(e, s, actions[0]), actions[1..]))
  }

  ghost function Run(e: Env, s: Sys, actions: seq<Action>): (s': Sys)
    requires Laid(e, |s.dev.host|) && CanRun(e, s, actions)
    ensures |s'.dev.host| == |s.dev.host|
    decreases actions
  {
    if actions == [] then s else Run(e, Next(e, s, actions[0]), actions[1..])
  }

  lemma {:induction false} StepKeeps(e: Env, s: Sys, a: Action)
    requires SysInv(e, s) && Enabled(e, s, a) && 0x1_0000 % e.q.size == 0
    ensures SysInv(e, Next(e, s, a))
  {
    match a
    case Publish(head) => PublishStep(e, s, head);
    case Reap => ReapStep(e, s);
    case Scribble(at, b) => ScribbleStep(e, s, at, b);
    case Pop => PopStep(e, s);
    case Serve(k) => ServeStep(e, s, k);
  }

  /** Every interleaving of driver and device steps keeps the rings in step with what happened. */
  lemma {:induction false} RunKeeps(e: Env, s: Sys, actions: seq<Action>)
    requires SysInv(e, s) && CanRun(e, s, actions) && 0x1_0000 % e.q.size == 0
    ensures SysInv(e, Run(e, s, actions))
    ensures InOrder(LedgerOf(Run(e, s, actions)))
    decreases actions
  {
    if actions != [] {
      StepKeeps(e, s, actions[0]);
      RunKeeps(e, Next(e, s, actions[0]), actions[1..]);
    }
  }

  /**
   Where a run may start: both ring indices and the device stand at one position, and all there was
   has been answered and taken back. A new queue is at rest at 0; SET_VRING_BASE names any other.
   */
  ghost predicate AtRest(e: Env, s: Sys, base: u16) {
    && Laid(e, |s.dev.host|)
    && e.avail + e.AvailLen() <= |s.dev.host| && e.used + e.UsedLen() <= |s.dev.host|
    && AvailIdx(e, s.dev.host) == UsedIdx(e, s.dev.host) == s.dev.last == base == |s.published| % 0x1_0000
    && s.inflight.None? && Heads(s.dev.log) == s.published && s.seen == s.dev.log
  }

  lemma {:induction false} RestOk(e: Env, s: Sys, base: u16)
    requires AtRest(e, s, base)
    ensures SysInv(e, s)
  {
    var l, v := LedgerOf(s), ViewOf(e, s.dev.host);
    assert l.Popped() == l.published;
    forall k: nat
      ensures PendingAt(e, v, l, k) && UnreadAt(e, v, l, k)
    {
    }
  }

  // ---- A queue size that does not divide 65536 ----

  /** `m` more heads, all 2, published in a row. */
  ghost function AfterBurst(e: Env, s: Sys, m: nat): (s': Sys)
    requires Laid(e, |s.dev.host|)
    ensures |s'.dev.host| == |s.dev.host|
    decreases m
  {
    if m == 0 then s else AfterBurst(e, Published(e, s, 2), m - 1)
  }

  function Burst(m: nat): (a: seq<Action>)
    ensures |a| == m + 1
  {
    if m == 0 then [Pop] else [Publish(2)] + Burst(m - 1)
  }

  lemma {:induction false} RunCons(e: Env, s: Sys, a: Action, rest: seq<Action>)
    requires Laid(e, |s.dev.host|) && Enabled(e, s, a) && CanRun(e, Next(e, s, a), rest)
    ensures CanRun(e, s, [a] + rest) && Run(e, s, [a] + rest) == Run(e, Next(e, s, a), rest)
  {
    assert ([a] + rest)[1..] == rest;
  }

  lemma {:induction false} RunFirst(e: Env, s: Sys, a: Action, rest: seq<Action>)
    requires Laid(e, |s.dev.host|) && CanRun(e, s, [a] + rest)
    ensures Enabled(e, s, a) && CanRun(e, Next(e, s, a), rest) && Run(e, s, [a] + rest) == Run(e, Next(e, s, a), rest)
  {
    assert ([a] + rest)[1..] == rest;
  }

  lemma {:induction false} PopRuns(e: Env, s: Sys)
    requires Laid(e, |s.dev.host|) && s.inflight.None?
    ensures CanRun(e, s, [Pop]) && Run(e, s, [Pop]) == PoppedOne(e, s)
  {
    RunCons(e, s, Pop, []);
    assert [Pop] + [] == [Pop];
  }

  /** The run is possible and ends in `t`. */
  ghost predicate RunsTo(e: Env, s: Sys, actions: seq<Action>, t: Sys)
    requires Laid(e, |s.dev.host|)
  {
    CanRun(e, s, actions) && Run(e, s, actions) == t
  }

  /** The first head of a burst, and what is left of it. */
  lemma {:induction false} BurstFirst(e: Env, s: Sys, m: nat, t: Sys) returns (s1: Sys)
    requires Laid(e, |s.dev.host|) && m > 0 && |s.published| - |s.seen| < e.q.size
    ensures |s1.dev.host| == |s.dev.host| && s1.inflight == s.inflight
    ensures |s1.published| == |s.published| + 1 && s1.seen == s.seen && AfterBurst(e, s, m) == AfterBurst(e, s1, m - 1)
    ensures RunsTo(e, s1, Burst(m - 1), t) ==> RunsTo(e, s, Burst(m), t)
  {
    s1 := Published(e, s, 2);
    if CanRun(e, s1, Burst(m - 1)) {
      RunCons(e, s, Publish(2), Burst(m - 1));
    }
  }

  lemma {:induction false} BurstRuns(e: Env, s: Sys, m: nat, t: Sys)
    requires Laid(e, |s.dev.host|) && s.inflight.None? && |s.published| - |s.seen| + m <= e.q.size
    requires t == PoppedOne(e, AfterBurst(e, s, m))
    ensures RunsTo(e, s, Burst(m), t)
    decreases m
  {
    if m == 0 {
      PopRuns(e, s);
    } else {
      var s1 := BurstFirst(e, s, m, t);
      BurstRuns(e, s1, m - 1, t);
    }
  }

  /** The rings are within the store and the available index counts what was published. */
  ghost predicate Counted(e: Env, s: Sys) {
    && Laid(e, |s.dev.host|) && e.avail + e.AvailLen() <= |s.dev.host| && e.used + e.UsedLen() <= |s.dev.host|
    && AvailIdx(e, s.dev.host) == |s.published| % 0x1_0000
  }

  lemma {:induction false} PublishLands(e: Env, s: Sys, head: u16)
    requires Counted(e, s)
    ensures Counted(e, Published(e, s, head))
    ensures AvailAt(e, Published(e, s, head).dev.host, Slot(e, |s.published|)) == head
  {
    var n := |s.published|;
    var at := AvailPos(e, Slot(e, n));
    PutAvailHolds(e, s.dev.host, at, head, (n + 1) % 0x1_0000, at);
  }

  lemma {:induction false} BurstKeeps(e: Env, s: Sys, m: nat)
    requires Laid(e, |s.dev.host|)
    ensures var s' := AfterBurst(e, s, m);
            && s'.dev.last == s.dev.last && s'.dev.log == s.dev.log && s'.inflight == s.inflight
            && s.published <= s'.published && |s'.published| == |s.published| + m
    decreases m
  {
    if m > 0 {
      BurstKeeps(e, Published(e, s, 2), m - 1);
    }
  }

  /** The youngest published head is in its slot, and it is `head`. */
  ghost predicate YoungestIs(e: Env, s: Sys, head: nat) {
    Counted(e, s) && s.published != [] && AvailAt(e, s.dev.host, Slot(e, |s.published| - 1)) == head
  }

  lemma {:induction false} BurstLands(e: Env, s: Sys, m: nat)
    requires Counted(e, s) && (m > 0 || YoungestIs(e, s, 2))
    ensures YoungestIs(e, AfterBurst(e, s, m), 2)
    decreases m
  {
    if m > 0 {
      PublishLands(e, s, 2);
      assert YoungestIs(e, Published(e, s, 2), 2);
      BurstLands(e, Published(e, s, 2), m - 1);
    }
  }

  lemma {:induction false} IdxPuts(e: Env, h: seq<byte>, n: u16) returns (h': seq<byte>)
    requires Laid(e, |h|)
    ensures |h'| == |h| && e.avail + e.AvailLen() <= |h| && e.used + e.UsedLen() <= |h|
    ensures AvailIdx(e, h') == n && UsedIdx(e, h') == n
  {
    PowFacts();
    RingsFit(e, |h|);
    var h1 := Put(h, e.used + 2, Le(n, 2));
    h' := Put(h1, e.avail + 2, Le(n, 2));
    assert AvailIdx(e, h') == n by {
      NumJustPut(h1, e.avail + 2, n, 2);
    }
    assert UsedIdx(e, h1) == n by {
      NumJustPut(h, e.used + 2, n, 2);
    }
    assert UsedIdx(e, h') == UsedIdx(e, h1) by {
      NumAfterPut(h1, e.avail + 2, Le(n, 2), e.used + 2, 2);
    }
  }

  /** A queue can be at rest at every position, over any store its rings fit in. */
  lemma {:induction false} RestAnywhere(e: Env, h: seq<byte>, n: u16) returns (s: Sys)
    requires Laid(e, |h|)
    ensures AtRest(e, s, n) && |s.dev.host| == |h| && |s.published| == n
  {
    var h' := IdxPuts(e, h, n);
    var log := seq(n, i => Elem(0, 0));
    s := Sys(Dev(h', Z.OpenAt(1, 0), n, log), None, seq(n, i => 0), log);
  }

  /**
   With a size that does not divide 65536, publishing across the wrap within the driver's rights puts
   two pending heads in one slot: the device pops the younger one where the older was due.
   */
  lemma {:induction false} WrapLosesHead(e: Env, s: Sys, n: u16, r: nat)
    requires Counted(e, s) && r == 0x1_0000 % e.q.size && 0 < r && n == 0x1_0000 - r
    requires |s.published| == |s.dev.log| == |s.seen| == s.dev.last == n && s.inflight.None?
    ensures CanRun(e, s, [Publish(1)] + Burst(r))
    ensures !InOrder(LedgerOf(Run(e, s, [Publish(1)] + Burst(r))))
  {
    BurstRuns(e, Published(e, s, 1), r, PoppedOne(e, AfterBurst(e, Published(e, s, 1), r)));
    RunCons(e, s, Publish(1), Burst(r));
    AcrossWrap(e, s, n, r);
  }

  lemma {:induction false} AcrossWrap(e: Env, s: Sys, n: u16, r: nat)
    requires Counted(e, s) && r == 0x1_0000 % e.q.size && 0 < r && n == 0x1_0000 - r
    requires |s.published| == |s.dev.log| == s.dev.last == n && s.inflight.None?
    ensures !InOrder(LedgerOf(PoppedOne(e, AfterBurst(e, Published(e, s, 1), r))))
  {
    var s1 := Published(e, s, 1);
    assert s1.published[n] == 1;
    assert Counted(e, s1) by {
      PublishLands(e, s, 1);
    }
    BurstKeeps(e, s1, r);
    BurstLands(e, s1, r);
    WrapSlot(e, n, r);
    PopsYounger(e, AfterBurst(e, s1, r), n);
  }

  lemma {:induction false} WrapSlot(e: Env, n: nat, r: nat)
    requires 0 < e.q.size && r == 0x1_0000 % e.q.size && n == 0x1_0000 - r
    ensures n % e.q.size == 0 && n > 1
  {
    DivUnique(n, e.q.size, 0x1_0000 / e.q.size, 0);
  }

  lemma {:induction false} PopsYounger(e: Env, s: Sys, n: u16)
    requires YoungestIs(e, s, 2) && n % e.q.size == 0 && n > 1
    requires |s.published| == 0x1_0001 && s.published[n] == 1 && s.dev.last == n && |s.dev.log| == n && s.inflight.None?
    ensures !InOrder(LedgerOf(PoppedOne(e, s)))
  {
    assert Slot(e, 0x1_0000) == 0;
    PopReads(e, s.dev.host, n);
    var l := LedgerOf(PoppedOne(e, s));
    assert l.Popped()[n] == 2;
  }

  /** With such a size there is a start and a run from it that delivers out of order. */
  lemma {:induction false} OutOfOrder(e: Env, h: seq<byte>) returns (s: Sys, base: u16, actions: seq<Action>)
    requires Laid(e, |h|) && 0x1_0000 % e.q.size != 0
    ensures AtRest(e, s, base) && |s.dev.host| == |h| && CanRun(e, s, actions)
    ensures !InOrder(LedgerOf(Run(e, s, actions)))
  {
    var r := 0x1_0000 % e.q.size;
    base := 0x1_0000 - r;
    s := RestAnywhere(e, h, base);
    actions := [Publish(1)] + Burst(r);
    WrapLosesHead(e, s, 0x1_0000 - r, r);
  }

  /** This run, from this start over a store of `n` bytes, delivers in order. */
  ghost predicate DeliversInOrder(e: Env, n: nat, s: Sys, base: u16, actions: seq<Action>) {
    AtRest(e, s, base) && |s.dev.host| == n && CanRun(e, s, actions) ==> InOrder(LedgerOf(Run(e, s, actions)))
  }

  lemma {:induction false} DividesInOrder(e: Env, n: nat, s: Sys, base: u16, actions: seq<Action>)
    requires Laid(e, n) && 0x1_0000 % e.q.size == 0
    ensures DeliversInOrder(e, n, s, base, actions)
  {
    if AtRest(e, s, base) && |s.dev.host| == n && CanRun(e, s, actions) {
      RestOk(e, s, base);
      RunKeeps(e, s, actions);
    }
  }

  /**
   Exactly-once, in-order delivery over every run of a conforming driver and the device, from whatever
   position the queue starts at, holds exactly for the queue sizes that divide 65536.
   */
  lemma {:induction false} DeliveryExact(e: Env, h: seq<byte>)
    requires Laid(e, |h|)
    ensures (forall s: Sys, base: u16, actions: seq<Action> :: DeliversInOrder(e, |h|, s, base, actions))
            <==> 0x1_0000 % e.q.size == 0
  {
    if 0x1_0000 % e.q.size == 0 {
      forall s: Sys, base: u16, actions: seq<Action>
        ensures DeliversInOrder(e, |h|, s, base, actions)
      {
        DividesInOrder(e, |h|, s, base, actions);
      }
    } else {
      var s, base, actions := OutOfOrder(e, h);
      assert !DeliversInOrder(e, |h|, s, base, actions);
    }
  }
}
