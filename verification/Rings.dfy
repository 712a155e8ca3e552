/**
 The available and used rings between driver and device (sections 2.7.6 and 2.7.8 of VIRTIO 1.2;
 vhost_user/virtqueue.rs, the loop of vhost_user/server.rs): one turn of the device's loop, the
 driver's side of the protocol, and what holds over every interleaving of the two.
 */
module Rings {
  import opened Basics
  import opened Bytes
  import opened Memory
  import opened Segments
  import opened Chains
  import V = Virtqueue
  import F = Fs
  import D = Dispatch
  import Z = ZeroCopy

  /** A queue in guest memory; `avail` and `used` are the host indices its two rings start at. */
  datatype Env = Env(gpa: Xlate, user: Xlate, q: V.Config, avail: nat, used: nat) {
    function AvailLen(): nat { 4 + 2 * q.size }
    function UsedLen(): nat { 4 + 8 * q.size }

    predicate InAvail(i: nat) { avail <= i < avail + AvailLen() }
    predicate InUsed(i: nat) { used <= i < used + UsedLen() }
  }

  /** The queue has room for an entry and its rings are mapped and do not share bytes. */
  ghost predicate Laid(e: Env, n: nat) {
    && e.q.size > 0
    && InStore(e.gpa, n) && InStore(e.user, n) && Linear(e.user)
    && e.user(e.q.avail, e.AvailLen()) == Some(e.avail)
    && e.user(e.q.used, e.UsedLen()) == Some(e.used)
    && (e.avail + e.AvailLen() <= e.used || e.used + e.UsedLen() <= e.avail)
  }

  datatype Elem = Elem(head: nat, len: nat)

  // ---- What the rings hold ----

  function AvailIdx(e: Env, h: seq<byte>): (r: nat)
    requires e.avail + e.AvailLen() <= |h|
    ensures r < 0x1_0000
  {
    PowFacts();
    Num(h, e.avail + 2, 2)
  }

  function AvailAt(e: Env, h: seq<byte>, slot: nat): (r: nat)
    requires e.avail + e.AvailLen() <= |h| && slot < e.q.size
  {
    Num(h, AvailPos(e, slot), 2)
  }

  function UsedIdx(e: Env, h: seq<byte>): (r: nat)
    requires e.used + e.UsedLen() <= |h|
    ensures r < 0x1_0000
  {
    PowFacts();
    Num(h, e.used + 2, 2)
  }

  function UsedAt(e: Env, h: seq<byte>, slot: nat): (r: Elem)
    requires e.used + e.UsedLen() <= |h| && slot < e.q.size
  {
    ElemAt(h, UsedPos(e, slot))
  }

  /** Ring slot of the entry with running number `i`: the 16-bit index, modulo the queue size. */
  function Slot(e: Env, i: nat): (r: nat)
    requires e.q.size > 0
    ensures r < e.q.size
  {
    i % 0x1_0000 % e.q.size
  }

  // ---- The device's accesses, in those terms ----

  lemma {:induction false} UserNum(e: Env, h: seq<byte>, base: nat, len: nat, p: nat, off: nat, k: nat)
    requires InStore(e.user, |h|) && Linear(e.user) && e.user(base, len) == Some(p)
    requires off + k <= len && 0 < k
    ensures p + len <= |h| && LoadNum(e.user, h, base + off, k) == Some(Num(h, p + off, k))
  {
    assert PartMapped(e.user, base, len, base + off, k);
  }

  lemma {:induction false} PopReads(e: Env, h: seq<byte>, last: u16)
    requires Laid(e, |h|)
    ensures V.PopAvail(e.user, h, e.q, last)
            == Ok(if AvailIdx(e, h) == last then None else Some(AvailAt(e, h, last % e.q.size)))
  {
    UserNum(e, h, e.q.avail, e.AvailLen(), e.avail, 2, 2);
    UserNum(e, h, e.q.avail, e.AvailLen(), e.avail, 4 + last % e.q.size * 2, 2);
  }

  lemma {:induction false} UserStore(e: Env, h: seq<byte>, base: nat, len: nat, p: nat, off: nat, data: seq<byte>)
    requires InStore(e.user, |h|) && Linear(e.user) && e.user(base, len) == Some(p)
    requires off + |data| <= len && data != []
    ensures p + len <= |h| && Store(e.user, h, base + off, data) == Some(Put(h, p + off, data))
  {
    assert PartMapped(e.user, base, len, base + off, |data|);
  }

  lemma {:induction false} NumAfterPut(h: seq<byte>, at: nat, data: seq<byte>, p: nat, k: nat)
    requires at + |data| <= |h| && p + k <= |h| && (p + k <= at || at + |data| <= p)
    ensures Num(Put(h, at, data), p, k) == Num(h, p, k)
  {
    assert Put(h, at, data)[p..p + k] == h[p..p + k];
  }

  lemma {:induction false} NumJustPut(h: seq<byte>, at: nat, v: nat, k: nat)
    requires at + k <= |h| && v < Pow256(k)
    ensures Num(Put(h, at, Le(v, k)), at, k) == v
  {
    assert Put(h, at, Le(v, k))[at..at + k] == Le(v, k);
    FromLeOfLe(v, k);
  }

  /** A used element at host index `at`. */
  function PutElem(h: seq<byte>, at: nat, head: u16, len: u32): (h': seq<byte>)
    requires at + 8 <= |h|
    ensures |h'| == |h|
  {
    Put(Put(h, at, Le(head, 4)), at + 4, Le(len, 4))
  }

  function ElemAt(h: seq<byte>, at: nat): (r: Elem)
    requires at + 8 <= |h|
  {
    Elem(Num(h, at, 4), Num(h, at + 4, 4))
  }

  lemma {:induction false} ElemJustPut(h: seq<byte>, at: nat, head: u16, len: u32)
    requires at + 8 <= |h|
    ensures ElemAt(PutElem(h, at, head, len), at) == Elem(head, len)
  {
    PowFacts();
    var h1 := Put(h, at, Le(head, 4));
    NumJustPut(h, at, head, 4);
    NumAfterPut(h1, at + 4, Le(len, 4), at, 4);
    NumJustPut(h1, at + 4, len, 4);
  }

  lemma {:induction false} ElemAfterPut(h: seq<byte>, at: nat, head: u16, len: u32, p: nat)
    requires at + 8 <= |h| && p + 8 <= |h| && (p + 8 <= at || at + 8 <= p)
    ensures ElemAt(PutElem(h, at, head, len), p) == ElemAt(h, p)
  {
    var h1 := Put(h, at, Le(head, 4));
    NumAfterPut(h1, at + 4, Le(len, 4), p, 4);
    NumAfterPut(h1, at + 4, Le(len, 4), p + 4, 4);
    NumAfterPut(h, at, Le(head, 4), p, 4);
    NumAfterPut(h, at, Le(head, 4), p + 4, 4);
  }

  lemma {:induction false} ElemKept(h: seq<byte>, at: nat, data: seq<byte>, p: nat)
    requires at + |data| <= |h| && p + 8 <= |h| && (p + 8 <= at || at + |data| <= p)
    ensures ElemAt(Put(h, at, data), p) == ElemAt(h, p)
  {
    NumAfterPut(h, at, data, p, 4);
    NumAfterPut(h, at, data, p + 4, 4);
  }

  /** Host index of used-ring slot `slot`. */
  function UsedPos(e: Env, slot: nat): (p: nat)
    requires slot < e.q.size
    ensures e.used + 4 <= p && p + 8 <= e.used + e.UsedLen()
  {
    e.used + 4 + 8 * slot
  }

  /** A used element at `at`, then the ring index `next`. */
  function PutUsed(e: Env, h: seq<byte>, at: nat, elem: Elem, next: u16): (h': seq<byte>)
    requires e.used + 4 <= at && at + 8 <= e.used + e.UsedLen() <= |h|
    requires elem.head < 0x1_0000 && elem.len < 0x1_0000_0000
    ensures |h'| == |h|
  {
    Put(PutElem(h, at, elem.head, elem.len), e.used + 2, Le(next, 2))
  }

  lemma {:induction false} PutUsedFrame(e: Env, h: seq<byte>, at: nat, elem: Elem, next: u16, i: nat)
    requires e.used + 4 <= at && at + 8 <= e.used + e.UsedLen() <= |h|
    requires elem.head < 0x1_0000 && elem.len < 0x1_0000_0000
    requires i < |h| && !e.InUsed(i)
    ensures PutUsed(e, h, at, elem, next)[i] == h[i]
  {
  }

  lemma {:induction false} PutUsedHolds(e: Env, h: seq<byte>, at: nat, elem: Elem, next: u16, p: nat)
    requires e.used + 4 <= at && at + 8 <= e.used + e.UsedLen() <= |h|
    requires elem.head < 0x1_0000 && elem.len < 0x1_0000_0000
    requires e.used + 4 <= p && p + 8 <= e.used + e.UsedLen() && (p == at || p + 8 <= at || at + 8 <= p)
    ensures UsedIdx(e, PutUsed(e, h, at, elem, next)) == next
    ensures ElemAt(PutUsed(e, h, at, elem, next), p) == if p == at then elem else ElemAt(h, p)
  {
    var h1 := PutElem(h, at, elem.head, elem.len);
    PowFacts();
    NumJustPut(h1, e.used + 2, next, 2);
    ElemKept(h1, e.used + 2, Le(next, 2), p);
    if p == at {
      ElemJustPut(h, at, elem.head, elem.len);
    } else {
      ElemAfterPut(h, at, elem.head, elem.len, p);
    }
  }

  lemma {:induction false} ElemWrites(e: Env, h: seq<byte>, addr: nat, at: nat, head: u16, len: u32)
    requires Laid(e, |h|) && addr - e.q.used == at - e.used
    requires e.used + 4 <= at && at + 8 <= e.used + e.UsedLen()
    ensures e.used + e.UsedLen() <= |h|
    ensures V.StoreElem(e.user, h, addr, head, len) == (PutElem(h, at, head, len), true)
  {
    UserStore(e, h, e.q.used, e.UsedLen(), e.used, at - e.used, Le(head, 4));
    UserStore(e, Put(h, at, Le(head, 4)), e.q.used, e.UsedLen(), e.used, at - e.used + 4, Le(len, 4));
  }

  lemma {:induction false} PushStep(x: Xlate, h: seq<byte>, q: V.Config, head: u16, len: u32, idx: u16, addr: nat,
                                    h1: seq<byte>, h2: seq<byte>)
    requires InStore(x, |h|) && q.size > 0 && |h1| == |h| && addr == V.UsedSlot(q, idx)
    requires LoadNum(x, h, q.used + 2, 2) == Some(idx)
    requires V.StoreElem(x, h, addr, head, len) == (h1, true)
    requires Store(x, h1, q.used + 2, Le(V.NextIdx(idx), 2)) == Some(h2)
    ensures V.PushUsed(x, h, q, head, len) == (h2, Ok(()))
  {
  }

  lemma {:induction false} IdxWrites(e: Env, h: seq<byte>, at: nat, elem: Elem, next: u16)
    requires Laid(e, |h|) && e.used + 4 <= at && at + 8 <= e.used + e.UsedLen() <= |h|
    requires elem.head < 0x1_0000 && elem.len < 0x1_0000_0000
    ensures Store(e.user, PutElem(h, at, elem.head, elem.len), e.q.used + 2, Le(next, 2))
            == Some(PutUsed(e, h, at, elem, next))
  {
    UserStore(e, PutElem(h, at, elem.head, elem.len), e.q.used, e.UsedLen(), e.used, 2, Le(next, 2));
  }

  lemma {:induction false} PushAt(e: Env, h: seq<byte>, elem: Elem, idx: u16, addr: nat, at: nat, h1: seq<byte>,
                                  h2: seq<byte>)
    requires Laid(e, |h|) && e.used + e.UsedLen() <= |h| && idx == UsedIdx(e, h) && addr - e.q.used == at - e.used
    requires e.used + 4 <= at && at + 8 <= e.used + e.UsedLen() && elem.head < 0x1_0000 && elem.len < 0x1_0000_0000
    requires h1 == PutElem(h, at, elem.head, elem.len) && h2 == PutUsed(e, h, at, elem, V.NextIdx(idx))
    ensures LoadNum(e.user, h, e.q.used + 2, 2) == Some(idx)
    ensures V.StoreElem(e.user, h, addr, elem.head, elem.len) == (h1, true)
    ensures Store(e.user, h1, e.q.used + 2, Le(V.NextIdx(idx), 2)) == Some(h2)
  {
    UserNum(e, h, e.q.used, e.UsedLen(), e.used, 2, 2);
    ElemWrites(e, h, addr, at, elem.head, elem.len);
    IdxWrites(e, h, at, elem, V.NextIdx(idx));
  }

  lemma {:induction false} PushWrites(e: Env, h: seq<byte>, head: u16, len: u32, idx: u16, at: nat)
    requires Laid(e, |h|) && e.used + e.UsedLen() <= |h| && idx == UsedIdx(e, h) && at == UsedPos(e, idx % e.q.size)
    ensures V.PushUsed(e.user, h, e.q, head, len) == (PutUsed(e, h, at, Elem(head, len), V.NextIdx(idx)), Ok(()))
  {
    var addr := V.UsedSlot(e.q, idx);
    var h1, h2 := PutElem(h, at, head, len), PutUsed(e, h, at, Elem(head, len), V.NextIdx(idx));
    PushAt(e, h, Elem(head, len), idx, addr, at, h1, h2);
    PushStep(e.user, h, e.q, head, len, idx, addr, h1, h2);
  }

  // ---- The rings as values ----

  /** Both rings: the 16-bit indices, and what each slot holds. */
  datatype View = View(availIdx: nat, avail: seq<nat>, usedIdx: nat, used: seq<Elem>)

  function ViewOf(e: Env, h: seq<byte>): (v: View)
    requires e.avail + e.AvailLen() <= |h| && e.used + e.UsedLen() <= |h|
    ensures |v.avail| == |v.used| == e.q.size
  {
    View(AvailIdx(e, h), seq(e.q.size, i requires 0 <= i < e.q.size => AvailAt(e, h, i)),
         UsedIdx(e, h), seq(e.q.size, i requires 0 <= i < e.q.size => UsedAt(e, h, i)))
  }

  ghost predicate SameAt(e: Env, h: seq<byte>, h': seq<byte>, i: nat) {
    (e.InAvail(i) || e.InUsed(i)) && i < |h| && i < |h'| ==> h'[i] == h[i]
  }

  lemma {:induction false} NumSame(e: Env, h: seq<byte>, h': seq<byte>, p: nat, k: nat)
    requires |h'| == |h| && p + k <= |h| && forall i: nat :: SameAt(e, h, h', i)
    requires (e.avail <= p && p + k <= e.avail + e.AvailLen()) || (e.used <= p && p + k <= e.used + e.UsedLen())
    ensures Num(h', p, k) == Num(h, p, k)
  {
    forall i | p <= i < p + k
      ensures h'[i] == h[i]
    {
      assert SameAt(e, h, h', i);
    }
    assert h'[p..p + k] == h[p..p + k];
  }

  lemma {:induction false} SlotSame(e: Env, h: seq<byte>, h': seq<byte>, slot: nat)
    requires e.avail + e.AvailLen() <= |h| && e.used + e.UsedLen() <= |h| && |h'| == |h| && slot < e.q.size
    requires forall i: nat :: SameAt(e, h, h', i)
    ensures AvailAt(e, h', slot) == AvailAt(e, h, slot) && UsedAt(e, h', slot) == UsedAt(e, h, slot)
  {
    NumSame(e, h, h', e.avail + 4 + 2 * slot, 2);
    NumSame(e, h, h', UsedPos(e, slot), 4);
    NumSame(e, h, h', UsedPos(e, slot) + 4, 4);
  }

  /** The rings are a function of their own bytes. */
  lemma {:induction false} ViewSame(e: Env, h: seq<byte>, h': seq<byte>)
    requires e.avail + e.AvailLen() <= |h| && e.used + e.UsedLen() <= |h| && |h'| == |h|
    requires forall i: nat :: SameAt(e, h, h', i)
    ensures ViewOf(e, h') == ViewOf(e, h)
  {
    NumSame(e, h, h', e.avail + 2, 2);
    NumSame(e, h, h', e.used + 2, 2);
    var v, v' := ViewOf(e, h), ViewOf(e, h');
    forall i | 0 <= i < e.q.size
      ensures v'.avail[i] == v.avail[i] && v'.used[i] == v.used[i]
    {
      SlotSame(e, h, h', i);
    }
  }

  /** `v` with `elem` put in the used ring and the used index moved on. */
  function WithUsed(e: Env, v: View, elem: Elem): (v': View)
    requires e.q.size > 0 && |v.used| == e.q.size
  {
    v.(used := v.used[v.usedIdx % e.q.size := elem], usedIdx := (v.usedIdx + 1) % 0x1_0000)
  }

  /** `v` with `head` put in the available ring and the available index moved on. */
  function WithAvail(e: Env, v: View, head: nat): (v': View)
    requires e.q.size > 0 && |v.avail| == e.q.size
  {
    v.(avail := v.avail[v.availIdx % e.q.size := head], availIdx := (v.availIdx + 1) % 0x1_0000)
  }

  lemma {:induction false} PutUsedAvail(e: Env, h: seq<byte>, at: nat, elem: Elem, next: u16)
    requires Laid(e, |h|) && e.used + 4 <= at && at + 8 <= e.used + e.UsedLen() <= |h|
    requires elem.head < 0x1_0000 && elem.len < 0x1_0000_0000
    ensures var h' := PutUsed(e, h, at, elem, next);
            && AvailIdx(e, h') == AvailIdx(e, h)
            && (forall i: nat :: i < e.q.size ==> AvailAt(e, h', i) == AvailAt(e, h, i))
  {
    PutUsedNum(e, h, at, elem, next, e.avail + 2, 2);
    forall i: nat | i < e.q.size
      ensures AvailAt(e, PutUsed(e, h, at, elem, next), i) == AvailAt(e, h, i)
    {
      PutUsedNum(e, h, at, elem, next, e.avail + 4 + 2 * i, 2);
    }
  }

  lemma {:induction false} PutUsedNum(e: Env, h: seq<byte>, at: nat, elem: Elem, next: u16, p: nat, k: nat)
    requires e.used + 4 <= at && at + 8 <= e.used + e.UsedLen() <= |h|
    requires elem.head < 0x1_0000 && elem.len < 0x1_0000_0000
    requires p + k <= |h| && (p + k <= e.used || e.used + e.UsedLen() <= p)
    ensures Num(PutUsed(e, h, at, elem, next), p, k) == Num(h, p, k)
  {
    var h1 := Put(h, at, Le(elem.head, 4));
    NumAfterPut(h, at, Le(elem.head, 4), p, k);
    NumAfterPut(h1, at + 4, Le(elem.len, 4), p, k);
    NumAfterPut(Put(h1, at + 4, Le(elem.len, 4)), e.used + 2, Le(next, 2), p, k);
  }

  lemma {:induction false} ViewUsed(e: Env, h: seq<byte>, slot: nat, elem: Elem, next: u16)
    requires Laid(e, |h|) && e.avail + e.AvailLen() <= |h| && e.used + e.UsedLen() <= |h| && slot < e.q.size
    requires elem.head < 0x1_0000 && elem.len < 0x1_0000_0000
    ensures var v := ViewOf(e, h);
            ViewOf(e, PutUsed(e, h, UsedPos(e, slot), elem, next)) == v.(used := v.used[slot := elem], usedIdx := next)
  {
    var h' := PutUsed(e, h, UsedPos(e, slot), elem, next);
    PutUsedAvail(e, h, UsedPos(e, slot), elem, next);
    forall i: nat | i < e.q.size
      ensures UsedAt(e, h', i) == if i == slot then elem else UsedAt(e, h, i)
    {
      PutUsedHolds(e, h, UsedPos(e, slot), elem, next, UsedPos(e, i));
    }
    PutUsedHolds(e, h, UsedPos(e, slot), elem, next, UsedPos(e, slot));
  }

  /** What `push_used` does, on the rings as values. */
  lemma {:induction false} PushView(e: Env, h: seq<byte>, head: u16, len: u32)
    requires Laid(e, |h|)
    ensures e.avail + e.AvailLen() <= |h| && e.used + e.UsedLen() <= |h|
    ensures V.PushUsed(e.user, h, e.q, head, len).1.Ok?
    ensures ViewOf(e, V.PushUsed(e.user, h, e.q, head, len).0) == WithUsed(e, ViewOf(e, h), Elem(head, len))
  {
    var idx := UsedIdx(e, h);
    PushViewAt(e, h, head, len, idx, idx % e.q.size);
  }

  lemma {:induction false} PushViewAt(e: Env, h: seq<byte>, head: u16, len: u32, idx: u16, slot: nat)
    requires Laid(e, |h|) && e.avail + e.AvailLen() <= |h| && e.used + e.UsedLen() <= |h|
    requires idx == UsedIdx(e, h) && slot == idx % e.q.size
    ensures V.PushUsed(e.user, h, e.q, head, len).1.Ok?
    ensures var v := ViewOf(e, h);
            ViewOf(e, V.PushUsed(e.user, h, e.q, head, len).0)
            == v.(used := v.used[slot := Elem(head, len)], usedIdx := V.NextIdx(idx))
  {
    PushWrites(e, h, head, len, idx, UsedPos(e, slot));
    ViewUsed(e, h, slot, Elem(head, len), V.NextIdx(idx));
  }

  /** What `pop_avail` finds, on the rings as values. */
  lemma {:induction false} PopView(e: Env, h: seq<byte>, last: u16)
    requires Laid(e, |h|)
    ensures e.avail + e.AvailLen() <= |h| && e.used + e.UsedLen() <= |h|
    ensures var v := ViewOf(e, h);
            V.PopAvail(e.user, h, e.q, last) == Ok(if v.availIdx == last then None else Some(v.avail[last % e.q.size]))
  {
    PopReads(e, h, last);
  }

  // ---- The driver's writes ----

  /** Host index of available-ring slot `slot`. */
  function AvailPos(e: Env, slot: nat): (p: nat)
    requires slot < e.q.size
    ensures e.avail + 4 <= p && p + 2 <= e.avail + e.AvailLen()
  {
    e.avail + 4 + 2 * slot
  }

  /** A head at `at`, then the ring index `next`. */
  function PutAvail(e: Env, h: seq<byte>, at: nat, head: u16, next: u16): (h': seq<byte>)
    requires e.avail + 4 <= at && at + 2 <= e.avail + e.AvailLen() <= |h|
    ensures |h'| == |h|
  {
    Put(Put(h, at, Le(head, 2)), e.avail + 2, Le(next, 2))
  }

  lemma {:induction false} PutAvailHolds(e: Env, h: seq<byte>, at: nat, head: u16, next: u16, p: nat)
    requires e.avail + 4 <= at && at + 2 <= e.avail + e.AvailLen() <= |h|
    requires e.avail + 4 <= p && p + 2 <= e.avail + e.AvailLen() && (p == at || p + 2 <= at || at + 2 <= p)
    ensures AvailIdx(e, PutAvail(e, h, at, head, next)) == next
    ensures Num(PutAvail(e, h, at, head, next), p, 2) == if p == at then head else Num(h, p, 2)
  {
    PowFacts();
    var h1 := Put(h, at, Le(head, 2));
    NumJustPut(h1, e.avail + 2, next, 2);
    NumAfterPut(h1, e.avail + 2, Le(next, 2), p, 2);
    if p == at {
      NumJustPut(h, at, head, 2);
    } else {
      NumAfterPut(h, at, Le(head, 2), p, 2);
    }
  }

  lemma {:induction false} PutAvailNum(e: Env, h: seq<byte>, at: nat, head: u16, next: u16, p: nat, k: nat)
    requires e.avail + 4 <= at && at + 2 <= e.avail + e.AvailLen() <= |h|
    requires p + k <= |h| && (p + k <= e.avail || e.avail + e.AvailLen() <= p)
    ensures Num(PutAvail(e, h, at, head, next), p, k) == Num(h, p, k)
  {
    NumAfterPut(h, at, Le(head, 2), p, k);
    NumAfterPut(Put(h, at, Le(head, 2)), e.avail + 2, Le(next, 2), p, k);
  }

  lemma {:induction false} PutAvailUsed(e: Env, h: seq<byte>, at: nat, head: u16, next: u16, slot: nat)
    requires Laid(e, |h|) && e.avail + 4 <= at && at + 2 <= e.avail + e.AvailLen() <= |h| && e.used + e.UsedLen() <= |h|
    requires slot < e.q.size
    ensures UsedIdx(e, PutAvail(e, h, at, head, next)) == UsedIdx(e, h)
    ensures UsedAt(e, PutAvail(e, h, at, head, next), slot) == UsedAt(e, h, slot)
  {
    PutAvailNum(e, h, at, head, next, e.used + 2, 2);
    PutAvailNum(e, h, at, head, next, UsedPos(e, slot), 4);
    PutAvailNum(e, h, at, head, next, UsedPos(e, slot) + 4, 4);
  }

  lemma {:induction false} ViewAvail(e: Env, h: seq<byte>, slot: nat, head: u16, next: u16)
    requires Laid(e, |h|) && e.avail + e.AvailLen() <= |h| && e.used + e.UsedLen() <= |h| && slot < e.q.size
    ensures var v := ViewOf(e, h);
            ViewOf(e, PutAvail(e, h, AvailPos(e, slot), head, next))
                == v.(avail := v.avail[slot := head], availIdx := next)
  {
    var at := AvailPos(e, slot);
    var h' := PutAvail(e, h, at, head, next);
    forall i: nat | i < e.q.size
      ensures AvailAt(e, h', i) == if i == slot then head else AvailAt(e, h, i)
    {
      PutAvailHolds(e, h, at, head, next, AvailPos(e, i));
    }
    forall i: nat | i < e.q.size
      ensures UsedAt(e, h', i) == UsedAt(e, h, i)
    {
      PutAvailUsed(e, h, at, head, next, i);
    }
    PutAvailHolds(e, h, at, head, next, at);
    PutAvailUsed(e, h, at, head, next, slot);
  }

  // ---- One turn of the device's loop ----

  /** The device between two requests; `log` is what it has put in the used ring so far. */
  datatype Dev = Dev(host: seq<byte>, state: D.State, last: u16, log: seq<Elem>)

  datatype Turn = Idle | Failed(dev: Dev, error: VqError) | Done(dev: Dev)

  /** Pop a head, read its chain, serve it, push the used element; any failure ends the loop. */
  function TakeTurn(k: F.Kernel, e: Env, d: Dev): (t: Turn)
    requires InStore(e.gpa, |d.host|) && InStore(e.user, |d.host|)
    ensures !t.Idle? ==> |t.dev.host| == |d.host|
  {
    match V.PopAvail(e.user, d.host, e.q, d.last)
    case Err(err) => Failed(d, err)
    case Ok(None) => Idle
    case Ok(Some(head)) => ServeHead(k, e, d.(last := V.NextIdx(d.last)), head)
  }

  function ServeHead(k: F.Kernel, e: Env, d: Dev, head: u16): (t: Turn)
    requires InStore(e.gpa, |d.host|) && InStore(e.user, |d.host|)
    ensures !t.Idle? && |t.dev.host| == |d.host|
  {
    match ReadChain(V.TableAt(e.user, d.host, e.q.desc), head)
    case Err(err) => Failed(d, err)
    case Ok(chain) => Finish(e, d, head, Z.ServeChain(k, e.gpa, d.host, d.state, chain))
  }

  /** The used element for a served chain. */
  function Finish(e: Env, d: Dev, head: u16, r: Z.Served): (t: Turn)
    requires InStore(e.user, |d.host|) && |r.host| == |d.host|
    ensures !t.Idle? && |t.dev.host| == |d.host|
  {
    match r.written
    case Err(err) => Failed(Dev(r.host, r.state, d.last, d.log), err)
    case Ok(n) =>
      var (h', p) := V.PushUsed(e.user, r.host, e.q, head, n);
      match p
      case Err(err) => Failed(Dev(h', r.state, d.last, d.log), err)
      case Ok(_) => Done(Dev(h', r.state, d.last, d.log + [Elem(head, n)]))
  }

  ghost predicate OffRings(e: Env, segs: seq<Segment>) {
    forall i: nat :: e.InAvail(i) || e.InUsed(i) ==> Unreachable(e.gpa, segs, i)
  }

  /** The buffers this head's chain, if it is one, offers for replies do not reach into the rings. */
  ghost predicate HeadOffRings(e: Env, d: Dev, head: u16)
    requires InStore(e.user, |d.host|)
  {
    var c := ReadChain(V.TableAt(e.user, d.host, e.q.desc), head);
    c.Ok? ==> OffRings(e, c.value.writable)
  }

  lemma {:induction false} ServeKeepsView(k: F.Kernel, e: Env, d: Dev, chain: DescChain)
    requires Laid(e, |d.host|) && OffRings(e, chain.writable)
    ensures e.avail + e.AvailLen() <= |d.host| && e.used + e.UsedLen() <= |d.host|
    ensures ViewOf(e, Z.ServeChain(k, e.gpa, d.host, d.state, chain).host) == ViewOf(e, d.host)
  {
    var h' := Z.ServeChain(k, e.gpa, d.host, d.state, chain).host;
    forall i: nat
      ensures SameAt(e, d.host, h', i)
    {
      if (e.InAvail(i) || e.InUsed(i)) && i < |d.host| {
        Z.ServeFrame(k, e.gpa, d.host, d.state, chain, i);
      }
    }
    ViewSame(e, d.host, h');
  }

  lemma {:induction false} FinishView(e: Env, d: Dev, head: u16, r: Z.Served)
    requires Laid(e, |d.host|) && |r.host| == |d.host|
    ensures e.avail + e.AvailLen() <= |d.host| && e.used + e.UsedLen() <= |d.host|
    ensures var t := Finish(e, d, head, r);
            && t.dev.last == d.last
            && (t.Failed? ==> ViewOf(e, t.dev.host) == ViewOf(e, r.host) && t.dev.log == d.log)
            && (t.Done? ==> r.written.Ok? && t.dev.log == d.log + [Elem(head, r.written.value)]
                            && ViewOf(e, t.dev.host) == WithUsed(e, ViewOf(e, r.host), Elem(head, r.written.value)))
  {
    PopView(e, d.host, d.last);
    if r.written.Ok? {
      PushView(e, r.host, head, r.written.value);
    }
  }

  /** A served head either went to the used ring, or left both rings alone and stopped the loop. */
  ghost predicate HeadOk(e: Env, d: Dev, head: nat, v: View, t: Turn)
    requires e.avail + e.AvailLen() <= |d.host| && e.used + e.UsedLen() <= |d.host| && e.q.size > 0
    requires |v.avail| == |v.used| == e.q.size && !t.Idle? && |t.dev.host| == |d.host|
  {
    && t.dev.last == d.last
    && (t.Failed? ==> t.dev.log == d.log && ViewOf(e, t.dev.host) == v)
    && (t.Done? ==>
          && |t.dev.log| == |d.log| + 1
          && var elem := Elem(head, t.dev.log[|d.log|].len);
             t.dev.log == d.log + [elem] && ViewOf(e, t.dev.host) == WithUsed(e, v, elem))
  }

  lemma {:induction false} HeadView(k: F.Kernel, e: Env, d: Dev, head: u16)
    requires Laid(e, |d.host|) && HeadOffRings(e, d, head)
    ensures e.avail + e.AvailLen() <= |d.host| && e.used + e.UsedLen() <= |d.host|
    ensures HeadOk(e, d, head, ViewOf(e, d.host), ServeHead(k, e, d, head))
  {
    match ReadChain(V.TableAt(e.user, d.host, e.q.desc), head)
    case Err(_) =>
    case Ok(chain) =>
      ServeKeepsView(k, e, d, chain);
      FinishView(e, d, head, Z.ServeChain(k, e.gpa, d.host, d.state, chain));
  }

  lemma {:induction false} PushFrame(e: Env, h: seq<byte>, head: u16, len: u32, i: nat)
    requires Laid(e, |h|) && e.avail + e.AvailLen() <= |h| && e.used + e.UsedLen() <= |h| && i < |h| && !e.InUsed(i)
    ensures V.PushUsed(e.user, h, e.q, head, len).0[i] == h[i]
  {
    var idx := UsedIdx(e, h);
    var at := UsedPos(e, idx % e.q.size);
    PushWrites(e, h, head, len, idx, at);
    PutUsedFrame(e, h, at, Elem(head, len), V.NextIdx(idx), i);
  }

  lemma {:induction false} FinishFrame(e: Env, d: Dev, head: u16, r: Z.Served, i: nat)
    requires Laid(e, |d.host|) && |r.host| == |d.host| && i < |d.host| && !e.InUsed(i)
    ensures Finish(e, d, head, r).dev.host[i] == r.host[i]
  {
    PopView(e, r.host, 0);
    if r.written.Ok? {
      PushFrame(e, r.host, head, r.written.value, i);
    }
  }

  /**
   What finishing a served chain leaves behind: the session and the buffers as serving it left them,
   and, if that went well, one used element that names the head and how much was written.
   */
  lemma {:induction false} FinishTells(e: Env, d: Dev, head: u16, r: Z.Served)
    requires Laid(e, |d.host|) && |r.host| == |d.host|
    ensures e.avail + e.AvailLen() <= |d.host| && e.used + e.UsedLen() <= |d.host|
    ensures var t := Finish(e, d, head, r);
            && t.dev.state == r.state && (t.Done? <==> r.written.Ok?)
            && (forall i :: 0 <= i < |d.host| && !e.InUsed(i) ==> t.dev.host[i] == r.host[i])
            && (t.Done? ==>
                  && UsedAt(e, t.dev.host, UsedIdx(e, r.host) % e.q.size) == Elem(head, r.written.value)
                  && UsedIdx(e, t.dev.host) == (UsedIdx(e, r.host) + 1) % 0x1_0000)
  {
    forall i | 0 <= i < |d.host| && !e.InUsed(i)
      ensures Finish(e, d, head, r).dev.host[i] == r.host[i]
    {
      FinishFrame(e, d, head, r, i);
    }
    PopView(e, r.host, 0);
    if r.written.Ok? {
      UsedElement(e, r.host, head, r.written.value, UsedIdx(e, r.host));
    }
  }

  lemma {:induction false} UsedElement(e: Env, h: seq<byte>, head: u16, len: u32, idx: u16)
    requires Laid(e, |h|) && e.avail + e.AvailLen() <= |h| && e.used + e.UsedLen() <= |h| && idx == UsedIdx(e, h)
    ensures var (h', r) := V.PushUsed(e.user, h, e.q, head, len);
            r.Ok? && UsedAt(e, h', idx % e.q.size) == Elem(head, len) && UsedIdx(e, h') == V.NextIdx(idx)
  {
    var slot := idx % e.q.size;
    PushViewAt(e, h, head, len, idx, slot);
    var h' := V.PushUsed(e.user, h, e.q, head, len).0;
    assert ViewOf(e, h').used[slot] == Elem(head, len);
  }
}
