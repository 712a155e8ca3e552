/**
 Queue configuration (the SET_VRING_* and GET_VRING_BASE arms of vhost_user/server.rs and
 `VringSlot`): what a slot is configured to is a function of the messages seen so far, and a position
 handed over with GET_VRING_BASE is where a new slot resumes.
 */
module Vrings {
  import opened Basics
  import opened Bytes
  import opened Memory
  import opened Segments
  import opened Chains
  import opened Payload
  import V = Virtqueue
  import R = Rings
  import L = Delivery
  import D = Dispatch
  import F = Fs
  import Z = ZeroCopy

  type Fd = int

  datatype Queue = Queue(cfg: V.Config, last: u16)

  datatype Slot = Slot(size: Option<u16>, base: u16, queue: Option<Queue>, kick: Option<Fd>, call: Option<Fd>,
      enabled: bool)

  const FRESH := Slot(None, 0, None, None, None, false)

  /** Decoded messages that configure a queue, with the descriptors that came along. */
  datatype Control =
    | SetNum(num: VringState)
    | SetAddr(addr: VringAddr)
    | SetBase(base: VringState)
    | SetEnable(enable: VringState)
    | SetKick(kick: VringFd, kickFds: seq<Fd>)
    | SetCall(call: VringFd, callFds: seq<Fd>)

  function Low16(n: u32): (r: u16) {
    n % 0x1_0000
  }

  function TakeFd(fds: seq<Fd>, noFd: bool): (r: Option<Fd>) {
    if noFd || fds == [] then None else Some(fds[0])
  }

  /** A queue at its initial position, if a size is known; otherwise the address is ignored. */
  function Build(s: Slot, a: VringAddr): (q: Option<Queue>) {
    match s.size
    case None => s.queue
    case Some(size) => Some(Queue(V.Config(a.descriptor, a.avail, a.used, size), s.base))
  }

  /** The effect of a message on slot `i`. */
  function Apply(i: nat, s: Slot, c: Control): (s': Slot) {
    match c
    case SetNum(n) => if n.index != i then s else s.(size := Some(Low16(n.num)))
    case SetAddr(a) => if a.index != i then s else s.(queue := Build(s, a))
    case SetBase(b) =>
      if b.index != i then s
      else s.(base := Low16(b.num),
              queue := match s.queue case None => None case Some(q) => Some(q.(last := Low16(b.num))))
    case SetEnable(e) => if e.index != i then s else s.(enabled := e.num != 0)
    case SetKick(k, fds) => if k.index != i then s else s.(kick := TakeFd(fds, k.noFd))
    case SetCall(k, fds) => if k.index != i then s else s.(call := TakeFd(fds, k.noFd))
  }

  function After(i: nat, cs: seq<Control>): (s: Slot)
    decreases cs
  {
    if cs == [] then FRESH else Apply(i, After(i, cs[..|cs| - 1]), cs[|cs| - 1])
  }

  // ---- The configuration, read off the history ----

  /** Position of the last message satisfying `f`. */
  function LastIndex<T>(cs: seq<T>, f: T -> bool): (r: Option<nat>)
    ensures r.Some? ==> r.value < |cs| && f(cs[r.value])
    decreases cs
  {
    if cs == [] then None
    else if f(cs[|cs| - 1]) then Some(|cs| - 1)
    else LastIndex(cs[..|cs| - 1], f)
  }

  lemma {:induction false} LastIndexIs<T>(cs: seq<T>, f: T -> bool)
    ensures match LastIndex(cs, f)
            case None => forall p :: 0 <= p < |cs| ==> !f(cs[p])
            case Some(p) => f(cs[p]) && forall q :: p < q < |cs| ==> !f(cs[q])
    decreases cs
  {
    if cs != [] && !f(cs[|cs| - 1]) {
      var t := cs[..|cs| - 1];
      LastIndexIs(t, f);
      forall p | 0 <= p < |t|
        ensures cs[p] == t[p]
      {
      }
    }
  }

  function IsNum(i: nat): Control -> bool { (c: Control) => c.SetNum? && c.num.index == i }
  function IsAddr(i: nat): Control -> bool { (c: Control) => c.SetAddr? && c.addr.index == i }
  function IsBase(i: nat): Control -> bool { (c: Control) => c.SetBase? && c.base.index == i }

  /** The size in force: the last SET_VRING_NUM. */
  function SizeOf(i: nat, cs: seq<Control>): (r: Option<u16>) {
    match LastIndex(cs, IsNum(i))
    case None => None
    case Some(p) => Some(Low16(cs[p].num.num))
  }

  /** The position: the last SET_VRING_BASE, or 0. */
  function BaseOf(i: nat, cs: seq<Control>): (r: u16) {
    match LastIndex(cs, IsBase(i))
    case None => 0
    case Some(p) => Low16(cs[p].base.num)
  }

  /**
   The queue: addresses from the last SET_VRING_ADDR, provided a SET_VRING_NUM came before it, with
   the size in force then; position from the last SET_VRING_BASE, before or after.
   */
  function QueueOf(i: nat, cs: seq<Control>): (r: Option<Queue>) {
    match LastIndex(cs, IsAddr(i))
    case None => None
    case Some(p) =>
      match SizeOf(i, cs[..p])
      case None => None
      case Some(size) =>
        var a := cs[p].addr;
        Some(Queue(V.Config(a.descriptor, a.avail, a.used, size), BaseOf(i, cs)))
  }

  /** After any messages in any order a slot holds what the history says. */
  lemma {:induction false} ConfiguredByHistory(i: nat, cs: seq<Control>)
    ensures After(i, cs).size == SizeOf(i, cs)
    ensures After(i, cs).base == BaseOf(i, cs)
    ensures After(i, cs).queue == QueueOf(i, cs)
    decreases cs
  {
    if cs != [] {
      var t, c := cs[..|cs| - 1], cs[|cs| - 1];
      ConfiguredByHistory(i, t);
      LastUnless(cs, IsNum(i));
      LastUnless(cs, IsBase(i));
      QueueUnless(i, cs);
    }
  }

  /** How the last message moves the queue the history describes. */
  lemma {:induction false} QueueUnless(i: nat, cs: seq<Control>)
    requires cs != []
    ensures var t, c := cs[..|cs| - 1], cs[|cs| - 1];
            QueueOf(i, cs) ==
              if IsAddr(i)(c) then Build(Slot(SizeOf(i, t), BaseOf(i, t), QueueOf(i, t), None, None, false), c.addr)
              else if IsBase(i)(c) && QueueOf(i, t).Some? then Some(QueueOf(i, t).value.(last := Low16(c.base.num)))
              else QueueOf(i, t)
  {
    var t, c := cs[..|cs| - 1], cs[|cs| - 1];
    LastUnless(cs, IsAddr(i));
    LastUnless(cs, IsBase(i));
    match LastIndex(t, IsAddr(i))
    case None =>
    case Some(p) =>
      assert t[..p] == cs[..p];
      if SizeOf(i, t[..p]).Some? {
        SizeEarlier(i, t, p);
      }
  }

  lemma {:induction false} SizeEarlier(i: nat, cs: seq<Control>, p: nat)
    requires p <= |cs| && SizeOf(i, cs[..p]).Some?
    ensures SizeOf(i, cs).Some?
  {
    LastIndexIs(cs, IsNum(i));
    var q := LastIndex(cs[..p], IsNum(i)).value;
    assert cs[..p][q] == cs[q];
  }

  lemma {:induction false} LastUnless<T>(cs: seq<T>, f: T -> bool)
    requires cs != []
    ensures var t := cs[..|cs| - 1];
            LastIndex(cs, f) == if f(cs[|cs| - 1]) then Some(|cs| - 1) else LastIndex(t, f)
  {
  }

  // ---- Size 0 ----

  /** Message `p` is the last address of slot `i`, `n` the last size before it, and that is 0 in 16 bits. */
  ghost predicate BuiltEmpty(i: nat, cs: seq<Control>, n: nat, p: nat) {
    && n < p < |cs| && IsNum(i)(cs[n]) && IsAddr(i)(cs[p])
    && (forall q :: p < q < |cs| ==> !IsAddr(i)(cs[q]))
    && (forall q :: n < q < p ==> !IsNum(i)(cs[q]))
    && cs[n].num.num % 0x1_0000 == 0
  }

  /**
   The server accepts a size that is 0 in 16 bits; 65536 is one. A slot holds a queue of size 0 exactly
   when the last SET_VRING_NUM before its last SET_VRING_ADDR carried such a size.
   */
  lemma {:induction false} EmptyQueues(i: nat, cs: seq<Control>)
    ensures After(i, cs).queue.Some? && After(i, cs).queue.value.cfg.size == 0
            <==> exists n: nat, p: nat :: BuiltEmpty(i, cs, n, p)
  {
    ConfiguredByHistory(i, cs);
    LastIndexIs(cs, IsAddr(i));
    if p: nat :| LastIndex(cs, IsAddr(i)) == Some(p) {
      var before := cs[..p];
      LastIndexIs(before, IsNum(i));
      if n: nat :| LastIndex(before, IsNum(i)) == Some(n) {
        SameBefore(i, cs, p, n);
        if cs[n].num.num % 0x1_0000 == 0 {
          assert BuiltEmpty(i, cs, n, p);
        }
      }
      if n': nat, p': nat :| BuiltEmpty(i, cs, n', p') {
        assert p' == p && before[n'] == cs[n'];
      }
    }
  }

  lemma {:induction false} SameBefore(i: nat, cs: seq<Control>, p: nat, n: nat)
    requires n < p <= |cs| && forall q :: n < q < p ==> !IsNum(i)(cs[..p][q])
    ensures cs[..p][n] == cs[n] && forall q :: n < q < p ==> !IsNum(i)(cs[q])
  {
    forall q | n < q < p
      ensures !IsNum(i)(cs[q])
    {
      assert cs[..p][q] == cs[q];
    }
  }

  lemma {:induction false} EmptyExample(i: u32, a: VringAddr)
    requires a.index == i
    ensures After(i, [SetNum(VringState(i, 0x1_0000)), SetAddr(a)]).queue
            == Some(Queue(V.Config(a.descriptor, a.avail, a.used, 0), 0))
  {
    var cs := [SetNum(VringState(i, 0x1_0000)), SetAddr(a)];
    var t := cs[..1];
    assert t[..0] == [] && After(i, []) == FRESH;
    assert After(i, t) == Apply(i, After(i, t[..0]), t[0]);
    assert After(i, cs) == Apply(i, After(i, t), cs[1]);
  }

  // ---- Positions ----

  /** The address message for queue `q` at slot `i`. */
  predicate Addresses(i: nat, a: VringAddr, q: V.Config) {
    a.index == i && a.descriptor == q.desc && a.avail == q.avail && a.used == q.used
  }

  /** The system once slot `i`, configured as `slot`, has been sent the address `a` again. */
  function Resent(s: L.Sys, i: nat, slot: Slot, a: VringAddr): (s': L.Sys) {
    match Apply(i, slot, SetAddr(a)).queue
    case None => s
    case Some(q) => s.(dev := s.dev.(last := q.last))
  }

  /**
   Sending the address of a running queue again rebuilds it at the position last set with
   SET_VRING_BASE. In the middle of a run that keeps the device in step with the ledger exactly when
   that position is the number of requests answered so far, counted modulo 65536.
   */
  lemma {:induction false} ResendResumes(e: R.Env, s: L.Sys, i: nat, slot: Slot, a: VringAddr)
    requires L.SysInv(e, s) && s.inflight.None? && slot.queue == Some(Queue(e.q, s.dev.last))
    requires slot.size == Some(e.q.size) && Addresses(i, a, e.q)
    ensures Apply(i, slot, SetAddr(a)).queue == Some(Queue(e.q, slot.base))
    ensures L.SysInv(e, Resent(s, i, slot, a)) <==> slot.base == |s.dev.log| % 0x1_0000
  {
    var s' := Resent(s, i, slot, a);
    assert L.LedgerOf(s') == L.LedgerOf(s);
    assert |L.LedgerOf(s).Popped()| == |s.dev.log|;
  }

  /** One request from publication to its element in the used ring. */
  function OneRequest(head: u16, k: F.Kernel): (actions: seq<L.Action>) {
    [L.Publish(head)] + ([L.Pop] + ([L.Serve(k)] + []))
  }

  lemma {:induction false} OneRequestRuns(e: R.Env, s: L.Sys, head: u16, k: F.Kernel)
    returns (s1: L.Sys, s2: L.Sys)
    requires R.Laid(e, |s.dev.host|) && L.CanRun(e, s, OneRequest(head, k))
    ensures s1 == L.Published(e, s, head) && s2 == L.PoppedOne(e, s1)
    ensures |s2.dev.host| == |s.dev.host| && L.Enabled(e, s2, L.Serve(k))
    ensures L.Run(e, s, OneRequest(head, k)) == L.Completed(e, s2, k)
  {
    L.RunFirst(e, s, L.Publish(head), [L.Pop] + ([L.Serve(k)] + []));
    s1 := L.Published(e, s, head);
    s2 := ThenServed(e, s1, k);
  }

  lemma {:induction false} ThenServed(e: R.Env, s1: L.Sys, k: F.Kernel) returns (s2: L.Sys)
    requires R.Laid(e, |s1.dev.host|) && L.CanRun(e, s1, [L.Pop] + ([L.Serve(k)] + []))
    ensures s2 == L.PoppedOne(e, s1) && L.Enabled(e, s2, L.Serve(k))
    ensures L.Run(e, s1, [L.Pop] + ([L.Serve(k)] + [])) == L.Completed(e, s2, k)
  {
    L.RunFirst(e, s1, L.Pop, [L.Serve(k)] + []);
    s2 := L.PoppedOne(e, s1);
    L.RunFirst(e, s2, L.Serve(k), []);
  }

  /** The available ring after one request: its head is still in the slot it was published in. */
  lemma {:induction false} HeadStays(e: R.Env, s: L.Sys, base: u16, head: u16, k: F.Kernel)
    requires L.AtRest(e, s, base) && L.CanRun(e, s, OneRequest(head, k))
    ensures var s3 := L.Run(e, s, OneRequest(head, k));
            && R.AvailIdx(e, s3.dev.host) == V.NextIdx(base)
            && R.AvailAt(e, s3.dev.host, base % e.q.size) == head
            && s3.published == s.published + [head] && L.Heads(s3.dev.log) == s3.published && s3.inflight.None?
  {
    var s1, s2 := OneRequestRuns(e, s, head, k);
    PublishedPops(e, s, base, base % e.q.size, head, s1, s2);
    ServedStays(e, s2, k, base % e.q.size);
  }

  lemma {:induction false} PublishedPops(e: R.Env, s: L.Sys, base: u16, slot: nat, head: u16, s1: L.Sys, s2: L.Sys)
    requires L.AtRest(e, s, base) && s1 == L.Published(e, s, head) && s2 == L.PoppedOne(e, s1)
             && slot == base % e.q.size
    ensures s2.dev.host == s1.dev.host && s2.dev.log == s.dev.log && s2.inflight == Some(head)
    ensures s2.published == s.published + [head]
    ensures R.AvailIdx(e, s1.dev.host) == V.NextIdx(base) && R.AvailAt(e, s1.dev.host, slot) == head
  {
    PublishedAt(e, s, base, slot, head, s1);
    PopsPublished(e, s1, base, slot, head);
  }

  lemma {:induction false} PublishedAt(e: R.Env, s: L.Sys, base: u16, slot: nat, head: u16, s1: L.Sys)
    requires L.Counted(e, s) && |s.published| % 0x1_0000 == base && slot == base % e.q.size
             && s1 == L.Published(e, s, head)
    ensures |s1.dev.host| == |s.dev.host| && s1.dev.last == s.dev.last && s1.dev.log == s.dev.log
    ensures s1.published == s.published + [head]
    ensures R.AvailIdx(e, s1.dev.host) == V.NextIdx(base) && R.AvailAt(e, s1.dev.host, slot) == head
  {
    L.PublishLands(e, s, head);
    L.NextIs(|s.published|);
  }

  lemma {:induction false} PopsPublished(e: R.Env, s1: L.Sys, base: u16, slot: nat, head: u16)
    requires R.Laid(e, |s1.dev.host|) && e.avail + e.AvailLen() <= |s1.dev.host|
    requires s1.dev.last == base && slot == base % e.q.size
    requires R.AvailIdx(e, s1.dev.host) == V.NextIdx(base) && R.AvailAt(e, s1.dev.host, slot) == head
    ensures L.PoppedOne(e, s1) == s1.(dev := s1.dev.(last := V.NextIdx(base)), inflight := Some(head))
  {
    R.PopReads(e, s1.dev.host, base);
  }

  lemma {:induction false} ServedStays(e: R.Env, s: L.Sys, k: F.Kernel, slot: nat)
    requires R.Laid(e, |s.dev.host|) && L.Enabled(e, s, L.Serve(k)) && slot < e.q.size
    ensures e.avail + e.AvailLen() <= |s.dev.host|
    ensures var s' := L.Completed(e, s, k);
            && R.AvailIdx(e, s'.dev.host) == R.AvailIdx(e, s.dev.host)
            && R.AvailAt(e, s'.dev.host, slot) == R.AvailAt(e, s.dev.host, slot)
            && s'.inflight.None? && L.Heads(s'.dev.log) == L.Heads(s.dev.log) + [s.inflight.value]
  {
    R.HeadView(k, e, s.dev, s.inflight.value);
    DoneStays(e, s.dev, s.inflight.value, R.ServeHead(k, e, s.dev, s.inflight.value), slot);
  }

  lemma {:induction false} DoneStays(e: R.Env, d: R.Dev, head: u16, t: R.Turn, slot: nat)
    requires e.avail + e.AvailLen() <= |d.host| && e.used + e.UsedLen() <= |d.host| && e.q.size > 0
    requires t.Done? && |t.dev.host| == |d.host| && R.HeadOk(e, d, head, R.ViewOf(e, d.host), t) && slot < e.q.size
    ensures R.AvailIdx(e, t.dev.host) == R.AvailIdx(e, d.host)
    ensures R.AvailAt(e, t.dev.host, slot) == R.AvailAt(e, d.host, slot)
    ensures L.Heads(t.dev.log) == L.Heads(d.log) + [head]
  {
    assert R.ViewOf(e, t.dev.host).avail[slot] == R.ViewOf(e, d.host).avail[slot];
  }

  /**
   A run that loses step: a queue starts at the slot's base, answers one request, and is sent its
   address again. The device then pops the head it has just answered a second time.
   */
  lemma {:induction false} ResendRepeats(e: R.Env, s: L.Sys, i: nat, slot: Slot, a: VringAddr, head: u16, k: F.Kernel)
    requires L.AtRest(e, s, slot.base) && slot.size == Some(e.q.size) && Addresses(i, a, e.q)
    requires L.CanRun(e, s, OneRequest(head, k))
    ensures var s3 := L.Run(e, s, OneRequest(head, k));
            var s4 := L.PoppedOne(e, Resent(s3, i, slot, a));
            && L.Heads(s3.dev.log) == s3.published == s.published + [head]
            && s4.inflight == Some(head) && s4.published == s3.published
            && !L.InOrder(L.LedgerOf(s4))
  {
    HeadStays(e, s, slot.base, head, k);
    PopsAgain(e, Resent(L.Run(e, s, OneRequest(head, k)), i, slot, a), head);
  }

  lemma {:induction false} PopsAgain(e: R.Env, s: L.Sys, head: u16)
    requires R.Laid(e, |s.dev.host|) && e.avail + e.AvailLen() <= |s.dev.host|
    requires R.AvailIdx(e, s.dev.host) == V.NextIdx(s.dev.last)
             && R.AvailAt(e, s.dev.host, s.dev.last % e.q.size) == head
    requires L.Heads(s.dev.log) == s.published && s.inflight.None?
    ensures var s' := L.PoppedOne(e, s);
            s'.inflight == Some(head) && s'.published == s.published && !L.InOrder(L.LedgerOf(s'))
  {
    R.PopReads(e, s.dev.host, s.dev.last);
    assert |L.LedgerOf(L.PoppedOne(e, s)).Popped()| == |s.published| + 1;
  }

  // ---- Such a run exists: a queue of one entry in 64 bytes of zeros ----

  function Flat(n: nat): (x: Xlate) {
    (a: nat, m: nat) => if a + m <= n then Some(a) else None
  }

  /** Available ring at 0, used ring at 8, one descriptor at 32. */
  function Tiny(): (e: R.Env) {
    R.Env(Flat(64), Flat(64), V.Config(32, 0, 8, 1), 0, 8)
  }

  lemma {:induction false} TinyLaid()
    ensures R.Laid(Tiny(), 64)
  {
    var x := Flat(64);
    forall a: nat, n: nat, b: nat, m: nat
      ensures PartMapped(x, a, n, b, m)
    {
    }
  }

  lemma {:induction false} ZeroNum(h: seq<byte>, p: nat, k: nat)
    requires p + k <= |h| && forall i :: p <= i < p + k ==> h[i] == 0
    ensures Num(h, p, k) == 0
    decreases k
  {
    if k > 0 {
      ZeroNum(h, p + 1, k - 1);
      assert h[p..p + k][1..] == h[p + 1..p + 1 + (k - 1)];
    }
  }

  /** The descriptor of zeros is a chain of one empty readable buffer. */
  lemma {:induction false} ZeroChain(h: seq<byte>)
    requires |h| == 64 && forall i :: 32 <= i < 48 ==> h[i] == 0
    ensures InStore(Flat(64), 64)
    ensures ReadChain(V.TableAt(Flat(64), h, 32), 0) == Ok(DescChain(0, [Segment(0, 0)], []))
  {
    ZeroNum(h, 32, 8);
    ZeroNum(h, 40, 4);
    ZeroNum(h, 44, 2);
    ZeroNum(h, 46, 2);
    assert V.ReadDesc(Flat(64), h, 32, 0) == Some(Desc(0, 0, 0, 0));
  }

  /** The empty request gets no reply. */
  lemma {:induction false} ZeroServed(k: F.Kernel, h: seq<byte>, state: D.State)
    requires |h| == 64 && InStore(Flat(64), 64)
    ensures Z.ServeChain(k, Flat(64), h, state, DescChain(0, [Segment(0, 0)], [])) == Z.Served(h, state, Ok(0))
  {
    var segs := [Segment(0, 0)];
    assert segs[1..] == [];
    assert Gather(Flat(64), h, segs) == Ok([]);
    assert GatherPrefix(Flat(64), h, segs, Z.REQUEST_HEADER_LEN) == Ok([]);
  }

  lemma {:induction false} TinyServes(k: F.Kernel, s: L.Sys)
    requires |s.dev.host| == 64 && (forall i :: 32 <= i < 48 ==> s.dev.host[i] == 0) && s.inflight == Some(0)
    ensures R.Laid(Tiny(), 64) && L.Enabled(Tiny(), s, L.Serve(k))
  {
    TinyLaid();
    var e, h := Tiny(), s.dev.host;
    ZeroChain(h);
    ZeroServed(k, h, s.dev.state);
    R.PushView(e, h, 0, 0);
  }

  /** The run of `ResendRepeats`, from a new queue: with base 0, the head 0 is popped a second time. */
  lemma {:induction false} ResendExample(k: F.Kernel, state: D.State) returns (e: R.Env, s: L.Sys, slot: Slot,
                                         a: VringAddr)
    ensures L.AtRest(e, s, 0) && slot == Slot(Some(1), 0, Some(Queue(e.q, 1)), None, None, true) && Addresses(1, a, e.q)
    ensures L.CanRun(e, s, OneRequest(0, k))
    ensures L.PoppedOne(e, Resent(L.Run(e, s, OneRequest(0, k)), 1, slot, a)).inflight == Some(0)
    ensures !L.InOrder(L.LedgerOf(L.PoppedOne(e, Resent(L.Run(e, s, OneRequest(0, k)), 1, slot, a))))
  {
    e := Tiny();
    TinyLaid();
    var h: seq<byte> := seq(64, i => 0);
    s := L.Sys(R.Dev(h, state, 0, []), None, [], []);
    ZeroNum(h, 2, 2);
    ZeroNum(h, 10, 2);
    slot, a := Slot(Some(1), 0, Some(Queue(e.q, 1)), None, None, true), VringAddr(1, 0, 32, 8, 0, 0);
    TinyRuns(k, s);
    ResendRepeats(e, s, 1, slot, a, 0, k);
  }

  lemma {:induction false} TinyRuns(k: F.Kernel, s: L.Sys)
    requires L.AtRest(Tiny(), s, 0) && s.dev.host == seq(64, i => 0) && s.published == []
    ensures L.CanRun(Tiny(), s, OneRequest(0, k))
  {
    var e := Tiny();
    var s1 := L.Published(e, s, 0);
    var s2 := L.PoppedOne(e, s1);
    PublishedPops(e, s, 0, 0, 0, s1, s2);
    TinyServes(k, s2);
    L.RunCons(e, s2, L.Serve(k), []);
    L.RunCons(e, s1, L.Pop, [L.Serve(k)] + []);
    L.RunCons(e, s, L.Publish(0), [L.Pop] + ([L.Serve(k)] + []));
  }

  /** What GET_VRING_BASE answers. */
  function BaseReply(s: Slot, index: u32): (r: VringState) {
    VringState(index, match s.queue case None => 0 case Some(q) => q.last)
  }

  /** A history that sets slot `i` up with `cfg` at `reply`: size before address, position anywhere. */
  ghost predicate SetsUp(i: nat, cs: seq<Control>, cfg: V.Config, reply: VringState) {
    && (forall p :: 0 <= p < |cs| ==> Consistent(i, cs[p], cfg, reply))
    && (exists b :: 0 <= b < |cs| && IsBase(i)(cs[b]))
    && (exists p, q :: 0 <= q < p < |cs| && IsNum(i)(cs[q]) && IsAddr(i)(cs[p]))
  }

  ghost predicate Consistent(i: nat, c: Control, cfg: V.Config, reply: VringState) {
    && (IsNum(i)(c) ==> c.num.num == cfg.size)
    && (IsBase(i)(c) ==> c.base == reply)
    && (IsAddr(i)(c) ==> c.addr.descriptor == cfg.desc && c.addr.avail == cfg.avail && c.addr.used == cfg.used)
  }

  /** A slot set up from another's GET_VRING_BASE reply holds that slot's queue, position included. */
  lemma {:induction false} HandedOver(i: u32, cs: seq<Control>, s: Slot, q: Queue)
    requires s.queue == Some(q) && SetsUp(i, cs, q.cfg, BaseReply(s, i))
    ensures After(i, cs).queue == Some(q)
  {
    ConfiguredByHistory(i, cs);
    LastIndexIs(cs, IsAddr(i));
    LastIndexIs(cs, IsBase(i));
    var p, n :| 0 <= n < p < |cs| && IsNum(i)(cs[n]) && IsAddr(i)(cs[p]);
    var last := LastIndex(cs, IsAddr(i)).value;
    SizeHanded(i, cs, q.cfg, BaseReply(s, i), n, last);
    assert Consistent(i, cs[last], q.cfg, BaseReply(s, i));
    assert Consistent(i, cs[LastIndex(cs, IsBase(i)).value], q.cfg, BaseReply(s, i));
  }

  lemma {:induction false} SizeHanded(i: u32, cs: seq<Control>, cfg: V.Config, reply: VringState, n: nat, last: nat)
    requires n < last < |cs| && IsNum(i)(cs[n])
    requires forall p :: 0 <= p < |cs| ==> Consistent(i, cs[p], cfg, reply)
    ensures SizeOf(i, cs[..last]) == Some(cfg.size)
  {
    LastIndexIs(cs[..last], IsNum(i));
    assert cs[..last][n] == cs[n];
    var size := LastIndex(cs[..last], IsNum(i)).value;
    assert cs[..last][size] == cs[size];
    assert Consistent(i, cs[size], cfg, reply);
  }

  /**
   Handing a queue over in the middle of a run loses nothing: if the slot stood at the device's
   position, the device that takes over from the reply (with any session of its own) is again in step
   with the ledger, and the next head it pops is the oldest one not yet served.
   */
  lemma {:induction false} HandoverResumes(e: R.Env, s: L.Sys, i: u32, cs: seq<Control>, slot: Slot, state: D.State)
    requires L.SysInv(e, s) && s.inflight.None? && slot.queue == Some(Queue(e.q, s.dev.last))
    requires SetsUp(i, cs, e.q, BaseReply(slot, i))
    ensures After(i, cs).queue.Some? && After(i, cs).queue.value.cfg == e.q
    ensures var s' := s.(dev := R.Dev(s.dev.host, state, After(i, cs).queue.value.last, s.dev.log));
            && L.SysInv(e, s')
            && (|s.dev.log| < |s.published| ==> L.PoppedOne(e, s').inflight == Some(s.published[|s.dev.log|]))
  {
    HandedOver(i, cs, slot, Queue(e.q, s.dev.last));
    var s' := s.(dev := R.Dev(s.dev.host, state, After(i, cs).queue.value.last, s.dev.log));
    assert L.LedgerOf(s') == L.LedgerOf(s);
    var v := R.ViewOf(e, s.dev.host);
    L.PopExact(e, v, s.dev.last, L.LedgerOf(s));
    R.PopView(e, s.dev.host, s.dev.last);
  }
}
