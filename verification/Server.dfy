/**
 The vhost-user back end (vhost_user/server.rs): the memory table, the queue slots and the server object
 that takes control messages and drains queues.
 */
module Server {
  import opened Basics
  import opened Bytes
  import opened Memory
  import opened Segments
  import opened Payload
  import opened Vrings
  import opened Serving
  import opened Messages
  import Rings
  import Drain
  import C = Conforming
  import L = Delivery
  import V = Virtqueue
  import S = Session
  import M = Framing

  // ---- The memory table ----

  /** What each `mmap` of a table came to: an index of the host store with room for the region, or failure. */
  ghost predicate Mapping(rs: seq<MemoryRegion>, ptrs: seq<Option<nat>>, n: nat) {
    |ptrs| == |rs| && forall i :: 0 <= i < |rs| && ptrs[i].Some? ==> ptrs[i].value + rs[i].size <= n
  }

  /** `ptrs` are the kernel's answers to the mappings message `m` asks for, if it does. */
  ghost predicate Answers(m: M.Message, ptrs: seq<Option<nat>>, n: nat) {
    match Meant(m)
    case Ok(MapTable(rs)) => Mapping(rs, ptrs, n)
    case _ => true
  }

  function MappedAt(r: MemoryRegion, ptr: nat): (region: Region) {
    Region(r.gpa, r.user, r.size, ptr)
  }

  /** The regions of a table all of whose mappings succeeded. */
  function MappedTo(rs: seq<MemoryRegion>, ptrs: seq<Option<nat>>): (regions: seq<Region>)
    requires |ptrs| == |rs| && None !in ptrs
    ensures |regions| == |rs|
    ensures forall i :: 0 <= i < |rs| ==>
              && regions[i].gpa == rs[i].gpa && regions[i].userAddr == rs[i].user && regions[i].len == rs[i].size
              && (ptrs[i].Some? ==> regions[i].ptr == ptrs[i].value)
  {
    seq(|rs|, i requires 0 <= i < |rs| => assert ptrs[i] in ptrs; MappedAt(rs[i], ptrs[i].value))
  }

  /** No address belongs to two entries of the table in the given space, and none is past 2^64. */
  ghost predicate EntriesApart(rs: seq<MemoryRegion>, space: AddrSpace) {
    && (forall i :: 0 <= i < |rs| ==> StartOf(rs[i], space) + rs[i].size <= 0x1_0000_0000_0000_0000)
    && (forall i, j :: 0 <= i < j < |rs| ==> Disjoint(rs[i], rs[j], space))
  }

  function StartOf(r: MemoryRegion, space: AddrSpace): (a: nat) {
    match space
    case Gpa => r.gpa
    case User => r.user
  }

  predicate Disjoint(r: MemoryRegion, s: MemoryRegion, space: AddrSpace) {
    StartOf(r, space) + r.size <= StartOf(s, space) || StartOf(s, space) + s.size <= StartOf(r, space)
  }

  /** A table whose entries do not overlap in an address space makes that space linear, wherever it is mapped. */
  lemma {:induction false} TableLinear(rs: seq<MemoryRegion>, ptrs: seq<Option<nat>>, space: AddrSpace)
    requires |ptrs| == |rs| && None !in ptrs && EntriesApart(rs, space)
    ensures Linear(Translate(MappedTo(rs, ptrs), space))
  {
    var regions := MappedTo(rs, ptrs);
    forall r, s | r in regions && s in regions && r != s
      ensures r.BaseFor(space) + r.len <= s.BaseFor(space) || s.BaseFor(space) + s.len <= r.BaseFor(space)
    {
      var i, j :| 0 <= i < |rs| && 0 <= j < |rs| && regions[i] == r && regions[j] == s;
      assert Disjoint(rs[Min(i, j)], rs[Max(i, j)], space);
    }
    TranslateLinear(regions, space);
  }

  /** Region by region; the first failure ends it. */
  method MapRegions(rs: seq<MemoryRegion>, ptrs: seq<Option<nat>>, store: array<byte>) returns (m: GuestMemory?)
    requires Mapping(rs, ptrs, store.Length)
    ensures m == null <==> None in ptrs
    ensures m != null ==> fresh(m) && m.Valid() && m.host == store && m.regions == MappedTo(rs, ptrs)
    ensures m != null ==> m.gpa == Translate(m.regions, Gpa) && m.user == Translate(m.regions, User)
  {
    var regions: seq<Region> := [];
    for i := 0 to |rs|
      invariant |regions| == i && None !in ptrs[..i] && Fits(regions, store.Length)
      invariant forall j :: 0 <= j < i ==> ptrs[j].Some? && regions[j] == MappedAt(rs[j], ptrs[j].value)
    {
      if ptrs[i].None? {
        return null;
      }
      regions := regions + [MappedAt(rs[i], ptrs[i].value)];
    }
    assert ptrs[..|rs|] == ptrs;
    m := new GuestMemory(regions, store);
  }

  // ---- Slots ----

  class VringSlot {
    var queueSize: Option<u16>
    var pendingBase: u16
    var vq: V.Virtqueue?
    var kickFd: Option<Fd>
    var callFd: Option<Fd>
    var enabled: bool

    ghost function View(): (s: Slot)
      reads this, vq
    {
      Slot(queueSize, pendingBase, if vq == null then None
          else Some(Queue(vq.cfg, vq.lastAvailIdx)), kickFd, callFd, enabled)
    }

    constructor ()
      ensures View() == FRESH && vq == null
    {
      queueSize, pendingBase, vq, kickFd, callFd, enabled := None, 0, null, None, None, false;
    }

    method MaybeBuild(a: VringAddr)
      modifies this
      ensures View() == old(View()).(queue := Build(old(View()), a))
      ensures vq == old(vq) || fresh(vq)
    {
      if queueSize.Some? {
        var q := new V.Virtqueue(queueSize.value, a.descriptor, a.avail, a.used);
        q.SetAvailBase(pendingBase);
        vq := q;
      }
    }

    method SetPosition(base: u16)
      modifies this, vq
      ensures vq == old(vq)
      ensures View() == var s := old(View());
                        s.(base := base,
                           queue := match s.queue case None => None case Some(q) => Some(q.(last := base)))
    {
      pendingBase := base;
      if vq != null {
        vq.SetAvailBase(base);
      }
    }

    /** A configuration message addressed to this slot. */
    method Configure(i: nat, c: Control)
      requires IndexOf(c) == i
      modifies this, vq
      ensures View() == Apply(i, old(View()), c)
      ensures vq == old(vq) || fresh(vq)
    {
      match c
      case SetNum(n) => queueSize := Some(Low16(n.num));
      case SetAddr(a) => MaybeBuild(a);
      case SetBase(b) => SetPosition(Low16(b.num));
      case SetEnable(e) => enabled := e.num != 0;
      case SetKick(k, fds) => kickFd := TakeFd(fds, k.noFd);
      case SetCall(k, fds) => callFd := TakeFd(fds, k.noFd);
    }
  }

  // ---- The server ----

  class Server {
    const hiprio: VringSlot
    const request: VringSlot
    const session: S.Session
    var mem: GuestMemory?

    /** The messages accepted so far. */
    ghost var seen: seq<M.Message>

    ghost predicate Apart()
      reads this, hiprio, request
    {
      hiprio != request && (hiprio.vq == null || hiprio.vq != request.vq)
    }

    /** Each queue is configured as the bytes of the messages say; its position is its own. */
    ghost predicate Valid()
      reads this, hiprio, request, hiprio.vq, request.vq
    {
      Apart() && Agree(hiprio.View(), Held(seen, 0)) && Agree(request.View(), Held(seen, 1))
    }

    ghost function Slots(): (s: seq<Slot>)
      reads hiprio, request, hiprio.vq, request.vq
    {
      [hiprio.View(), request.View()]
    }

    constructor (s: S.Session)
      ensures Valid() && session == s && mem == null && Slots() == [FRESH, FRESH] && seen == []
    {
      hiprio := new VringSlot();
      request := new VringSlot();
      session := s;
      mem := null;
      seen := [];
    }

    method Configure(c: Control)
      requires Apart()
      modifies hiprio, request, hiprio.vq, request.vq
      ensures Apart() && Slots() == ApplyAll(old(Slots()), c)
    {
      if IndexOf(c) == 0 {
        hiprio.Configure(0, c);
      } else if IndexOf(c) == 1 {
        request.Configure(1, c);
      }
    }

    /** A SET_MEM_TABLE message: the regions it lists replace guest memory, unless one cannot be mapped. */
    method SetMemTable(m: M.Message, ptrs: seq<Option<nat>>, store: array<byte>) returns (r: Result<(), ProtoError>)
      requires m.header.request == 5 && Answers(m, ptrs, store.Length)
      modifies this`mem
      ensures match Meant(m)
              case Ok(MapTable(rs)) =>
                if None in ptrs then r == Err(Io)
                else
                  && r == Ok(()) && mem != null && mem.Valid()
                  && mem.host == store && mem.regions == MappedTo(rs, ptrs)
                  && (EntriesApart(rs, Gpa) ==> Linear(mem.gpa)) && (EntriesApart(rs, User) ==> Linear(mem.user))
              case _ => r == Err(Truncated)
      ensures r.Err? ==> mem == old(mem)
    {
      InterpretIs(m);
      var rs :- RegionsFromBytes(m.payload);
      if |rs| != |m.fds| {
        return Err(Truncated);
      }
      var mapped := MapRegions(rs, ptrs, store);
      if mapped == null {
        return Err(Io);
      }
      mem := mapped;
      if EntriesApart(rs, Gpa) {
        TableLinear(rs, ptrs, Gpa);
      }
      if EntriesApart(rs, User) {
        TableLinear(rs, ptrs, User);
      }
      r := Ok(());
    }

    /** The message's effect on queues and guest memory, and the reply's body, if it asks for one. */
    method Perform(m: M.Message, ptrs: seq<Option<nat>>,
                   store: array<byte>) returns (r: Result<Option<seq<byte>>, ProtoError>)
      requires Apart() && Answers(m, ptrs, store.Length)
      modifies this`mem, hiprio, request, hiprio.vq, request.vq
      ensures Apart()
      ensures match Interpret(m)
              case Err(e) => r == Err(e)
              case Ok(MapTable(rs)) =>
                if None in ptrs then r == Err(Io)
                else
                  && r == Ok(None) && mem != null && mem.Valid()
                  && mem.host == store && mem.regions == MappedTo(rs, ptrs)
              case Ok(e) => r == Ok(Handled(old(Slots()), e).1) && mem == old(mem)
      ensures r.Err? ==> Slots() == old(Slots()) && mem == old(mem)
      ensures r.Ok? ==> Slots() == Handled(old(Slots()), Interpret(m).value).0
    {
      InterpretIs(m);
      if RequestFrom(m.header.request) == Ok(Request.SetMemTable) {
        var done :- SetMemTable(m, ptrs, store);
        return Ok(None);
      }
      var e :- Interpret(m);
      match e
      case Configure(c) =>
        Configure(c);
        r := Ok(None);
      case AskBase(index) =>
        var slot := if index == 0 then hiprio else request;
        var num := if index < NUM_QUEUES && slot.vq != null then slot.vq.lastAvailIdx else 0;
        r := Ok(Some(EncodeState(VringState(index, num))));
      case Tell(v) => r := Ok(Some(Le(v, 8)));
      case Ignore => r := Ok(None);
    }

    /**
     What `handle_one_message` does with a message, by its number and bytes. Once it is accepted the
     queues are configured as all messages so far say (`Valid`); otherwise nothing changes.
     */
    method HandleMessage(m: M.Message, ptrs: seq<Option<nat>>,
                         store: array<byte>) returns (r: Result<Option<seq<byte>>, ProtoError>)
      requires Valid() && Answers(m, ptrs, store.Length)
      modifies this, hiprio, request, hiprio.vq, request.vq
      ensures Valid() && seen == old(seen) + (if r.Ok? then [m] else [])
      ensures match Meant(m)
              case Err(e) => r == Err(e)
              case Ok(MapTable(rs)) =>
                if None in ptrs then r == Err(Io)
                else
                  && r == Ok(None) && mem != null && mem.Valid()
                  && mem.host == store && mem.regions == MappedTo(rs, ptrs)
              case Ok(e) => r == Ok(Handled(old(Slots()), e).1) && mem == old(mem)
      ensures r.Err? ==> Slots() == old(Slots()) && mem == old(mem)
      ensures r.Ok? ==> Slots() == Handled(old(Slots()), Meant(m).value).0
    {
      InterpretIs(m);
      ghost var slots := Slots();
      r := Perform(m, ptrs, store);
      ghost var now := Slots();
      if r.Ok? {
        StillAgree(slots, seen, m, 0);
        StillAgree(slots, seen, m, 1);
        seen := seen + [m];
      }
      assert hiprio.View() == now[0] && request.View() == now[1];
    }

    /**
     `handle_one_message`: one message off the connection, its effect, and the reply it asks for. A
     message that fails, for whatever reason, changes neither queues nor guest memory.
     */
    method HandleOne(conn: M.Connection, ptrs: seq<Option<nat>>, store: array<byte>) returns (r: Result<(), ProtoError>)
      requires Valid() && (M.TakeMessage(conn.inbox).0.Ok?
               ==> Answers(M.TakeMessage(conn.inbox).0.value, ptrs, store.Length))
      modifies this, conn, hiprio, request, hiprio.vq, request.vq
      ensures Valid()
      ensures r.Err? ==> Slots() == old(Slots()) && mem == old(mem)
      ensures r.Ok? ==>
                var (m, rest) := M.TakeMessage(old(conn.inbox));
                && m.Ok? && Meant(m.value).Ok? && conn.inbox == rest && seen == old(seen) + [m.value]
                && var (slots, body) := Handled(old(Slots()), Meant(m.value).value);
                   && Slots() == slots
                   && (match Meant(m.value)
                       case Ok(MapTable(rs)) =>
                         None !in ptrs && mem != null && mem.host == store && mem.regions == MappedTo(rs, ptrs)
                       case _ => mem == old(mem))
                   && conn.outbox == old(conn.outbox)
                        + (match body case None => [] case Some(b) => M.Frame(ReplyMessage(m.value.header.request, b)))
    {
      var m :- conn.Recv();
      var body :- HandleMessage(m, ptrs, store);
      r := Respond(conn, m.header.request, body);
    }

    /** The reply goes out if there is one. */
    static method Respond(conn: M.Connection, code: u32, body: Option<seq<byte>>) returns (r: Result<(), ProtoError>)
      modifies conn
      ensures conn.inbox == old(conn.inbox)
      ensures r.Ok? ==> conn.outbox == old(conn.outbox)
                          + (match body case None => [] case Some(b) => M.Frame(ReplyMessage(code, b)))
      ensures body.None? ==> r.Ok?
    {
      match body
      case None => r := Ok(());
      case Some(b) => r := conn.Send(ReplyMessage(code, b));
    }

    ghost function Memory(): (s: set<object>)
      reads this
    {
      if mem == null then {} else {mem.host}
    }

    /** Queue `idx`, once there is guest memory and the queue has been built. */
    function QueueAt(idx: nat): (vq: V.Virtqueue?)
      reads this, hiprio, request
    {
      if mem == null then null else if idx == 0 then hiprio.vq else request.vq
    }

    /** Server, session, guest memory and queue are apart, and `e` describes the queue. */
    ghost predicate Usable(vq: V.Virtqueue, e: Rings.Env)
      reads this, hiprio, request, session, session.fs, session.fs.inodes, session.fs.handles, session.fs.inodes.entries
    {
      && this !in session.Repr() && hiprio !in session.Repr() && request !in session.Repr()
      && mem != null && Ready(session, mem) && vq !in session.Repr()
      && e.gpa == mem.gpa && e.user == mem.user && e.q == vq.cfg
    }

    /** `turn` is the loop of this queue over the current guest memory and stops within `fuel` turns. */
    ghost predicate CanDrain(ks: Drain.Answers, vq: V.Virtqueue, e: Rings.Env, turn: Drain.Loop,
                             past: seq<Rings.Elem>, fuel: nat)
      reads this, hiprio, request, session, session.fs, session.fs.inodes, session.fs.handles,
            session.fs.inodes.entries, vq, Memory()
    {
      && Usable(vq, e)
      && turn == Drain.LoopOf(ks, e, mem.host.Length) && Drain.Ends(turn, DevOf(session, mem, vq, past), fuel)
    }

    /**
     Without guest memory or a queue there is nothing to do. Otherwise the queue is drained, and the
     guest is notified exactly when that ended well, served something and there is a call descriptor.
     */
    method ProcessVring(ks: Drain.Answers, first: nat, idx: nat, ghost e: Rings.Env, ghost turn: Drain.Loop,
                        ghost past: seq<Rings.Elem>, ghost fuel: nat)
      returns (r: Result<(), VqError>, notified: Option<Fd>, ghost log: seq<Rings.Elem>)
      requires Valid() && idx < NUM_QUEUES && first == |past|
      requires QueueAt(idx) != null ==> CanDrain(ks, QueueAt(idx), e, turn, past, fuel)
      modifies session.Repr(), Memory(), QueueAt(idx)
      ensures Valid() && seen == old(seen)
      ensures QueueAt(idx) == old(QueueAt(idx)) && mem == old(mem)
      ensures old(QueueAt(idx)) == null ==> r == Ok(()) && notified == None && log == past
      ensures old(QueueAt(idx)) != null ==>
                var vq := QueueAt(idx);
                && Ready(session, mem) && vq !in session.Repr()
                && (DevOf(session, mem, vq, log), r)
                   == Drain.DrainAll(turn, old(DevOf(session, mem, QueueAt(idx), past)), fuel)
      ensures notified == if r.Ok? && |log| > |past| then (if idx == 0 then hiprio else request).callFd else None
    {
      var vq := QueueAt(idx);
      if vq == null {
        return Ok(()), None, past;
      }
      var processed;
      ghost var first0, second0 := hiprio.View(), request.View();
      r, processed, log := DrainQueue(ks, first, session, mem, vq, e, turn, past, fuel);
      assert Agree(hiprio.View(), first0) && Agree(request.View(), second0);
      var slot := if idx == 0 then hiprio else request;
      notified := if r.Ok? && processed > 0 then slot.callFd else None;
    }

    /**
     The descriptor to signal is the one of the last SET_VRING_CALL for the queue, if that carried one, and
     the queue is where the messages put it.
     */
    lemma Signals(idx: nat)
      requires Valid() && idx < NUM_QUEUES
      ensures (if idx == 0 then hiprio else request).callFd == LastFd(seen, 13, idx)
      ensures QueueAt(idx) != null ==>
                QueueSaid(seen, idx).Some? && QueueAt(idx).cfg == QueueSaid(seen, idx).value.cfg
    {
      CallSaid(hiprio.View(), seen, 0);
      CallSaid(request.View(), seen, 1);
    }

    /**
     `process_vring` on a conforming driver's queue, in the middle of any run: it stops by itself.
     Without an error every published head has been answered exactly once and in order, rings and
     ledger are in step again, and the guest is notified exactly when something was pending, on the
     descriptor of the last SET_VRING_CALL for the queue if that carried one. With an error, all that is
     missing is the head it had popped.
     */
    method ProcessConforming(ks: Drain.Answers, first: nat, idx: nat, ghost e: Rings.Env, ghost desc: nat,
                             ghost s: L.Sys)
      returns (r: Result<(), VqError>, notified: Option<Fd>, ghost log: seq<Rings.Elem>)
      requires Valid() && idx < NUM_QUEUES && first == |s.dev.log| && QueueAt(idx) != null
      requires Usable(QueueAt(idx), e) && s.dev == DevOf(session, mem, QueueAt(idx), s.dev.log)
      requires L.SysInv(e, s) && s.inflight.None? && 0x1_0000 % e.q.size == 0
      requires C.Tabled(e, desc) && C.SafeAhead(e, desc, s.dev.host, s.dev.last, Drain.Pending(e, s.dev))
      modifies session.Repr(), Memory(), QueueAt(idx)
      ensures Valid() && seen == old(seen)
      ensures mem == old(mem) && QueueAt(idx) == old(QueueAt(idx)) && mem != null && QueueAt(idx) != null
      ensures QueueSaid(seen, idx).Some? && e.q == QueueSaid(seen, idx).value.cfg
      ensures var d := DevOf(session, mem, QueueAt(idx), log);
              && Drain.Drained(e, s, (d, r))
              && (r.Ok? ==> L.Heads(log) == s.published)
      ensures notified == if r.Ok? && |s.published| > |s.dev.log| then LastFd(seen, 13, idx) else None
    {
      ghost var n, fuel := |s.dev.host|, Drain.Pending(e, s.dev);
      ghost var turn := Drain.LoopOf(ks, e, n);
      Signals(idx);
      C.ConformingConserves(ks, e, desc, s, n);
      r, notified, log := ProcessVring(ks, first, idx, e, turn, s.dev.log, fuel);
    }
  }
}
