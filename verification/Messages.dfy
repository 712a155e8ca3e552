/**
 The control messages of the vhost-user back end (vhost_user/server.rs): what each asks for, what it
 does to the queues, and how the queues follow from the bytes of all messages so far.
 */
module Messages {
  import opened Basics
  import opened Bytes
  import opened Payload
  import opened Vrings
  import V = Virtqueue
  import M = Framing

  const VIRTIO_FEATURES: u64 := 0x1_4000_0000
  const PROTOCOL_FEATURES: u64 := 0
  const NUM_QUEUES := 2

  // ---- Control messages as values ----

  /** What a message asks for: a queue's configuration, new guest memory, a queue's position, a constant, nothing. */
  datatype Event =
    | Configure(c: Control)
    | MapTable(rs: seq<MemoryRegion>)
    | AskBase(index: u32)
    | Tell(value: u64)
    | Ignore

  function OnState(p: seq<byte>, f: VringState -> Event): (r: Result<Event, ProtoError>) {
    var s :- DecodeState(p);
    Ok(f(s))
  }

  function OnFd(p: seq<byte>, f: VringFd -> Event): (r: Result<Event, ProtoError>) {
    var s :- DecodeFd(p);
    Ok(f(s))
  }

  /** Unknown requests are ignored; short payloads are an error. */
  function Interpret(m: M.Message): (r: Result<Event, ProtoError>) {
    match RequestFrom(m.header.request)
    case Err(_) => Ok(Ignore)
    case Ok(request) =>
      match request
      case GetFeatures => Ok(Tell(VIRTIO_FEATURES))
      case GetProtocolFeatures => Ok(Tell(PROTOCOL_FEATURES))
      case GetQueueNum => Ok(Tell(NUM_QUEUES))
      case SetFeatures => (match DecodeU64(m.payload) case Err(e) => Err(e) case Ok(_) => Ok(Ignore))
      case SetMemTable =>
        (match DecodeRegions(m.payload)
         case Err(e) => Err(e)
         case Ok(rs) => if |rs| != |m.fds| then Err(Truncated) else Ok(MapTable(rs)))
      case SetVringNum => OnState(m.payload, (s: VringState) => Configure(SetNum(s)))
      case SetVringAddr =>
        (match DecodeAddr(m.payload) case Err(e) => Err(e) case Ok(a) => Ok(Configure(SetAddr(a))))
      case SetVringBase => OnState(m.payload, (s: VringState) => Configure(SetBase(s)))
      case GetVringBase => OnState(m.payload, (s: VringState) => AskBase(s.index))
      case SetVringKick => OnFd(m.payload, (p: VringFd) => Configure(SetKick(p, m.fds)))
      case SetVringCall => OnFd(m.payload, (p: VringFd) => Configure(SetCall(p, m.fds)))
      case SetVringErr => OnFd(m.payload, (p: VringFd) => Ignore)
      case SetVringEnable => OnState(m.payload, (s: VringState) => Configure(SetEnable(s)))
      case _ => Ok(Ignore)
  }

  function IndexOf(c: Control): (i: nat) {
    match c
    case SetNum(n) => n.index
    case SetAddr(a) => a.index
    case SetBase(b) => b.index
    case SetEnable(e) => e.index
    case SetKick(k, _) => k.index
    case SetCall(k, _) => k.index
  }

  /** A message's effect on all slots; an index beyond them is ignored. */
  function ApplyAll(slots: seq<Slot>, c: Control): (r: seq<Slot>)
    ensures |r| == |slots|
  {
    seq(|slots|, i requires 0 <= i < |slots| => Apply(i, slots[i], c))
  }

  /** The slots after an event, and the reply body if there is one. */
  function Handled(slots: seq<Slot>, e: Event): (r: (seq<Slot>, Option<seq<byte>>)) {
    match e
    case Configure(c) => (ApplyAll(slots, c), None)
    case MapTable(_) => (slots, None)
    case AskBase(index) =>
      (slots, Some(EncodeState(if index < |slots| then BaseReply(slots[index], index) else VringState(index, 0))))
    case Tell(v) => (slots, Some(Le(v, 8)))
    case Ignore => (slots, None)
  }

  /** All slots of a new server after some configuration messages. */
  function AllAfter(cs: seq<Control>): (slots: seq<Slot>)
    ensures |slots| == NUM_QUEUES
    decreases cs
  {
    if cs == [] then [FRESH, FRESH] else ApplyAll(AllAfter(cs[..|cs| - 1]), cs[|cs| - 1])
  }

  /** Slots do not interfere: each holds what the messages addressed to it say. */
  lemma {:induction false} SlotsIndependent(cs: seq<Control>, i: nat)
    requires i < NUM_QUEUES
    ensures AllAfter(cs)[i] == After(i, cs)
    ensures AllAfter(cs)[i].queue == QueueOf(i, cs)
    decreases cs
  {
    if cs != [] {
      SlotsIndependent(cs[..|cs| - 1], i);
    }
    ConfiguredByHistory(i, cs);
  }

  /** The `j`-th region of a memory table: 32 bytes each, after a count and four bytes of padding. */
  function RegionSaid(b: seq<byte>, j: nat): (r: MemoryRegion)
    requires 8 + 32 * j + 32 <= |b|
  {
    PowFacts();
    MemoryRegion(Num(b, 8 + 32 * j, 8), Num(b, 16 + 32 * j, 8), Num(b, 24 + 32 * j, 8), Num(b, 32 + 32 * j, 8))
  }

  function TableSaid(b: seq<byte>, n: nat): (rs: seq<MemoryRegion>)
    requires 8 + 32 * n <= |b|
  {
    seq(n, j requires 0 <= j < n => RegionSaid(b, j))
  }

  /** What a message asks for, by its number and the bytes of its payload. */
  function Meant(m: M.Message): (r: Result<Event, ProtoError>) {
    PowFacts();
    var b, code := m.payload, m.header.request;
    if code == 1 then Ok(Tell(0x1_4000_0000))
    else if code == 15 then Ok(Tell(0))
    else if code == 17 then Ok(Tell(2))
    else if code == 5 then
      if |b| < 8 || |b| < 8 + 32 * Num(b, 0, 4) || Num(b, 0, 4) != |m.fds| then Err(Truncated)
      else Ok(MapTable(TableSaid(b, |m.fds|)))
    else if code == 9 then
      if |b| < 40 then Err(Truncated)
      else Ok(Configure(SetAddr(VringAddr(Num(b, 0, 4), Num(b, 4, 4), Num(b, 8, 8), Num(b, 16, 8), Num(b, 24, 8),
                                          Num(b, 32, 8)))))
    else if code !in {2, 8, 10, 11, 12, 13, 14, 18} then Ok(Ignore)
    else if |b| < 8 then Err(Truncated)
    else
      var s, f := VringState(Num(b, 0, 4), Num(b, 4, 4)), VringFd(b[0], b[1] % 2 == 1);
      Ok(if code == 8 then Configure(SetNum(s))
         else if code == 10 then Configure(SetBase(s))
         else if code == 11 then AskBase(s.index)
         else if code == 12 then Configure(SetKick(f, m.fds))
         else if code == 13 then Configure(SetCall(f, m.fds))
         else if code == 18 then Configure(SetEnable(s))
         else Ignore)
  }

  /** The low byte and bit 8 of the number in the first 8 bytes. */
  lemma {:induction false} FdBytes(b: seq<byte>)
    requires |b| >= 8
    ensures Num(b, 0, 8) % 256 == b[0] && Num(b, 0, 8) / 256 % 2 == b[1] % 2
  {
    var s := b[0..8];
    var t := s[1..];
    var u := t[1..];
    LowBits(FromLe(s), FromLe(t), FromLe(u), s[0], t[0]);
  }

  lemma {:induction false} LowBits(n: nat, q: nat, r: nat, a: byte, b: byte)
    requires n == a + 256 * q && q == b + 256 * r
    ensures n % 256 == a && n / 256 % 2 == b % 2
  {
    DivUnique(n, 256, q, a);
    DivUnique(q, 2, 128 * r + b / 2, b % 2);
  }

  lemma {:induction false} RegionsSaid(b: seq<byte>, off: nat, count: nat, j: nat)
    requires off + REGION_LEN * count <= |b| && j < count
    ensures RegionsAt(b, off, count)[j] == RegionAt(b, off + 32 * j)
    decreases count
  {
    if j > 0 {
      RegionsSaid(b, off + REGION_LEN, count - 1, j - 1);
    }
  }

  lemma {:induction false} TableIs(b: seq<byte>, n: nat)
    requires DecodeRegions(b).Ok? && Num(b, 0, 4) == n
    ensures DecodeRegions(b).value == TableSaid(b, n)
  {
    forall j | 0 <= j < n
      ensures DecodeRegions(b).value[j] == RegionSaid(b, j)
    {
      RegionsSaid(b, 8, n, j);
    }
  }

  /** The server takes every message for what its number and bytes say. */
  lemma {:induction false} InterpretIs(m: M.Message)
    ensures Interpret(m) == Meant(m)
  {
    var b, code := m.payload, m.header.request;
    if |b| >= 8 {
      FdBytes(b);
    }
    if code == 5 && DecodeRegions(b).Ok? && Num(b, 0, 4) == |m.fds| {
      TableIs(b, |m.fds|);
    }
  }

  lemma {:induction false} EncodedState(h: MsgHeader, s: VringState, fds: seq<Fd>)
    requires h.request in {8, 10, 11, 18}
    ensures Interpret(M.Message(h, EncodeState(s), fds)) ==
              Ok(if h.request == 11 then AskBase(s.index)
                 else Configure(if h.request == 8 then SetNum(s) else if h.request == 10 then SetBase(s)
                                else SetEnable(s)))
  {
    StateRoundTrip(s, []);
    assert EncodeState(s) + [] == EncodeState(s);
  }

  lemma {:induction false} EncodedFd(h: MsgHeader, p: VringFd, fds: seq<Fd>)
    requires h.request in {12, 13}
    ensures Interpret(M.Message(h, EncodeFd(p), fds)) ==
              Ok(Configure(if h.request == 12 then SetKick(p, fds) else SetCall(p, fds)))
  {
    FdRoundTrip(p, []);
    assert EncodeFd(p) + [] == EncodeFd(p);
  }

  lemma {:induction false} EncodedAddr(h: MsgHeader, a: VringAddr, fds: seq<Fd>)
    requires h.request == 9
    ensures Interpret(M.Message(h, EncodeAddr(a), fds)) == Ok(Configure(SetAddr(a)))
  {
    AddrRoundTrip(a, []);
    assert EncodeAddr(a) + [] == EncodeAddr(a);
  }

  lemma {:induction false} EncodedTable(h: MsgHeader, rs: seq<MemoryRegion>, fds: seq<Fd>)
    requires h.request == 5 && |rs| == |fds| < 0x1_0000_0000
    ensures Interpret(M.Message(h, EncodeRegions(rs), fds)) == Ok(MapTable(rs))
  {
    RegionsRoundTrip(rs, []);
    assert EncodeRegions(rs) + [] == EncodeRegions(rs);
  }

  /** What a front end encodes is what the server takes it for. */
  lemma {:induction false} InterpretsEncoded(flags: u32, size: u32, s: VringState, a: VringAddr, p: VringFd,
                                             rs: seq<MemoryRegion>, fds: seq<Fd>)
    ensures Interpret(M.Message(MsgHeader(8, flags, size), EncodeState(s), fds)) == Ok(Configure(SetNum(s)))
    ensures Interpret(M.Message(MsgHeader(9, flags, size), EncodeAddr(a), fds)) == Ok(Configure(SetAddr(a)))
    ensures Interpret(M.Message(MsgHeader(10, flags, size), EncodeState(s), fds)) == Ok(Configure(SetBase(s)))
    ensures Interpret(M.Message(MsgHeader(11, flags, size), EncodeState(s), fds)) == Ok(AskBase(s.index))
    ensures Interpret(M.Message(MsgHeader(12, flags, size), EncodeFd(p), fds)) == Ok(Configure(SetKick(p, fds)))
    ensures Interpret(M.Message(MsgHeader(13, flags, size), EncodeFd(p), fds)) == Ok(Configure(SetCall(p, fds)))
    ensures Interpret(M.Message(MsgHeader(18, flags, size), EncodeState(s), fds)) == Ok(Configure(SetEnable(s)))
    ensures |rs| == |fds| < 0x1_0000_0000 ==>
              Interpret(M.Message(MsgHeader(5, flags, size), EncodeRegions(rs), fds)) == Ok(MapTable(rs))
  {
    EncodedState(MsgHeader(8, flags, size), s, fds);
    EncodedState(MsgHeader(10, flags, size), s, fds);
    EncodedState(MsgHeader(11, flags, size), s, fds);
    EncodedState(MsgHeader(18, flags, size), s, fds);
    EncodedFd(MsgHeader(12, flags, size), p, fds);
    EncodedFd(MsgHeader(13, flags, size), p, fds);
    EncodedAddr(MsgHeader(9, flags, size), a, fds);
    if |rs| == |fds| < 0x1_0000_0000 {
      EncodedTable(MsgHeader(5, flags, size), rs, fds);
    }
  }

  /** The body of a GET_VRING_BASE reply decodes to the queue's position. */
  lemma {:induction false} BaseReplyDecodes(slots: seq<Slot>, index: u32)
    requires index < |slots|
    ensures Handled(slots, AskBase(index)).1.Some?
    ensures DecodeState(Handled(slots, AskBase(index)).1.value) == Ok(BaseReply(slots[index], index))
  {
    var b := EncodeState(BaseReply(slots[index], index));
    StateRoundTrip(BaseReply(slots[index], index), []);
    assert b + [] == b;
  }

  /** The position to report for queue `i`: 0 if there is none. */
  function PositionIn(slots: seq<Slot>, i: nat): (n: nat) {
    if i < |slots| && slots[i].queue.Some? then slots[i].queue.value.last else 0
  }

  /** Which messages are answered, by number, and the bytes of the answer. */
  lemma {:induction false} AnswersSaid(slots: seq<Slot>, m: M.Message)
    requires Interpret(m).Ok?
    ensures var body, code := Handled(slots, Interpret(m).value).1, m.header.request;
            && (body.Some? <==> code in {1, 11, 15, 17}) && (body.Some? ==> |body.value| == 8)
            && (code == 1 ==> Num(body.value, 0, 8) == 0x1_4000_0000)
            && (code == 15 ==> Num(body.value, 0, 8) == 0) && (code == 17 ==> Num(body.value, 0, 8) == 2)
            && (code == 11 ==>
                  && |m.payload| >= 8 && Num(body.value, 0, 4) == Num(m.payload, 0, 4)
                  && Num(body.value, 4, 4) == PositionIn(slots, Num(m.payload, 0, 4)))
  {
    InterpretIs(m);
    if m.header.request == 11 {
      PositionTold(slots, Interpret(m).value.index);
    } else if Interpret(m).value.Tell? {
      ConstantTold(Interpret(m).value.value);
    }
  }

  lemma {:induction false} ConstantTold(v: u64)
    ensures Num(Le(v, 8), 0, 8) == v
  {
    PowFacts();
    FromLeOfLe(v, 8);
    assert Le(v, 8)[0..8] == Le(v, 8);
  }

  lemma {:induction false} PositionTold(slots: seq<Slot>, i: u32)
    ensures var body := Handled(slots, AskBase(i)).1;
            && body.Some? && |body.value| == 8
            && Num(body.value, 0, 4) == i && Num(body.value, 4, 4) == PositionIn(slots, i)
  {
    var s := VringState(i, PositionIn(slots, i));
    StateRoundTrip(s, []);
    assert EncodeState(s) + [] == EncodeState(s);
  }

  const FLAG_VERSION_1: u32 := 1
  const FLAG_REPLY: u32 := 4

  /** The reply to a request: its own code, the reply flag, and the size of the body. */
  function ReplyMessage(code: u32, body: seq<byte>): (m: M.Message) {
    M.Message(MsgHeader(code, FLAG_REPLY + FLAG_VERSION_1, |body| % 0x1_0000_0000), body, [])
  }

  /** Every reply reaches the front end as sent, whatever the splits. */
  lemma {:induction false} RepliesArrive(slots: seq<Slot>, e: Event, code: u32, rest: seq<M.Cell>)
    requires Handled(slots, e).1.Some?
    ensures var b := Handled(slots, e).1.value;
            var reply := ReplyMessage(code, b);
            && M.TakeMessage(M.Frame(reply) + rest) == (Ok(reply), rest)
            && reply == M.Message(MsgHeader(code, 5, |b|), b, [])
  {
    M.FrameExact(ReplyMessage(code, Handled(slots, e).1.value), rest);
  }

  // ---- The history of messages, read off their bytes ----

  /** A message with this code, for queue `i`, that is long enough. */
  function For(code: nat, i: nat, len: nat): M.Message -> bool
    requires len >= 4
  {
    (m: M.Message) => m.header.request == code && |m.payload| >= len && Num(m.payload, 0, 4) == i
  }

  /** A message with this code that carries a descriptor, or none, for queue `i`. */
  function FdFor(code: nat, i: nat): M.Message -> bool {
    (m: M.Message) => m.header.request == code && |m.payload| >= 8 && m.payload[0] == i
  }

  /** The last of the messages with this code for queue `i`. */
  function LastFor(ms: seq<M.Message>, code: nat, i: nat, len: nat): (p: Option<nat>)
    requires len >= 4
    ensures p.Some? ==> p.value < |ms| && For(code, i, len)(ms[p.value])
  {
    LastIndex(ms, For(code, i, len))
  }

  /** The second number in the last message with this code for queue `i`. */
  function LastNum(ms: seq<M.Message>, code: nat, i: nat): (n: Option<nat>) {
    match LastFor(ms, code, i, 8)
    case None => None
    case Some(p) => Some(Num(ms[p].payload, 4, 4))
  }

  /** The first descriptor of the last message with this code for queue `i`, unless it says it has none. */
  function LastFd(ms: seq<M.Message>, code: nat, i: nat): (fd: Option<Fd>) {
    match LastIndex(ms, FdFor(code, i))
    case None => None
    case Some(p) => if ms[p].payload[1] % 2 == 1 || ms[p].fds == [] then None else Some(ms[p].fds[0])
  }

  /** SET_VRING_NUM is 8, and its number counts modulo 2^16. */
  function SizeSaid(ms: seq<M.Message>, i: nat): (n: Option<u16>) {
    match LastNum(ms, 8, i) case None => None case Some(n) => Some(n % 0x1_0000)
  }

  /** SET_VRING_BASE is 10, and its number counts modulo 2^16. */
  function BaseSaid(ms: seq<M.Message>, i: nat): (n: u16) {
    match LastNum(ms, 10, i) case None => 0 case Some(n) => n % 0x1_0000
  }

  /** SET_VRING_ADDR is 9: the last one says where the queue is, if a size had been given before. */
  function QueueSaid(ms: seq<M.Message>, i: nat): (q: Option<Queue>) {
    match LastFor(ms, 9, i, 40)
    case None => None
    case Some(p) =>
      PowFacts();
      match SizeSaid(ms[..p], i)
      case None => None
      case Some(n) =>
        var b := ms[p].payload;
        Some(Queue(V.Config(Num(b, 8, 8), Num(b, 24, 8), Num(b, 16, 8), n), BaseSaid(ms, i)))
  }

  /** Queue `i` as the messages say: kick is 12, call 13, enable 18. */
  function Said(ms: seq<M.Message>, i: nat): (s: Slot) {
    Slot(SizeSaid(ms, i), BaseSaid(ms, i), QueueSaid(ms, i), LastFd(ms, 12, i), LastFd(ms, 13, i),
         LastNum(ms, 18, i).Some? && LastNum(ms, 18, i).value != 0)
  }

  /** What a message does to slot `i`. */
  function Effect(i: nat, s: Slot, m: M.Message): (s': Slot) {
    match Interpret(m)
    case Ok(Configure(c)) => Apply(i, s, c)
    case _ => s
  }

  lemma {:induction false} LastSnoc<T>(ms: seq<T>, m: T, f: T -> bool)
    ensures LastIndex(ms + [m], f) == if f(m) then Some(|ms|) else LastIndex(ms, f)
  {
    assert (ms + [m])[..|ms|] == ms;
  }

  lemma {:induction false} NumSnoc(ms: seq<M.Message>, m: M.Message, code: nat, i: nat)
    ensures LastNum(ms + [m], code, i) ==
              if For(code, i, 8)(m) then Some(Num(m.payload, 4, 4)) else LastNum(ms, code, i)
  {
    LastSnoc(ms, m, For(code, i, 8));
  }

  /** The descriptor in force after a message, if `fd` was before. */
  function FdAfter(m: M.Message, code: nat, i: nat, fd: Option<Fd>): (fd': Option<Fd>) {
    if !FdFor(code, i)(m) then fd else if m.payload[1] % 2 == 1 || m.fds == [] then None else Some(m.fds[0])
  }

  /** The queue at the addresses in a message, at the slot's position, if the slot has a size. */
  function Built(s: Slot, m: M.Message): (q: Option<Queue>)
    requires |m.payload| >= 40
  {
    PowFacts();
    var b := m.payload;
    match s.size
    case None => s.queue
    case Some(n) => Some(Queue(V.Config(Num(b, 8, 8), Num(b, 24, 8), Num(b, 16, 8), n), s.base))
  }

  lemma {:induction false} FdSnoc(ms: seq<M.Message>, m: M.Message, code: nat, i: nat)
    ensures LastFd(ms + [m], code, i) == FdAfter(m, code, i, LastFd(ms, code, i))
  {
    LastSnoc(ms, m, FdFor(code, i));
  }

  /** A queue was built only if a size had been given, and a size stays given. */
  lemma {:induction false} SizeStays(ms: seq<M.Message>, i: nat)
    requires QueueSaid(ms, i).Some?
    ensures SizeSaid(ms, i).Some?
  {
    var p := LastFor(ms, 9, i, 40).value;
    LastIndexIs(ms, For(8, i, 8));
    var q := LastFor(ms[..p], 8, i, 8).value;
    assert ms[..p][q] == ms[q];
  }

  lemma {:induction false} QueueSnoc(ms: seq<M.Message>, m: M.Message, i: nat)
    ensures var q, q' := QueueSaid(ms, i), QueueSaid(ms + [m], i);
            if For(9, i, 40)(m) then q' == Built(Said(ms, i), m)
            else if q.None? then q'.None?
            else q' == Some(q.value.(last := BaseSaid(ms + [m], i)))
  {
    LastSnoc(ms, m, For(9, i, 40));
    NumSnoc(ms, m, 10, i);
    if For(9, i, 40)(m) {
      assert (ms + [m])[..|ms|] == ms;
      if SizeSaid(ms, i).None? && QueueSaid(ms, i).Some? {
        SizeStays(ms, i);
      }
    } else if p: nat :| LastFor(ms, 9, i, 40) == Some(p) {
      assert (ms + [m])[..p] == ms[..p];
    }
  }

  /** The effect, field by field, off the bytes. */
  lemma {:induction false} EffectIs(i: nat, s: Slot, m: M.Message)
    ensures var b, s' := m.payload, Effect(i, s, m);
            && s'.size == (if For(8, i, 8)(m) then Some(Num(b, 4, 4) % 0x1_0000) else s.size)
            && s'.base == (if For(10, i, 8)(m) then Num(b, 4, 4) % 0x1_0000 else s.base)
            && s'.enabled == (if For(18, i, 8)(m) then Num(b, 4, 4) != 0 else s.enabled)
            && s'.kick == FdAfter(m, 12, i, s.kick) && s'.call == FdAfter(m, 13, i, s.call)
            && s'.queue == (if For(9, i, 40)(m) then Built(s, m)
                            else if For(10, i, 8)(m) && s.queue.Some? then Some(s.queue.value.(last := s'.base))
                            else s.queue)
  {
    InterpretIs(m);
  }

  lemma {:induction false} SaidStep(ms: seq<M.Message>, m: M.Message, i: nat)
    ensures Said(ms + [m], i) == Effect(i, Said(ms, i), m)
  {
    EffectIs(i, Said(ms, i), m);
    NumSnoc(ms, m, 8, i);
    NumSnoc(ms, m, 10, i);
    NumSnoc(ms, m, 18, i);
    FdSnoc(ms, m, 12, i);
    FdSnoc(ms, m, 13, i);
    QueueSnoc(ms, m, i);
  }

  lemma {:induction false} HandledIs(slots: seq<Slot>, m: M.Message, i: nat)
    requires i < |slots| && Interpret(m).Ok?
    ensures var slots' := Handled(slots, Interpret(m).value).0;
            |slots'| == |slots| && slots'[i] == Effect(i, slots[i], m)
  {
  }

  /** Slot `i` of a new server after some messages. */
  function Held(ms: seq<M.Message>, i: nat): (s: Slot)
    decreases ms
  {
    if ms == [] then FRESH else Effect(i, Held(ms[..|ms| - 1], i), ms[|ms| - 1])
  }

  /** After any messages, each queue is configured as the bytes of those messages say. */
  lemma {:induction false} HeldAsSaid(ms: seq<M.Message>, i: nat)
    ensures Held(ms, i) == Said(ms, i)
    decreases ms
  {
    if ms != [] {
      var t, m := ms[..|ms| - 1], ms[|ms| - 1];
      assert t + [m] == ms;
      HeldAsSaid(t, i);
      SaidStep(t, m, i);
    }
  }

  /** All but the position in the queue, which serving requests moves. */
  ghost predicate Agree(s: Slot, t: Slot) {
    && s.(queue := None) == t.(queue := None)
    && (s.queue.Some? <==> t.queue.Some?) && (s.queue.Some? ==> s.queue.value.cfg == t.queue.value.cfg)
  }

  /** The call descriptor in force is the one of the last SET_VRING_CALL. */
  lemma {:induction false} CallSaid(s: Slot, ms: seq<M.Message>, i: nat)
    requires Agree(s, Held(ms, i))
    ensures s.call == LastFd(ms, 13, i)
    ensures s.queue.Some? ==> QueueSaid(ms, i).Some? && s.queue.value.cfg == QueueSaid(ms, i).value.cfg
  {
    HeldAsSaid(ms, i);
  }

  lemma {:induction false} ApplyAgrees(i: nat, s: Slot, t: Slot, c: Control)
    requires Agree(s, t)
    ensures Agree(Apply(i, s, c), Apply(i, t, c))
  {
  }

  lemma {:induction false} EffectAgrees(i: nat, s: Slot, t: Slot, m: M.Message)
    requires Agree(s, t)
    ensures Agree(Effect(i, s, m), Effect(i, t, m))
  {
    match Interpret(m)
    case Ok(Configure(c)) => ApplyAgrees(i, s, t, c);
    case _ =>
  }

  /** An accepted message leaves each slot as all messages, that one included, say. */
  lemma {:induction false} StillAgree(slots: seq<Slot>, ms: seq<M.Message>, m: M.Message, i: nat)
    requires i < |slots| && Interpret(m).Ok? && Agree(slots[i], Held(ms, i))
    ensures var slots' := Handled(slots, Interpret(m).value).0;
            |slots'| == |slots| && Agree(slots'[i], Held(ms + [m], i))
  {
    HandledIs(slots, m, i);
    assert (ms + [m])[..|ms|] == ms;
    EffectAgrees(i, slots[i], Held(ms, i), m);
  }
}
