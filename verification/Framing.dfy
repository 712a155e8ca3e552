/**
 Message framing over a UNIX stream socket (vhost_user/connection.rs). A direction of the socket is a
 sequence of cells: a byte, and the descriptors that were attached to the send it started. How many
 bytes one system call moves, or whether it fails, is an arbitrary function of the call's number; a
 receive does not run on into a second send that carried descriptors, and takes at most 32 of them.
 */
module Framing {
  import opened Basics
  import opened Bytes
  import opened Payload

  const MAX_FDS_PER_RECV := 32
  const MAX_PAYLOAD := 0x10_0000

  type Fd = int

  datatype Cell = Cell(b: byte, fds: seq<Fd>)

  /** Bytes as sent by one call: descriptors ride on the first. */
  function Cells(b: seq<byte>, fds: seq<Fd>): (c: seq<Cell>)
    ensures |c| == |b|
  {
    seq(|b|, i requires 0 <= i < |b| => Cell(b[i], if i == 0 then fds else []))
  }

  function BytesOf(c: seq<Cell>): (b: seq<byte>)
    ensures |b| == |c|
  {
    seq(|c|, i requires 0 <= i < |c| => c[i].b)
  }

  /** The descriptors one cell can deliver. */
  function Delivered(c: Cell): (fds: seq<Fd>) {
    c.fds[..Min(MAX_FDS_PER_RECV, |c.fds|)]
  }

  function FdsOf(c: seq<Cell>): (fds: seq<Fd>) {
    if c == [] then [] else Delivered(c[0]) + FdsOf(c[1..])
  }

  lemma {:induction false} FdsOfConcat(a: seq<Cell>, b: seq<Cell>)
    ensures FdsOf(a + b) == FdsOf(a) + FdsOf(b)
    decreases a
  {
    if a == [] {
      assert a + b == b;
    } else {
      assert (a + b)[1..] == a[1..] + b;
      FdsOfConcat(a[1..], b);
    }
  }

  /** How far from the start no further send with descriptors begins. */
  function Run(c: seq<Cell>): (n: nat)
    ensures n <= |c|
    ensures forall i :: 0 < i < n ==> c[i].fds == []
    ensures n == 0 <==> c == []
  {
    if |c| <= 1 then |c|
    else if c[1].fds != [] then 1
    else 1 + Run(c[1..])
  }

  lemma {:induction false} RunFds(c: seq<Cell>, n: nat)
    requires 0 < n <= |c| && forall i :: 0 < i < n ==> c[i].fds == []
    ensures FdsOf(c[..n]) == Delivered(c[0])
  {
    var t := c[..n];
    NoFds(t[1..]);
  }

  lemma {:induction false} NoFds(c: seq<Cell>)
    requires forall i :: 0 <= i < |c| ==> c[i].fds == []
    ensures FdsOf(c) == []
    decreases c
  {
    if c != [] {
      NoFds(c[1..]);
    }
  }

  // ---- Messages ----

  datatype Message = Message(header: MsgHeader, payload: seq<byte>, fds: seq<Fd>)

  function Frame(m: Message): (c: seq<Cell>) {
    Cells(EncodeHeader(m.header) + m.payload, m.fds)
  }

  /** `recv` as a function of what is in the stream, and what is left of it. */
  function TakeMessage(c: seq<Cell>): (r: (Result<Message, ProtoError>, seq<Cell>)) {
    if |c| < HEADER_LEN then (Err(Disconnected), [])
    else
      var h := DecodeHeader(BytesOf(c[..HEADER_LEN]));
      if h.size > MAX_PAYLOAD then (Err(PayloadTooLarge(h.size)), c[HEADER_LEN..])
      else if |c| < HEADER_LEN + h.size then (Err(Disconnected), [])
      else
        var n := HEADER_LEN + h.size;
        (Ok(Message(h, BytesOf(c[HEADER_LEN..n]), FdsOf(c[..n]))), c[n..])
  }

  /** `t` is what is left of `c` after its first cells have been taken. */
  predicate Suffix(t: seq<Cell>, c: seq<Cell>) {
    |t| <= |c| && t == c[|c| - |t|..]
  }

  class Connection {
    /** What the peer has sent and we have not read, and what we have sent. */
    var inbox: seq<Cell>
    var outbox: seq<Cell>

    /** How many bytes the kernel moves in each call, none if the call fails; 0 on a send means the peer is gone. */
    const moves: nat -> Option<nat>
    var calls: nat

    constructor (stream: seq<Cell>, sizes: nat -> Option<nat>)
      ensures inbox == stream && outbox == [] && moves == sizes
    {
      inbox := stream;
      outbox := [];
      moves := sizes;
      calls := 0;
    }

    /** The last call made failed. */
    predicate JustFailed()
      reads this
    {
      calls > 0 && moves(calls - 1).None?
    }

    method SendWithFd(b: seq<byte>, fds: seq<Fd>) returns (r: Result<nat, ProtoError>)
      requires b != []
      modifies this
      ensures calls == old(calls) + 1 && inbox == old(inbox)
      ensures match moves(old(calls))
              case None => r == Err(Io) && outbox == old(outbox)
              case Some(n) => r == Ok(Min(n, |b|)) && outbox == old(outbox) + Cells(b[..Min(n, |b|)], fds)
    {
      calls := calls + 1;
      if moves(calls - 1).None? {
        return Err(Io);
      }
      var n := Min(moves(calls - 1).value, |b|);
      outbox := outbox + Cells(b[..n], fds);
      r := Ok(n);
    }

    /** At most `max` bytes, at least one unless the stream has ended, and their descriptors. */
    method RecvWithFd(max: nat) returns (r: Result<(seq<byte>, seq<Fd>), ProtoError>)
      requires max > 0
      modifies this
      ensures calls == old(calls) + 1 && outbox == old(outbox)
      ensures r.Err? ==> r == Err(Io) && JustFailed() && inbox == old(inbox)
      ensures r.Ok? ==> var (b, fds) := r.value;
                        && |b| <= max && |b| <= |old(inbox)| && (b == [] <==> old(inbox) == [])
                        && b == BytesOf(old(inbox)[..|b|]) && fds == FdsOf(old(inbox)[..|b|])
                           && |fds| <= MAX_FDS_PER_RECV
                        && inbox == old(inbox)[|b|..]
    {
      calls := calls + 1;
      if moves(calls - 1).None? {
        return Err(Io);
      }
      var n := Min(Min(max, Max(1, moves(calls - 1).value)), Run(inbox));
      var b, fds := BytesOf(inbox[..n]), if n == 0 then [] else Delivered(inbox[0]);
      if n > 0 {
        RunFds(inbox, n);
      }
      inbox := inbox[n..];
      r := Ok((b, fds));
    }

    /**
     Header and payload, however many calls that takes; descriptors go with the first. A call that
     fails or finds the peer gone leaves a proper prefix behind.
     */
    method Send(m: Message) returns (r: Result<(), ProtoError>)
      modifies this
      ensures inbox == old(inbox)
      ensures r.Ok? ==> outbox == old(outbox) + Frame(m)
      ensures r.Err? ==> old(outbox) <= outbox && outbox < old(outbox) + Frame(m) && calls > 0
      ensures r.Err? ==> (r.error == Io && JustFailed()) || (r.error == Disconnected && moves(calls - 1) == Some(0))
    {
      var buf := EncodeHeader(m.header) + m.payload;
      var sent := 0;
      ghost var before := outbox;
      assert Cells(buf, m.fds)[..0] == [];
      while sent < |buf|
        invariant 0 <= sent <= |buf| && inbox == old(inbox)
        invariant outbox == before + Cells(buf, m.fds)[..sent]
      {
        var moved := SendWithFd(buf[sent..], if sent == 0 then m.fds else []);
        SendStops(before, outbox, buf, m.fds, sent);
        if moved.Err? {
          return Err(moved.error);
        }
        SendAdvance(buf, m.fds, sent, moved.value);
        if moved.value == 0 {
          return Err(Disconnected);
        }
        sent := sent + moved.value;
      }
      assert Cells(buf, m.fds)[..sent] == Cells(buf, m.fds);
      r := Ok(());
    }

    /** Exactly `n` bytes and the descriptors that come with them, the end of the stream, or a failed call. */
    method RecvExact(n: nat) returns (r: Result<(seq<byte>, seq<Fd>), ProtoError>)
      modifies this
      ensures outbox == old(outbox)
      ensures r == Err(Io) ==> JustFailed() && Suffix(inbox, old(inbox))
      ensures r != Err(Io) ==>
                if |old(inbox)| < n then r == Err(Disconnected) && inbox == []
                else r == Ok((BytesOf(old(inbox)[..n]), FdsOf(old(inbox)[..n]))) && inbox == old(inbox)[n..]
    {
      var buf: seq<byte>, fds: seq<Fd> := [], [];
      ghost var all := inbox;
      while |buf| < n
        invariant |buf| <= n && |buf| <= |all| && inbox == all[|buf|..] && outbox == old(outbox)
        invariant buf == BytesOf(all[..|buf|]) && fds == FdsOf(all[..|buf|])
        decreases n - |buf|
      {
        var got := RecvWithFd(n - |buf|);
        if got.Err? {
          return Err(got.error);
        }
        var (b, f) := got.value;
        if b == [] {
          return Err(Disconnected);
        }
        RecvAdvance(all, |buf|, |b|);
        buf := buf + b;
        fds := fds + f;
      }
      r := Ok((buf, fds));
    }

    method Recv() returns (r: Result<Message, ProtoError>)
      modifies this
      ensures outbox == old(outbox)
      ensures r == Err(Io) ==> JustFailed() && Suffix(inbox, old(inbox))
      ensures r != Err(Io) ==> (r, inbox) == TakeMessage(old(inbox))
    {
      ghost var all := inbox;
      var head := RecvExact(HEADER_LEN);
      if head.Err? {
        return Err(head.error);
      }
      var header := DecodeHeader(head.value.0);
      if header.size > MAX_PAYLOAD {
        return Err(PayloadTooLarge(header.size));
      }
      var body := RecvExact(header.size);
      if body.Err? {
        return Err(body.error);
      }
      ghost var n := HEADER_LEN + header.size;
      assert all[HEADER_LEN..][..header.size] == all[HEADER_LEN..n];
      assert all[..n] == all[..HEADER_LEN] + all[HEADER_LEN..n];
      FdsOfConcat(all[..HEADER_LEN], all[HEADER_LEN..n]);
      r := Ok(Message(header, body.value.0, head.value.1 + body.value.1));
    }
  }

  lemma {:induction false} RecvAdvance(all: seq<Cell>, k: nat, n: nat)
    requires k + n <= |all|
    ensures BytesOf(all[..k]) + BytesOf(all[k..][..n]) == BytesOf(all[..k + n])
    ensures FdsOf(all[..k]) + FdsOf(all[k..][..n]) == FdsOf(all[..k + n])
    ensures all[k..][n..] == all[k + n..]
  {
    assert all[..k + n] == all[..k] + all[k..][..n];
    FdsOfConcat(all[..k], all[k..][..n]);
  }

  lemma {:induction false} SendStops(before: seq<Cell>, now: seq<Cell>, buf: seq<byte>, fds: seq<Fd>, sent: nat)
    requires sent < |buf|
    ensures now == before + Cells(buf, fds)[..sent] ==> before <= now && now < before + Cells(buf, fds)
  {
    if now == before + Cells(buf, fds)[..sent] {
      assert before + Cells(buf, fds) == now + Cells(buf, fds)[sent..];
    }
  }

  lemma {:induction false} SendAdvance(buf: seq<byte>, fds: seq<Fd>, sent: nat, n: nat)
    requires sent + n <= |buf|
    ensures Cells(buf, fds)[..sent] + Cells(buf[sent..][..n], if sent == 0 then fds else [])
            == Cells(buf, fds)[..sent + n]
  {
  }

  // ---- What is sent is what is received ----

  /** The size field tells the payload's length, and the receiver accepts it. */
  predicate Sendable(m: Message) {
    m.header.size == |m.payload| <= 0x10_0000
  }

  lemma {:induction false} FrameFds(b: seq<byte>, fds: seq<Fd>)
    requires b != []
    ensures FdsOf(Cells(b, fds)) == fds[..Min(MAX_FDS_PER_RECV, |fds|)]
  {
    RunFds(Cells(b, fds), |b|);
    assert Cells(b, fds)[..|b|] == Cells(b, fds);
  }

  /**
   One message off the front of the stream: the header and payload that were sent, not a byte of what
   follows, and the descriptors attached to the first byte, up to 32 of them.
   */
  lemma {:induction false} FrameTaken(m: Message, rest: seq<Cell>)
    requires Sendable(m)
    ensures TakeMessage(Frame(m) + rest) == (Ok(m.(fds := m.fds[..Min(MAX_FDS_PER_RECV, |m.fds|)])), rest)
  {
    var head := EncodeHeader(m.header);
    var buf := head + m.payload;
    var c := Frame(m) + rest;
    assert BytesOf(c[..HEADER_LEN]) == head;
    HeaderRoundTrip(m.header);
    assert c[..|buf|] == Frame(m) && c[|buf|..] == rest;
    assert BytesOf(c[HEADER_LEN..|buf|]) == m.payload;
    FrameFds(buf, m.fds);
  }

  function Frames(ms: seq<Message>): (c: seq<Cell>) {
    if ms == [] then [] else Frame(ms[0]) + Frames(ms[1..])
  }

  /** `k` calls of `recv`. */
  function TakeMessages(c: seq<Cell>, k: nat): (r: (seq<Result<Message, ProtoError>>, seq<Cell>))
    decreases k
  {
    if k == 0 then ([], c)
    else
      var (m, rest) := TakeMessage(c);
      var (ms, left) := TakeMessages(rest, k - 1);
      ([m] + ms, left)
  }

  function Oks(ms: seq<Message>): (r: seq<Result<Message, ProtoError>>) {
    if ms == [] then [] else [Ok(ms[0])] + Oks(ms[1..])
  }

  /**
   Whatever the splits on either side, as many receives as there were sends give the messages back in
   order and leave what follows untouched.
   */
  lemma {:induction false} FramingLossless(ms: seq<Message>, rest: seq<Cell>)
    requires forall i :: 0 <= i < |ms| ==> Sendable(ms[i]) && |ms[i].fds| <= 32
    ensures TakeMessages(Frames(ms) + rest, |ms|) == (Oks(ms), rest)
    decreases ms
  {
    if ms == [] {
      assert Frames(ms) + rest == rest;
    } else {
      assert Frames(ms) + rest == Frame(ms[0]) + (Frames(ms[1..]) + rest);
      FrameTaken(ms[0], Frames(ms[1..]) + rest);
      assert ms[0].(fds := ms[0].fds[..Min(MAX_FDS_PER_RECV, |ms[0].fds|)]) == ms[0];
      FramingLossless(ms[1..], rest);
    }
  }

  lemma {:induction false} FramesJoin(ms: seq<Message>, m: Message)
    ensures Frames(ms + [m]) == Frames(ms) + Frame(m)
    decreases ms
  {
    if ms == [] {
      assert ms + [m] == [m] && [m][1..] == [];
      assert Frame(m) + [] == Frame(m) && [] + Frame(m) == Frame(m);
    } else {
      assert (ms + [m])[1..] == ms[1..] + [m];
      FramesJoin(ms[1..], m);
    }
  }

  lemma {:induction false} OksJoin(ms: seq<Message>, m: Message)
    ensures Oks(ms + [m]) == Oks(ms) + [Ok(m)]
    decreases ms
  {
    if ms == [] {
      assert ms + [m] == [m] && [m][1..] == [];
    } else {
      assert (ms + [m])[1..] == ms[1..] + [m];
      OksJoin(ms[1..], m);
    }
  }

  lemma {:induction false} SentOne(ms: seq<Message>, k: nat, sent: nat)
    requires k <= sent < |ms|
    ensures Frames(ms[k..sent + 1]) == Frames(ms[k..sent]) + Frame(ms[sent])
  {
    assert ms[k..sent + 1] == ms[k..sent] + [ms[sent]];
    FramesJoin(ms[k..sent], ms[sent]);
  }

  lemma {:induction false} TakenOne(ms: seq<Message>, k: nat, sent: nat)
    requires k < sent <= |ms|
    ensures Frames(ms[k..sent]) == Frame(ms[k]) + Frames(ms[k + 1..sent])
    ensures Oks(ms[..k + 1]) == Oks(ms[..k]) + [Ok(ms[k])]
  {
    assert ms[k..sent][1..] == ms[k + 1..sent];
    assert ms[..k + 1] == ms[..k] + [ms[k]];
    OksJoin(ms[..k], ms[k]);
  }

  /** Sends a message from `a`, and the socket carries it to `b`. */
  method Pass(a: Connection, b: Connection, m: Message) returns (failed: Option<ProtoError>)
    requires a != b
    modifies a, b
    ensures failed.None? ==> b.inbox == old(b.inbox) + Frame(m)
    ensures failed.Some? ==> a.JustFailed() || (a.calls > 0 && a.moves(a.calls - 1) == Some(0))
  {
    var before := a.outbox;
    var r := a.Send(m);
    if r.Err? {
      return Some(r.error);
    }
    b.inbox := b.inbox + a.outbox[|before|..];
    failed := None;
  }

  /**
   Two ends of a socket, each with its own splits, taking turns as `turns` says: `true` sends the next
   message, `false` receives one if there is one on the way. At any point, what has been received is the
   messages in order and whole, as many as there were successful receives, and what is on the way is
   the rest of what was sent.
   */
  method Relay(a: Connection, b: Connection, ms: seq<Message>, turns: seq<bool>)
    returns (sent: nat, rs: seq<Result<Message, ProtoError>>, failed: Option<ProtoError>)
    requires a != b && a.outbox == [] && b.inbox == []
    requires forall i :: 0 <= i < |ms| ==> Sendable(ms[i]) && |ms[i].fds| <= 32
    modifies a, b
    ensures |rs| <= sent <= |ms| && rs == Oks(ms[..|rs|])
    ensures failed.None? ==> b.inbox == Frames(ms[|rs|..sent])
    ensures failed.Some? ==> a.JustFailed() || b.JustFailed() || (a.calls > 0 && a.moves(a.calls - 1) == Some(0))
    ensures failed.None? ==> sent == Min(|ms|, Sends(turns))
  {
    sent, rs, failed := 0, [], None;
    var got := 0;
    for t := 0 to |turns|
      invariant got == |rs| && got <= sent <= |ms| && rs == Oks(ms[..got]) && b.inbox == Frames(ms[got..sent])
      invariant failed.None? && sent == Min(|ms|, Sends(turns[..t]))
    {
      SendsJoin(turns[..t], turns[t]);
      assert turns[..t + 1] == turns[..t] + [turns[t]];
      if turns[t] && sent < |ms| {
        SentOne(ms, got, sent);
        failed := Pass(a, b, ms[sent]);
        if failed.Some? {
          return;
        }
        sent := sent + 1;
      } else if !turns[t] && got < sent {
        TakenOne(ms, got, sent);
        FrameExact(ms[got], Frames(ms[got + 1..sent]));
        var m := b.Recv();
        if m == Err(Io) {
          failed := Some(Io);
          return;
        }
        rs := rs + [m];
        got := got + 1;
      }
    }
    assert turns[..|turns|] == turns;
  }

  /** How many turns are sends. */
  function Sends(turns: seq<bool>): (n: nat) {
    if turns == [] then 0 else (if turns[0] then 1 else 0) + Sends(turns[1..])
  }

  lemma {:induction false} SendsJoin(turns: seq<bool>, t: bool)
    ensures Sends(turns + [t]) == Sends(turns) + (if t then 1 else 0)
    decreases turns
  {
    if turns == [] {
      assert turns + [t] == [t] && [t][1..] == [];
    } else {
      assert (turns + [t])[1..] == turns[1..] + [t];
      SendsJoin(turns[1..], t);
    }
  }

  /** A message comes back whole exactly when it carries at most 32 descriptors. */
  lemma {:induction false} FrameExact(m: Message, rest: seq<Cell>)
    requires Sendable(m)
    ensures TakeMessage(Frame(m) + rest) == (Ok(m), rest) <==> |m.fds| <= 32
  {
    FrameTaken(m, rest);
    var cut := m.fds[..Min(MAX_FDS_PER_RECV, |m.fds|)];
    if |m.fds| <= MAX_FDS_PER_RECV {
      assert cut == m.fds;
    } else {
      assert |cut| != |m.fds|;
    }
  }

  /** A header that announces more than 1 MiB is refused, and only the header has been taken. */
  lemma {:induction false} OversizedRefused(c: seq<Cell>)
    requires |c| >= 12
    ensures var size := Num(BytesOf(c[..12]), 8, 4);
            TakeMessage(c).0 == Err(PayloadTooLarge(size)) <==> size > 0x10_0000
    ensures Num(BytesOf(c[..12]), 8, 4) > 0x10_0000 ==> TakeMessage(c).1 == c[12..]
  {
  }
}
