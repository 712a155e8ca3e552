/**
 Draining a queue (the loop of `process_vring`, vhost_user/server.rs): turns until nothing is
 pending, that the loop ends, and what every request that was pending has become by then.
 */
module Drain {
  import opened Basics
  import opened Memory
  import opened Segments
  import opened Rings
  import opened Delivery
  import V = Virtqueue
  import F = Fs

  /** The host kernel's answers, request by request. */
  type Answers = nat -> F.Kernel

  /** One turn, as a function of where the device stands. */
  type Loop = Dev -> Turn

  /** Turns over a host store of `n` bytes. */
  function LoopOf(ks: Answers, e: Env, n: nat): (turn: Loop)
    requires InStore(e.gpa, n) && InStore(e.user, n)
  {
    (d: Dev) => if |d.host| == n then TakeTurn(ks(|d.log|), e, d) else Idle
  }

  /** Turns until one finds nothing or fails; `fuel` bounds how many may succeed after the first. */
  function DrainAll(turn: Loop, d: Dev, fuel: nat): (r: (Dev, Result<(), VqError>))
    decreases fuel
  {
    match turn(d)
    case Idle => (d, Ok(()))
    case Failed(d', err) => (d', Err(err))
    case Done(d') => if fuel == 0 then (d', Ok(())) else DrainAll(turn, d', fuel - 1)
  }

  /** The loop stops by itself within `fuel` successful turns. */
  predicate Ends(turn: Loop, d: Dev, fuel: nat)
    decreases fuel
  {
    turn(d).Done? ==> fuel > 0 && Ends(turn, turn(d).dev, fuel - 1)
  }

  // ---- The loop ends ----

  /** The distance from `last` to `idx`, counting on a 16-bit wheel. */
  function Ahead(idx: nat, last: nat): (n: nat)
    requires idx < 0x1_0000 && last < 0x1_0000
  {
    if idx >= last then idx - last else idx + 0x1_0000 - last
  }

  /** How far the available index is ahead of the device. */
  function Pending(e: Env, d: Dev): (n: nat)
    requires e.avail + e.AvailLen() <= |d.host|
  {
    Ahead(AvailIdx(e, d.host), d.last)
  }

  ghost predicate NextOffRings(e: Env, d: Dev)
    requires InStore(e.user, |d.host|)
  {
    var p := V.PopAvail(e.user, d.host, e.q, d.last);
    p.Ok? && p.value.Some? ==> HeadOffRings(e, d, p.value.value)
  }

  /** Every chain the next `fuel` turns come across offers buffers off the rings. */
  ghost predicate Orderly(e: Env, turn: Loop, d: Dev, fuel: nat)
    decreases fuel
  {
    && InStore(e.user, |d.host|) && NextOffRings(e, d)
    && (fuel > 0 && turn(d).Done? ==> Orderly(e, turn, turn(d).dev, fuel - 1))
  }

  /** A turn is idle exactly when the indices meet, and one that succeeds moves only the device's. */
  ghost predicate Moves(e: Env, d: Dev, t: Turn) {
    && e.avail + e.AvailLen() <= |d.host|
    && (t.Idle? <==> AvailIdx(e, d.host) == d.last)
    && (t.Done? ==> |t.dev.host| == |d.host| && AvailIdx(e, t.dev.host) == AvailIdx(e, d.host)
                    && t.dev.last == V.NextIdx(d.last))
  }

  /** The next `fuel` turns all move like that. */
  ghost predicate MovesOn(e: Env, turn: Loop, d: Dev, fuel: nat)
    decreases fuel
  {
    Moves(e, d, turn(d)) && (fuel > 0 && turn(d).Done? ==> MovesOn(e, turn, turn(d).dev, fuel - 1))
  }

  /** A turn that succeeds brings the device one entry closer; none is left exactly when it is idle. */
  lemma {:induction false} MovesCount(e: Env, d: Dev, t: Turn)
    requires Moves(e, d, t)
    ensures t.Idle? <==> Pending(e, d) == 0
    ensures t.Done? ==> Pending(e, t.dev) == Pending(e, d) - 1
  {
  }

  lemma {:induction false} MovesEnd(e: Env, turn: Loop, d: Dev, n: nat)
    requires MovesOn(e, turn, d, n) && n == Pending(e, d)
    ensures Ends(turn, d, n)
    decreases n
  {
    MovesCount(e, d, turn(d));
    if turn(d).Done? {
      MovesEnd(e, turn, turn(d).dev, n - 1);
    }
  }

  /** What a turn found in and did to the rings. */
  ghost predicate TurnOk(e: Env, d: Dev, v: View, t: Turn)
    requires e.avail + e.AvailLen() <= |d.host| && e.used + e.UsedLen() <= |d.host| && e.q.size > 0
    requires |v.avail| == |v.used| == e.q.size && (!t.Idle? ==> |t.dev.host| == |d.host|)
  {
    && (t.Idle? <==> v.availIdx == d.last)
    && (!t.Idle? ==> HeadOk(e, d.(last := V.NextIdx(d.last)), v.avail[d.last % e.q.size], v, t))
  }

  lemma {:induction false} TurnView(k: F.Kernel, e: Env, d: Dev)
    requires Laid(e, |d.host|) && NextOffRings(e, d)
    ensures e.avail + e.AvailLen() <= |d.host| && e.used + e.UsedLen() <= |d.host|
    ensures TurnOk(e, d, ViewOf(e, d.host), TakeTurn(k, e, d))
  {
    PopView(e, d.host, d.last);
    var p := V.PopAvail(e.user, d.host, e.q, d.last);
    if p.value.Some? {
      HeadView(k, e, d.(last := V.NextIdx(d.last)), p.value.value);
    }
  }

  lemma {:induction false} TurnMoves(k: F.Kernel, e: Env, d: Dev)
    requires Laid(e, |d.host|) && NextOffRings(e, d)
    ensures Moves(e, d, TakeTurn(k, e, d))
  {
    TurnView(k, e, d);
    var t := TakeTurn(k, e, d);
    if t.Done? {
      assert ViewOf(e, t.dev.host).availIdx == ViewOf(e, d.host).availIdx;
    }
  }

  lemma {:induction false} OrderlyMoves(ks: Answers, e: Env, d: Dev, n: nat, fuel: nat)
    requires Laid(e, n) && |d.host| == n && Orderly(e, LoopOf(ks, e, n), d, fuel)
    ensures MovesOn(e, LoopOf(ks, e, n), d, fuel)
    decreases fuel
  {
    TurnMoves(ks(|d.log|), e, d);
    var t := LoopOf(ks, e, n)(d);
    if fuel > 0 && t.Done? {
      OrderlyMoves(ks, e, t.dev, n, fuel - 1);
    }
  }

  /**
   With nothing published meanwhile and buffers off the rings the loop ends, after at most as many
   successful turns as the available index is ahead.
   */
  lemma {:induction false} DrainEnds(ks: Answers, e: Env, d: Dev, n: nat)
    requires Laid(e, n) && |d.host| == n && e.avail + e.AvailLen() <= n
    requires Orderly(e, LoopOf(ks, e, n), d, Pending(e, d))
    ensures Ends(LoopOf(ks, e, n), d, Pending(e, d))
  {
    OrderlyMoves(ks, e, d, n, Pending(e, d));
    MovesEnd(e, LoopOf(ks, e, n), d, Pending(e, d));
  }

  // ---- What draining does to the ledger ----

  /** The system with the device in state `d`, between requests or with `inflight` popped. */
  function At(s: Sys, d: Dev, inflight: Option<u16>): (s': Sys) {
    s.(dev := d, inflight := inflight)
  }

  /** How one turn moves the system on: done, idle with all served, or stuck on the head it popped. */
  ghost predicate Advances(e: Env, s: Sys, t: Turn) {
    match t
    case Idle => |s.dev.log| == |s.published|
    case Done(d) => SysInv(e, At(s, d, None)) && |d.log| == |s.dev.log| + 1
    case Failed(d, _) => d.log == s.dev.log && exists head :: SysInv(e, At(s, d, Some(head)))
  }

  lemma {:induction false} TurnAdvances(k: F.Kernel, e: Env, s: Sys)
    requires SysInv(e, s) && s.inflight.None? && 0x1_0000 % e.q.size == 0 && NextOffRings(e, s.dev)
    ensures Advances(e, s, TakeTurn(k, e, s.dev))
  {
    PopStep(e, s);
    var s1 := PoppedOne(e, s);
    if s1.inflight.Some? {
      HeadAdvances(k, e, s1);
    }
  }

  lemma {:induction false} HeadAdvances(k: F.Kernel, e: Env, s: Sys)
    requires SysInv(e, s) && s.inflight.Some? && 0x1_0000 % e.q.size == 0 && HeadOffRings(e, s.dev, s.inflight.value)
    ensures var t := ServeHead(k, e, s.dev, s.inflight.value);
            && (t.Done? ==> SysInv(e, At(s, t.dev, None)) && |t.dev.log| == |s.dev.log| + 1)
            && (t.Failed? ==> SysInv(e, At(s, t.dev, s.inflight)) && t.dev.log == s.dev.log)
  {
    var t := ServeHead(k, e, s.dev, s.inflight.value);
    HeadView(k, e, s.dev, s.inflight.value);
    if t.Done? {
      ServeStep(e, s, k);
    }
  }

  /** Every turn of a drain advances the system. */
  ghost predicate AdvancesOn(e: Env, s: Sys, turn: Loop, fuel: nat)
    decreases fuel
  {
    Advances(e, s, turn(s.dev)) && (fuel > 0 && turn(s.dev).Done?
        ==> AdvancesOn(e, At(s, turn(s.dev).dev, None), turn, fuel - 1))
  }

  lemma {:induction false} OrderlyAdvances(ks: Answers, e: Env, s: Sys, n: nat, fuel: nat)
    requires SysInv(e, s) && |s.dev.host| == n && s.inflight.None? && 0x1_0000 % e.q.size == 0
    requires Orderly(e, LoopOf(ks, e, n), s.dev, fuel)
    ensures AdvancesOn(e, s, LoopOf(ks, e, n), fuel)
    decreases fuel
  {
    TurnAdvances(ks(|s.dev.log|), e, s);
    var t := LoopOf(ks, e, n)(s.dev);
    if fuel > 0 && t.Done? {
      OrderlyAdvances(ks, e, At(s, t.dev, None), n, fuel - 1);
    }
  }

  /** Where a drain that ends leaves the system. */
  ghost predicate Drained(e: Env, s: Sys, r: (Dev, Result<(), VqError>)) {
    match r.1
    case Ok(_) => SysInv(e, At(s, r.0, None)) && |r.0.log| == |s.published|
    case Err(_) => exists head :: SysInv(e, At(s, r.0, Some(head)))
  }

  lemma {:induction false} AdvancesDrain(e: Env, s: Sys, turn: Loop, fuel: nat)
    requires SysInv(e, s) && s.inflight.None? && AdvancesOn(e, s, turn, fuel) && Ends(turn, s.dev, fuel)
    ensures Drained(e, s, DrainAll(turn, s.dev, fuel))
    decreases fuel
  {
    var t := turn(s.dev);
    if t.Idle? {
      assert At(s, s.dev, None) == s;
    } else if t.Done? {
      AdvancesDrain(e, At(s, t.dev, None), turn, fuel - 1);
      assert forall d, i :: At(At(s, t.dev, None), d, i) == At(s, d, i);
    }
  }

  /** With the ledger in order, the wheel distance is the number of heads still to serve. */
  lemma {:induction false} PendingIs(e: Env, s: Sys)
    requires SysInv(e, s) && s.inflight.None?
    ensures Pending(e, s.dev) == |s.published| - |s.dev.log|
  {
    WheelDistance(|s.dev.log|, |s.published|);
  }

  lemma {:induction false} WheelDistance(a: nat, b: nat)
    requires a <= b < a + 0x1_0000
    ensures Ahead(b % 0x1_0000, a % 0x1_0000) == b - a
  {
  }

  /**
   Draining with buffers off the rings stops by itself. If it stops without an error, every published
   head has been pushed exactly once and in order, the used index counts them all, and every element
   the driver has not taken back yet is still in its slot; if it stops with one, all that is missing
   is the one head it had popped.
   */
  lemma {:induction false} DrainConserves(ks: Answers, e: Env, s: Sys, n: nat)
    requires SysInv(e, s) && |s.dev.host| == n && s.inflight.None? && 0x1_0000 % e.q.size == 0
    requires Orderly(e, LoopOf(ks, e, n), s.dev, Pending(e, s.dev))
    ensures var fuel := Pending(e, s.dev);
            var r := DrainAll(LoopOf(ks, e, n), s.dev, fuel);
            && Ends(LoopOf(ks, e, n), s.dev, fuel)
            && Drained(e, s, r)
            && (r.1.Ok? ==> Heads(r.0.log) == s.published && |r.0.log| - |s.dev.log| == fuel)
  {
    var fuel := Pending(e, s.dev);
    PendingIs(e, s);
    DrainEnds(ks, e, s.dev, n);
    OrderlyAdvances(ks, e, s, n, fuel);
    AdvancesDrain(e, s, LoopOf(ks, e, n), fuel);
    AllServed(e, s, DrainAll(LoopOf(ks, e, n), s.dev, fuel));
  }

  lemma {:induction false} AllServed(e: Env, s: Sys, r: (Dev, Result<(), VqError>))
    requires Drained(e, s, r)
    ensures r.1.Ok? ==> Heads(r.0.log) == s.published
  {
    if r.1.Ok? {
      assert LedgerOf(At(s, r.0, None)).Popped() == Heads(r.0.log);
    }
  }
}
