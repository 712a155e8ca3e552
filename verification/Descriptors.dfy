/**
 Descriptors as bytes (section 2.7.5 of VIRTIO 1.2): what the driver puts into its table, where each
 field lies, and which buffers a chain of them stands for. Entries are 16 bytes: address (8), length (4),
 flags (2: another entry follows, 1; for the device to write, 2; a table of its own, 4) and next (2).
 */
module Descriptors {
  import opened Basics
  import opened Bytes
  import opened Memory
  import opened Segments

  /** All four fields of entry `i` are mapped. */
  ghost predicate Readable(x: Xlate, table: nat, i: nat) {
    var at := table + 16 * i;
    x(at, 8).Some? && x(at + 8, 4).Some? && x(at + 12, 2).Some? && x(at + 14, 2).Some?
  }

  ghost function Buffer(x: Xlate, h: seq<byte>, table: nat, i: nat): (s: Segment)
    requires InStore(x, |h|) && Readable(x, table, i)
  {
    PowFacts();
    var at := table + 16 * i;
    Segment(Num(h, x(at, 8).value, 8), Num(h, x(at + 8, 4).value, 4))
  }

  ghost function Flags(x: Xlate, h: seq<byte>, table: nat, i: nat): (f: nat)
    requires InStore(x, |h|) && Readable(x, table, i)
  {
    Num(h, x(table + 16 * i + 12, 2).value, 2)
  }

  ghost function Next(x: Xlate, h: seq<byte>, table: nat, i: nat): (n: nat)
    requires InStore(x, |h|) && Readable(x, table, i)
  {
    Num(h, x(table + 16 * i + 14, 2).value, 2)
  }

  /** An entry mapped in one piece at host index `p`. */
  lemma {:induction false} WholeEntry(x: Xlate, h: seq<byte>, table: nat, i: nat, p: nat)
    requires InStore(x, |h|) && Linear(x) && x(table + 16 * i, 16) == Some(p)
    ensures p + 16 <= |h| && Readable(x, table, i)
    ensures Buffer(x, h, table, i).addr == Num(h, p, 8) && Buffer(x, h, table, i).len == Num(h, p + 8, 4)
    ensures Flags(x, h, table, i) == Num(h, p + 12, 2) && Next(x, h, table, i) == Num(h, p + 14, 2)
  {
    var at := table + 16 * i;
    assert PartMapped(x, at, 16, at, 8) && PartMapped(x, at, 16, at + 8, 4);
    assert PartMapped(x, at, 16, at + 12, 2) && PartMapped(x, at, 16, at + 14, 2);
  }

  // ---- Chains ----

  /** Entry `i` names entry `j` as the next one. */
  ghost predicate Goes(x: Xlate, h: seq<byte>, table: nat, i: nat, j: nat)
    requires InStore(x, |h|)
  {
    && Readable(x, table, i) && Flags(x, h, table, i) / 4 % 2 == 0
    && Flags(x, h, table, i) % 2 == 1 && Next(x, h, table, i) == j
  }

  /** Nothing follows entry `i`: it is the last one, or one that cannot be used. */
  ghost predicate Stops(x: Xlate, h: seq<byte>, table: nat, i: nat)
    requires InStore(x, |h|)
  {
    Readable(x, table, i) ==> Flags(x, h, table, i) / 4 % 2 == 1 || Flags(x, h, table, i) % 2 == 0
  }

  /** `p` follows the entries from its first, one by one. */
  ghost predicate Trail(x: Xlate, h: seq<byte>, table: nat, p: seq<nat>)
    requires InStore(x, |h|)
  {
    p != [] && (|p| == 1 || (Goes(x, h, table, p[0], p[1]) && Trail(x, h, table, p[1..])))
  }

  /** The buffers along `p` for the device to read (`write` 0) or write (1), in order. */
  ghost function Buffers(x: Xlate, h: seq<byte>, table: nat, p: seq<nat>, write: nat): (segs: seq<Segment>)
    requires InStore(x, |h|)
  {
    if p == [] || !Readable(x, table, p[0]) then []
    else
      Own(x, h, table, p[0], write) + Buffers(x, h, table, p[1..], write)
  }

  /** What reading the chain `p` has to come to, with at most `max` entries allowed. */
  ghost function ChainOf(x: Xlate, h: seq<byte>, table: nat, p: seq<nat>,
                         max: nat): (r: Result<(seq<Segment>, seq<Segment>), VqError>)
    requires InStore(x, |h|) && p != []
  {
    var last := p[|p| - 1];
    if |p| > max then Err(ChainTooLong)
    else if !Readable(x, table, last) then Err(OutOfBounds)
    else if Flags(x, h, table, last) / 4 % 2 == 1 then Err(IndirectUnsupported)
    else Ok((Buffers(x, h, table, p, 0), Buffers(x, h, table, p, 1)))
  }

  /** `p` is the whole chain of `head`: it stops, or is already too long. */
  ghost predicate WholeChain(x: Xlate, h: seq<byte>, table: nat, head: nat, p: seq<nat>, max: nat)
    requires InStore(x, |h|)
  {
    && Trail(x, h, table, p) && p[0] == head
    && (|p| == max + 1 || (|p| <= max && Stops(x, h, table, p[|p| - 1])))
  }

  /** The buffer of entry `i`, if its flag says `write`. */
  ghost function Own(x: Xlate, h: seq<byte>, table: nat, i: nat, write: nat): (segs: seq<Segment>)
    requires InStore(x, |h|) && Readable(x, table, i)
  {
    if Flags(x, h, table, i) / 2 % 2 == write then [Buffer(x, h, table, i)] else []
  }

  lemma {:induction false} ChainTail(x: Xlate, h: seq<byte>, table: nat, p: seq<nat>, max: nat)
    requires InStore(x, |h|) && |p| > 1 && max > 0 && Readable(x, table, p[0])
    ensures ChainOf(x, h, table, p, max) ==
            match ChainOf(x, h, table, p[1..], max - 1)
            case Err(e) => Err(e)
            case Ok(rw) => Ok((Own(x, h, table, p[0], 0) + rw.0, Own(x, h, table, p[0], 1) + rw.1))
  {
    assert p[1..][|p| - 2] == p[|p| - 1];
  }

  /** Every head has a chain, whatever is in memory. */
  lemma {:induction false} HasChain(x: Xlate, h: seq<byte>, table: nat, head: nat, max: nat) returns (p: seq<nat>)
    requires InStore(x, |h|)
    ensures WholeChain(x, h, table, head, p, max)
    decreases max
  {
    if max == 0 || Stops(x, h, table, head) {
      p := [head];
    } else {
      var rest := HasChain(x, h, table, Next(x, h, table, head), max - 1);
      p := [head] + rest;
      assert p[1..] == rest;
    }
  }
}
