/**
 vhost-user message headers and payloads (vhost_user/header.rs, vhost_user/payload.rs): fixed
 little-endian layouts, and the one variable-length payload, the memory table.
 */
module Payload {
  import opened Basics
  import opened Bytes

  const HEADER_LEN := 12

  datatype MsgHeader = MsgHeader(request: u32, flags: u32, size: u32)

  function EncodeHeader(h: MsgHeader): (b: seq<byte>)
    ensures |b| == HEADER_LEN
  {
    Le(h.request, 4) + Le(h.flags, 4) + Le(h.size, 4)
  }

  function DecodeHeader(b: seq<byte>): (h: MsgHeader)
    requires |b| == HEADER_LEN
  {
    PowFacts();
    MsgHeader(Num(b, 0, 4), Num(b, 4, 4), Num(b, 8, 4))
  }

  lemma {:induction false} HeaderRoundTrip(h: MsgHeader)
    ensures DecodeHeader(EncodeHeader(h)) == h
    ensures var b := EncodeHeader(h); Num(b, 0, 4) == h.request && Num(b, 4, 4) == h.flags && Num(b, 8, 4) == h.size
  {
    PowFacts();
    Fields(Le(h.request, 4), Le(h.flags, 4), Le(h.size, 4));
    FromLeOfLe(h.request, 4);
    FromLeOfLe(h.flags, 4);
    FromLeOfLe(h.size, 4);
  }

  /** The three fields of a concatenation, by offset. */
  lemma {:induction false} Fields(a: seq<byte>, b: seq<byte>, c: seq<byte>)
    ensures var s := a + b + c;
            s[0..|a|] == a && s[|a|..|a| + |b|] == b && s[|a| + |b|..|a| + |b| + |c|] == c
  {
  }

  lemma {:induction false} HeaderOnto(b: seq<byte>)
    requires |b| == HEADER_LEN
    ensures EncodeHeader(DecodeHeader(b)) == b
  {
    LeOfFromLe(b[0..4]);
    LeOfFromLe(b[4..8]);
    LeOfFromLe(b[8..12]);
    assert b == b[0..4] + b[4..8] + b[8..12];
  }

  // ---- Requests ----

  datatype Request =
    | GetFeatures | SetFeatures | SetOwner | ResetOwner | SetMemTable | SetLogBase | SetLogFd
    | SetVringNum | SetVringAddr | SetVringBase | GetVringBase | SetVringKick | SetVringCall
    | SetVringErr | GetProtocolFeatures | SetProtocolFeatures | GetQueueNum | SetVringEnable

  const REQUESTS: seq<Request> :=
    [GetFeatures, SetFeatures, SetOwner, ResetOwner, SetMemTable, SetLogBase, SetLogFd,
     SetVringNum, SetVringAddr, SetVringBase, GetVringBase, SetVringKick, SetVringCall,
     SetVringErr, GetProtocolFeatures, SetProtocolFeatures, GetQueueNum, SetVringEnable]

  /** Codes start at 1. */
  function RequestFrom(code: u32): (r: Result<Request, ProtoError>)
  {
    if 1 <= code <= |REQUESTS| then Ok(REQUESTS[code - 1]) else Err(UnknownRequest(code))
  }

  // ---- Fixed payloads; trailing bytes are ignored ----

  datatype VringState = VringState(index: u32, num: u32)

  datatype VringAddr = VringAddr(index: u32, flags: u32, descriptor: u64, used: u64, avail: u64, log: u64)

  datatype VringFd = VringFd(index: byte, noFd: bool)

  function DecodeU64(b: seq<byte>): (r: Result<u64, ProtoError>)
    ensures r.Ok? <==> |b| >= 8
  {
    PowFacts();
    if |b| < 8 then Err(Truncated) else Ok(Num(b, 0, 8))
  }

  function DecodeState(b: seq<byte>): (r: Result<VringState, ProtoError>)
    ensures r.Ok? <==> |b| >= 8
  {
    PowFacts();
    if |b| < 8 then Err(Truncated) else Ok(VringState(Num(b, 0, 4), Num(b, 4, 4)))
  }

  function EncodeState(v: VringState): (b: seq<byte>)
    ensures |b| == 8
  {
    Le(v.index, 4) + Le(v.num, 4)
  }

  function DecodeAddr(b: seq<byte>): (r: Result<VringAddr, ProtoError>)
    ensures r.Ok? <==> |b| >= 40
  {
    PowFacts();
    if |b| < 40 then Err(Truncated)
    else Ok(VringAddr(Num(b, 0, 4), Num(b, 4, 4), Num(b, 8, 8), Num(b, 16, 8), Num(b, 24, 8), Num(b, 32, 8)))
  }

  function EncodeAddr(a: VringAddr): (b: seq<byte>)
    ensures |b| == 40
  {
    Le(a.index, 4) + Le(a.flags, 4) + Le(a.descriptor, 8) + Le(a.used, 8) + Le(a.avail, 8) + Le(a.log, 8)
  }

  /** Queue index in the low byte, "no descriptor attached" in bit 8. */
  function DecodeFd(b: seq<byte>): (r: Result<VringFd, ProtoError>)
    ensures r.Ok? <==> |b| >= 8
  {
    var u :- DecodeU64(b);
    Ok(VringFd(u % 256, u / 256 % 2 == 1))
  }

  function EncodeFd(p: VringFd): (b: seq<byte>)
    ensures |b| == 8
  {
    Le(p.index + (if p.noFd then 256 else 0), 8)
  }

  /** A field read from a longer buffer is the field that was put there. */
  lemma {:induction false} FieldAt(b: seq<byte>, off: nat, n: nat, k: nat)
    requires off + k <= |b| && n < Pow256(k) && b[off..off + k] == Le(n, k)
    ensures Num(b, off, k) == n
  {
    FromLeOfLe(n, k);
  }

  lemma {:induction false} StateRoundTrip(v: VringState, rest: seq<byte>)
    ensures DecodeState(EncodeState(v) + rest) == Ok(v)
    ensures var b := EncodeState(v) + rest; Num(b, 0, 4) == v.index && Num(b, 4, 4) == v.num
  {
    PowFacts();
    var b := EncodeState(v) + rest;
    assert b[0..4] == Le(v.index, 4) && b[4..8] == Le(v.num, 4);
    FieldAt(b, 0, v.index, 4);
    FieldAt(b, 4, v.num, 4);
  }

  lemma {:induction false} FdRoundTrip(p: VringFd, rest: seq<byte>)
    ensures DecodeFd(EncodeFd(p) + rest) == Ok(p)
    ensures var b := EncodeFd(p) + rest; b[0] == p.index && b[1] == if p.noFd then 1 else 0
  {
    PowFacts();
    var v := p.index + (if p.noFd then 256 else 0);
    var b := EncodeFd(p) + rest;
    assert b[0..8] == Le(v, 8);
    FieldAt(b, 0, v, 8);
    LeUnroll(v, 8);
    LeUnroll(v / 256, 7);
    assert b[0] == Le(v, 8)[0] && b[1] == Le(v, 8)[1] == Le(v / 256, 7)[0];
  }

  lemma {:induction false} AddrSlices(a: VringAddr, rest: seq<byte>)
    ensures var b := EncodeAddr(a) + rest;
            && b[0..4] == Le(a.index, 4) && b[4..8] == Le(a.flags, 4) && b[8..16] == Le(a.descriptor, 8)
            && b[16..24] == Le(a.used, 8) && b[24..32] == Le(a.avail, 8) && b[32..40] == Le(a.log, 8)
  {
    var l := [Le(a.index, 4), Le(a.flags, 4), Le(a.descriptor, 8), Le(a.used, 8), Le(a.avail, 8), Le(a.log, 8)];
    var b := EncodeAddr(a) + rest;
    assert b[..8] == l[0] + l[1] && b[8..24] == l[2] + l[3] && b[24..40] == l[4] + l[5];
    assert b[0..4] == b[..8][..4] && b[4..8] == b[..8][4..];
    assert b[8..16] == b[8..24][..8] && b[16..24] == b[8..24][8..];
    assert b[24..32] == b[24..40][..8] && b[32..40] == b[24..40][8..];
  }

  lemma {:induction false} AddrRoundTrip(a: VringAddr, rest: seq<byte>)
    ensures DecodeAddr(EncodeAddr(a) + rest) == Ok(a)
    ensures var b := EncodeAddr(a) + rest;
            && Num(b, 0, 4) == a.index && Num(b, 4, 4) == a.flags && Num(b, 8, 8) == a.descriptor
            && Num(b, 16, 8) == a.used && Num(b, 24, 8) == a.avail && Num(b, 32, 8) == a.log
  {
    PowFacts();
    AddrSlices(a, rest);
    var b := EncodeAddr(a) + rest;
    FieldAt(b, 0, a.index, 4);
    FieldAt(b, 4, a.flags, 4);
    FieldAt(b, 8, a.descriptor, 8);
    FieldAt(b, 16, a.used, 8);
    FieldAt(b, 24, a.avail, 8);
    FieldAt(b, 32, a.log, 8);
  }

  // ---- The memory table ----

  datatype MemoryRegion = MemoryRegion(gpa: u64, size: u64, user: u64, mmapOffset: u64)

  const REGION_LEN := 32

  function EncodeRegion(r: MemoryRegion): (b: seq<byte>)
    ensures |b| == REGION_LEN
  {
    Le(r.gpa, 8) + Le(r.size, 8) + Le(r.user, 8) + Le(r.mmapOffset, 8)
  }

  function RegionAt(b: seq<byte>, off: nat): (r: MemoryRegion)
    requires off + REGION_LEN <= |b|
  {
    PowFacts();
    MemoryRegion(Num(b, off, 8), Num(b, off + 8, 8), Num(b, off + 16, 8), Num(b, off + 24, 8))
  }

  /** The `count` regions that start at offset `off`. */
  function RegionsAt(b: seq<byte>, off: nat, count: nat): (rs: seq<MemoryRegion>)
    requires off + REGION_LEN * count <= |b|
    ensures |rs| == count
    decreases count
  {
    if count == 0 then [] else [RegionAt(b, off)] + RegionsAt(b, off + REGION_LEN, count - 1)
  }

  function DecodeRegions(b: seq<byte>): (r: Result<seq<MemoryRegion>, ProtoError>)
    ensures r.Ok? <==> |b| >= 8 && |b| >= 8 + REGION_LEN * Num(b, 0, 4)
  {
    if |b| < 8 || |b| < 8 + REGION_LEN * Num(b, 0, 4) then Err(Truncated)
    else Ok(RegionsAt(b, 8, Num(b, 0, 4)))
  }

  function EncodeEach(rs: seq<MemoryRegion>): (b: seq<byte>)
    ensures |b| == REGION_LEN * |rs|
  {
    if rs == [] then [] else EncodeRegion(rs[0]) + EncodeEach(rs[1..])
  }

  /** The count is a 32-bit field. */
  function EncodeRegions(rs: seq<MemoryRegion>): (b: seq<byte>) {
    Le(|rs| % 0x1_0000_0000, 4) + Le(0, 4) + EncodeEach(rs)
  }

  lemma {:induction false} RegionRoundTrip(pre: seq<byte>, r: MemoryRegion, post: seq<byte>)
    ensures RegionAt(pre + EncodeRegion(r) + post, |pre|) == r
    ensures var b, p := pre + EncodeRegion(r) + post, |pre|;
            && Num(b, p, 8) == r.gpa && Num(b, p + 8, 8) == r.size && Num(b, p + 16, 8) == r.user
            && Num(b, p + 24, 8) == r.mmapOffset
  {
    PowFacts();
    var b, p := pre + EncodeRegion(r) + post, |pre|;
    var e := EncodeRegion(r);
    assert b[p..p + 32] == e;
    assert e[0..8] == Le(r.gpa, 8) && e[8..16] == Le(r.size, 8) && e[16..24] == Le(r.user, 8)
           && e[24..32] == Le(r.mmapOffset, 8);
    assert b[p..p + 8] == e[0..8] && b[p + 8..p + 16] == e[8..16] && b[p + 16..p + 24] == e[16..24]
           && b[p + 24..p + 32] == e[24..32];
    FieldAt(b, p, r.gpa, 8);
    FieldAt(b, p + 8, r.size, 8);
    FieldAt(b, p + 16, r.user, 8);
    FieldAt(b, p + 24, r.mmapOffset, 8);
  }

  lemma {:induction false} EachRoundTrip(pre: seq<byte>, rs: seq<MemoryRegion>, post: seq<byte>)
    ensures RegionsAt(pre + EncodeEach(rs) + post, |pre|, |rs|) == rs
    decreases rs
  {
    if rs != [] {
      var tail := EncodeEach(rs[1..]);
      assert pre + EncodeEach(rs) + post == pre + EncodeRegion(rs[0]) + (tail + post);
      RegionRoundTrip(pre, rs[0], tail + post);
      EachRoundTrip(pre + EncodeRegion(rs[0]), rs[1..], post);
      assert pre + EncodeEach(rs) + post == (pre + EncodeRegion(rs[0])) + tail + post;
    }
  }

  /** Every memory table with a 32-bit count is decoded to what was encoded. */
  lemma {:induction false} RegionsRoundTrip(rs: seq<MemoryRegion>, rest: seq<byte>)
    requires |rs| < 0x1_0000_0000
    ensures DecodeRegions(EncodeRegions(rs) + rest) == Ok(rs)
  {
    PowFacts();
    assert |rs| % 0x1_0000_0000 == |rs|;
    var pre := Le(|rs|, 4) + Le(0, 4);
    var b := pre + EncodeEach(rs) + rest;
    assert b == EncodeRegions(rs) + rest;
    assert b[0..4] == Le(|rs|, 4);
    FieldAt(b, 0, |rs|, 4);
    EachRoundTrip(pre, rs, rest);
  }

  ghost predicate RegionsFrom(b: seq<byte>, count: nat, out: seq<MemoryRegion>, i: nat)
    requires i <= count && 8 + REGION_LEN * count <= |b|
  {
    RegionsAt(b, 8, count) == out + RegionsAt(b, 8 + REGION_LEN * i, count - i)
  }

  lemma {:induction false} RegionsAdvance(b: seq<byte>, count: nat, out: seq<MemoryRegion>, i: nat)
    requires i < count && 8 + REGION_LEN * count <= |b| && RegionsFrom(b, count, out, i)
    ensures RegionsFrom(b, count, out + [RegionAt(b, 8 + REGION_LEN * i)], i + 1)
  {
    var r, rest := RegionAt(b, 8 + REGION_LEN * i), RegionsAt(b, 8 + REGION_LEN * (i + 1), count - i - 1);
    assert out + ([r] + rest) == (out + [r]) + rest;
  }

  method RegionsFromBytes(b: seq<byte>) returns (r: Result<seq<MemoryRegion>, ProtoError>)
    ensures r == DecodeRegions(b)
  {
    if |b| < 8 {
      return Err(Truncated);
    }
    var count := Num(b, 0, 4);
    var regions: seq<MemoryRegion> := [];
    var offset := 8;
    for i := 0 to count
      invariant offset == 8 + REGION_LEN * i <= |b|
      invariant 8 + REGION_LEN * count <= |b| ==> RegionsFrom(b, count, regions, i)
    {
      var end := offset + REGION_LEN;
      if end > |b| {
        return Err(Truncated);
      }
      if 8 + REGION_LEN * count <= |b| {
        RegionsAdvance(b, count, regions, i);
      }
      regions := regions + [RegionAt(b, offset)];
      offset := end;
    }
    assert regions + RegionsAt(b, 8 + REGION_LEN * count, 0) == regions;
    r := Ok(regions);
  }

  method RegionsToBytes(rs: seq<MemoryRegion>) returns (b: seq<byte>)
    ensures b == EncodeRegions(rs)
  {
    var w := new Writer();
    w.U32(|rs| % 0x1_0000_0000);
    w.U32(0);
    ghost var head := w.buf;
    assert rs[0..] == rs;
    for i := 0 to |rs|
      invariant w.buf + EncodeEach(rs[i..]) == head + EncodeEach(rs)
    {
      assert rs[i..][0] == rs[i] && rs[i..][1..] == rs[i + 1..];
      ghost var before := w.buf;
      w.Append(EncodeRegion(rs[i]));
      assert before + (EncodeRegion(rs[i]) + EncodeEach(rs[i + 1..]))
             == (before + EncodeRegion(rs[i])) + EncodeEach(rs[i + 1..]);
    }
    assert w.buf + [] == w.buf;
    b := w.buf;
  }
}
