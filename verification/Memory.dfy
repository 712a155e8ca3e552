/**
 Guest memory (vhost_user/memory.rs): the regions of a SET_MEM_TABLE request, each visible at a
 guest-physical address and at a "user" address, both denoting the same bytes of one host store.
 A region's `ptr` is the index in that store where its mapping starts.
 */
module Memory {
  import opened Basics
  import opened Bytes

  datatype AddrSpace = Gpa | User

  datatype Region = Region(gpa: u64, userAddr: u64, len: u64, ptr: nat) {
    function BaseFor(space: AddrSpace): u64 {
      match space
      case Gpa => gpa
      case User => userAddr
    }

    /** The overflow-free containment test of `find`. */
    predicate Accepts(space: AddrSpace, addr: nat, n: nat) {
      addr >= BaseFor(space) && n <= len && addr - BaseFor(space) <= len - n
    }
  }

  /** The first region that accepts the range. */
  function Find(rs: seq<Region>, space: AddrSpace, addr: nat, n: nat): (r: Option<Region>)
    ensures r.Some? ==> r.value.Accepts(space, addr, n)
  {
    if rs == [] then None
    else if rs[0].Accepts(space, addr, n) then Some(rs[0])
    else Find(rs[1..], space, addr, n)
  }

  lemma {:induction false} FindIsFirst(rs: seq<Region>, space: AddrSpace, addr: nat, n: nat)
    ensures match Find(rs, space, addr, n)
            case Some(r) => r in rs && r.Accepts(space, addr, n)
            case None => forall r :: r in rs ==> !r.Accepts(space, addr, n)
  {
    if rs != [] {
      FindIsFirst(rs[1..], space, addr, n);
      assert forall r :: r in rs ==> r == rs[0] || r in rs[1..];
    }
  }

  /** `find` answers exactly for the ranges that lie inside one region. */
  lemma {:induction false} FindExact(rs: seq<Region>, space: AddrSpace, addr: nat, n: nat)
    ensures Find(rs, space, addr, n).Some? <==>
            exists r :: r in rs && r.BaseFor(space) <= addr && addr + n <= r.BaseFor(space) + r.len
  {
    FindIsFirst(rs, space, addr, n);
    if r :| r in rs && r.BaseFor(space) <= addr && addr + n <= r.BaseFor(space) + r.len {
      assert r.Accepts(space, addr, n);
    }
  }

  /** Host index of the first byte of a mapped range. */
  function Resolve(rs: seq<Region>, space: AddrSpace, addr: nat, n: nat): (p: Option<nat>)
  {
    match Find(rs, space, addr, n)
    case None => None
    case Some(r) => Some(r.ptr + (addr - r.BaseFor(space)))
  }

  ghost predicate Fits(rs: seq<Region>, hostLen: nat) {
    forall r :: r in rs ==> r.ptr + r.len <= hostLen
  }

  /** No address belongs to two regions of `rs` in the given space, and none is past 2^64. */
  ghost predicate Apart(rs: seq<Region>, space: AddrSpace) {
    && (forall r :: r in rs ==> r.BaseFor(space) + r.len <= 0x1_0000_0000_0000_0000)
    && (forall r, s :: r in rs && s in rs && r != s ==>
          r.BaseFor(space) + r.len <= s.BaseFor(space) || s.BaseFor(space) + s.len <= r.BaseFor(space))
  }

  // ---- One address space as a translation to host indices ----

  /** Where a range of `n` bytes at an address lives in the host store, if it is mapped. */
  type Xlate = (nat, nat) -> Option<nat>

  function Translate(rs: seq<Region>, space: AddrSpace): (x: Xlate) {
    (addr: nat, n: nat) => Resolve(rs, space, addr, n)
  }

  ghost predicate InStore(x: Xlate, hostLen: nat) {
    forall a: nat, n: nat :: x(a, n).Some? ==> x(a, n).value + n <= hostLen
  }

  /** If a range is mapped, so is the given part of it, and if not empty, to the matching host bytes. */
  ghost predicate PartMapped(x: Xlate, a: nat, n: nat, b: nat, m: nat) {
    x(a, n).Some? && a <= b && b + m <= a + n ==>
      x(b, m).Some? && (m > 0 ==> x(b, m).value == x(a, n).value + (b - a))
  }

  ghost predicate Linear(x: Xlate) {
    forall a: nat, n: nat, b: nat, m: nat :: PartMapped(x, a, n, b, m)
  }

  lemma {:induction false} TranslateInStore(rs: seq<Region>, space: AddrSpace, hostLen: nat)
    requires Fits(rs, hostLen)
    ensures InStore(Translate(rs, space), hostLen)
  {
    var x := Translate(rs, space);
    forall a: nat, n: nat | x(a, n).Some?
      ensures x(a, n).value + n <= hostLen
    {
      FindIsFirst(rs, space, a, n);
    }
  }

  /** With regions apart, a sub-range never resolves differently from the range it is part of. */
  lemma {:induction false} TranslateLinear(rs: seq<Region>, space: AddrSpace)
    requires Apart(rs, space)
    ensures Linear(Translate(rs, space))
  {
    var x := Translate(rs, space);
    forall a: nat, n: nat, b: nat, m: nat
      ensures PartMapped(x, a, n, b, m)
    {
      if x(a, n).Some? && a <= b && b + m <= a + n {
        SubRange(rs, space, a, n, b - a, m);
      }
    }
  }

  lemma {:induction false} SubRange(rs: seq<Region>, space: AddrSpace, addr: nat, n: nat, off: nat, m: nat)
    requires Apart(rs, space)
    requires Resolve(rs, space, addr, n).Some? && off + m <= n
    ensures Resolve(rs, space, addr + off, m).Some?
    ensures m > 0 ==> Resolve(rs, space, addr + off, m).value == Resolve(rs, space, addr, n).value + off
    ensures addr + n <= 0x1_0000_0000_0000_0000
  {
    FindIsFirst(rs, space, addr, n);
    FindIsFirst(rs, space, addr + off, m);
    var r := Find(rs, space, addr, n).value;
    assert r.Accepts(space, addr + off, m);
    if m > 0 {
      assert Find(rs, space, addr + off, m).value == r;
    }
  }

  // ---- Bytes of the host store ----

  /** Overwrite the bytes starting at index `p`. */
  function Put(h: seq<byte>, p: nat, data: seq<byte>): (h': seq<byte>)
    requires p + |data| <= |h|
    ensures |h'| == |h|
    ensures forall i :: 0 <= i < |h| ==> h'[i] == if p <= i < p + |data| then data[i - p] else h[i]
  {
    h[..p] + data + h[p + |data|..]
  }

  function Load(x: Xlate, h: seq<byte>, addr: nat, n: nat): (r: Option<seq<byte>>)
    requires InStore(x, |h|)
    ensures r.Some? <==> x(addr, n).Some?
    ensures r.Some? ==> |r.value| == n
  {
    match x(addr, n)
    case None => None
    case Some(p) => Some(h[p..p + n])
  }

  function Store(x: Xlate, h: seq<byte>, addr: nat, data: seq<byte>): (r: Option<seq<byte>>)
    requires InStore(x, |h|)
    ensures r.Some? <==> x(addr, |data|).Some?
    ensures r.Some? ==> |r.value| == |h|
  {
    match x(addr, |data|)
    case None => None
    case Some(p) => Some(Put(h, p, data))
  }

  function LoadNum(x: Xlate, h: seq<byte>, addr: nat, k: nat): (r: Option<nat>)
    requires InStore(x, |h|)
    ensures r.Some? <==> x(addr, k).Some?
    ensures r.Some? ==> r.value < Pow256(k)
  {
    match Load(x, h, addr, k)
    case None => None
    case Some(b) => Some(FromLe(b))
  }

  /** A stored integer is loaded back, and every byte outside its own range keeps its value. */
  lemma {:induction false} StoreThenLoad(x: Xlate, h: seq<byte>, addr: nat, v: nat, k: nat)
    requires InStore(x, |h|)
    requires v < Pow256(k)
    requires x(addr, k).Some?
    ensures Store(x, h, addr, Le(v, k)).Some?
    ensures LoadNum(x, Store(x, h, addr, Le(v, k)).value, addr, k) == Some(v)
    ensures forall i :: 0 <= i < |h| && !(x(addr, k).value <= i < x(addr, k).value + k) ==>
              Store(x, h, addr, Le(v, k)).value[i] == h[i]
  {
    var h' := Store(x, h, addr, Le(v, k)).value;
    var p := x(addr, k).value;
    assert h'[p..p + k] == Le(v, k);
    FromLeOfLe(v, k);
  }

  /**
   The two address spaces are two names for the same bytes: what is written at a region offset
   through one space is what is read at that offset through the other, and nothing else moves.
   */
  lemma {:induction false} DualSpaces(rs: seq<Region>, h: seq<byte>, r: Region, off: nat, data: seq<byte>,
                                      via: AddrSpace, back: AddrSpace)
    requires Fits(rs, |h|) && Apart(rs, via) && Apart(rs, back)
    requires r in rs && data != [] && off + |data| <= r.len
    ensures InStore(Translate(rs, via), |h|) && InStore(Translate(rs, back), |h|)
    ensures var h' := Store(Translate(rs, via), h, r.BaseFor(via) + off, data);
            && h'.Some?
            && Load(Translate(rs, back), h'.value, r.BaseFor(back) + off, |data|) == Some(data)
            && (forall i :: 0 <= i < |h| && !(r.ptr + off <= i < r.ptr + off + |data|) ==> h'.value[i] == h[i])
  {
    TranslateInStore(rs, via, |h|);
    TranslateInStore(rs, back, |h|);
    RegionResolves(rs, r, via, off, |data|);
    RegionResolves(rs, r, back, off, |data|);
    SameBytes(Translate(rs, via), Translate(rs, back), h, r.BaseFor(via) + off, r.BaseFor(back) + off,
              r.ptr + off, data);
  }

  lemma {:induction false} SameBytes(x: Xlate, y: Xlate, h: seq<byte>, a: nat, b: nat, p: nat, data: seq<byte>)
    requires InStore(x, |h|) && InStore(y, |h|) && x(a, |data|) == Some(p) && y(b, |data|) == Some(p)
    ensures var h' := Store(x, h, a, data);
            && h'.Some?
            && Load(y, h'.value, b, |data|) == Some(data)
            && (forall i :: 0 <= i < |h| && !(p <= i < p + |data|) ==> h'.value[i] == h[i])
  {
    assert Put(h, p, data)[p..p + |data|] == data;
  }

  lemma {:induction false} RegionResolves(rs: seq<Region>, r: Region, space: AddrSpace, off: nat, n: nat)
    requires Apart(rs, space) && r in rs && 0 < n && off + n <= r.len
    ensures Resolve(rs, space, r.BaseFor(space) + off, n) == Some(r.ptr + off)
  {
    FindIsFirst(rs, space, r.BaseFor(space) + off, n);
    assert r.Accepts(space, r.BaseFor(space) + off, n);
    assert Find(rs, space, r.BaseFor(space) + off, n).value == r;
  }

  /** The mapped regions, shared with the guest: reads and writes go straight to `host`. */
  class GuestMemory {
    const regions: seq<Region>
    const host: array<byte>

    ghost const gpa: Xlate
    ghost const user: Xlate

    /** The translation of each address space. */
    ghost function At(space: AddrSpace): (x: Xlate) {
      match space
      case Gpa => gpa
      case User => user
    }

    ghost predicate Valid() {
      && Fits(regions, host.Length)
      && InStore(gpa, host.Length) && InStore(user, host.Length)
      && (forall sp, a: nat, n: nat {:trigger Resolve(regions, sp, a, n)} :: At(sp)(a, n) == Resolve(regions, sp, a, n))
    }

    constructor (rs: seq<Region>, store: array<byte>)
      requires Fits(rs, store.Length)
      ensures Valid() && regions == rs && host == store
      ensures gpa == Translate(rs, Gpa) && user == Translate(rs, User)
    {
      regions := rs;
      host := store;
      gpa := Translate(rs, Gpa);
      user := Translate(rs, User);
      TranslateInStore(rs, Gpa, store.Length);
      TranslateInStore(rs, User, store.Length);
    }

    method GetSlice(space: AddrSpace, addr: nat, n: nat) returns (r: Option<seq<byte>>)
      requires Valid()
      ensures r == Load(At(space), host[..], addr, n)
    {
      match Resolve(regions, space, addr, n) {
        case None => r := None;
        case Some(p) =>
          r := Some(host[p..p + n]);
          assert host[..][p..p + n] == host[p..p + n];
      }
    }

    /** `get_slice_mut(space, addr, data.len())` followed by copying `data` over it. */
    method CopyIn(space: AddrSpace, addr: nat, data: seq<byte>) returns (ok: bool)
      requires Valid()
      modifies host
      ensures ok <==> Store(At(space), old(host[..]), addr, data).Some?
      ensures ok ==> host[..] == Store(At(space), old(host[..]), addr, data).value
      ensures !ok ==> host[..] == old(host[..])
    {
      match Resolve(regions, space, addr, |data|) {
        case None => ok := false;
        case Some(p) =>
          Overwrite(p, data);
          ok := true;
      }
    }

    method Overwrite(p: nat, data: seq<byte>)
      requires p + |data| <= host.Length
      modifies host
      ensures host[..] == Put(old(host[..]), p, data)
    {
      for i := 0 to |data|
        invariant forall j :: 0 <= j < host.Length ==>
                    host[j] == if p <= j < p + i then data[j - p] else old(host[j])
      {
        host[p + i] := data[i];
      }
    }

    method ReadU16(space: AddrSpace, addr: nat) returns (r: Option<u16>)
      requires Valid()
      ensures r == LoadNum(At(space), host[..], addr, 2)
    {
      PowFacts();
      var s := GetSlice(space, addr, 2);
      r := match s case None => None case Some(b) => Some(FromLe(b));
    }

    method ReadU32(space: AddrSpace, addr: nat) returns (r: Option<u32>)
      requires Valid()
      ensures r == LoadNum(At(space), host[..], addr, 4)
    {
      PowFacts();
      var s := GetSlice(space, addr, 4);
      r := match s case None => None case Some(b) => Some(FromLe(b));
    }

    method ReadU64(space: AddrSpace, addr: nat) returns (r: Option<u64>)
      requires Valid()
      ensures r == LoadNum(At(space), host[..], addr, 8)
    {
      PowFacts();
      var s := GetSlice(space, addr, 8);
      r := match s case None => None case Some(b) => Some(FromLe(b));
    }

    method WriteU16(space: AddrSpace, addr: nat, v: u16) returns (ok: bool)
      requires Valid()
      modifies host
      ensures ok <==> Store(At(space), old(host[..]), addr, Le(v, 2)).Some?
      ensures ok ==> host[..] == Store(At(space), old(host[..]), addr, Le(v, 2)).value
      ensures !ok ==> host[..] == old(host[..])
    {
      ok := CopyIn(space, addr, Le(v, 2));
    }

    method WriteU32(space: AddrSpace, addr: nat, v: u32) returns (ok: bool)
      requires Valid()
      modifies host
      ensures ok <==> Store(At(space), old(host[..]), addr, Le(v, 4)).Some?
      ensures ok ==> host[..] == Store(At(space), old(host[..]), addr, Le(v, 4)).value
      ensures !ok ==> host[..] == old(host[..])
    {
      ok := CopyIn(space, addr, Le(v, 4));
    }
  }
}
