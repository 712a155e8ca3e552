/**
 What a descriptor chain's segment lists mean: gathering a request out of guest memory,
 scattering a reply into it, and the scatter-gather vectors of the zero-copy paths
 (vhost_user/virtqueue.rs). Segment addresses are guest-physical.
 */
module Segments {
  import opened Basics
  import opened Memory

  /** The errors of the source, and its panic on the remainder of a division by a queue size of 0. */
  datatype VqError = OutOfBounds | ChainTooLong | IndirectUnsupported | Panicked

  datatype Segment = Segment(addr: u64, len: u32)

  /** A scatter-gather vector entry: `len` bytes of the host store from index `base`. */
  datatype Iovec = Iovec(base: nat, len: nat)

  // ---- The operations, segment by segment ----

  function Gather(x: Xlate, h: seq<byte>, segs: seq<Segment>): (r: Result<seq<byte>, VqError>)
    requires InStore(x, |h|)
    ensures r.Ok? ==> |r.value| == Capacity(segs)
  {
    if segs == [] then Ok([])
    else
      match Load(x, h, segs[0].addr, segs[0].len)
      case None => Err(OutOfBounds)
      case Some(b) =>
        var rest :- Gather(x, h, segs[1..]);
        Ok(b + rest)
  }

  /** Like `Gather`, but stops after `max` bytes and touches no segment past them. */
  function GatherPrefix(x: Xlate, h: seq<byte>, segs: seq<Segment>, max: nat): (r: Result<seq<byte>, VqError>)
    requires InStore(x, |h|)
  {
    if segs == [] || max == 0 then Ok([])
    else
      var want := Min(max, segs[0].len);
      match Load(x, h, segs[0].addr, want)
      case None => Err(OutOfBounds)
      case Some(b) =>
        var rest :- GatherPrefix(x, h, segs[1..], max - want);
        Ok(b + rest)
  }

  /** The host store after scattering `data`, and how many bytes were written. */
  function Scatter(x: Xlate, h: seq<byte>, segs: seq<Segment>, data: seq<byte>): (r: (seq<byte>, Result<nat, VqError>))
    requires InStore(x, |h|)
    ensures |r.0| == |h|
    ensures r.1.Ok? ==> r.1.value <= |data|
    decreases segs
  {
    if segs == [] || data == [] then (h, Ok(0))
    else
      var n := Min(|data|, segs[0].len);
      match Store(x, h, segs[0].addr, data[..n])
      case None => (h, Err(OutOfBounds))
      case Some(h1) =>
        var (h2, r) := Scatter(x, h1, segs[1..], data[n..]);
        (h2, match r case Ok(m) => Ok(n + m) case Err(e) => Err(e))
  }

  /** The vector for the bytes of `segs` after the first `skip`, at most `max` of them. */
  function Iovecs(x: Xlate, segs: seq<Segment>, skip: nat, max: nat): (r: Result<seq<Iovec>, VqError>)
    decreases segs
  {
    if segs == [] || max == 0 then Ok([])
    else if skip >= segs[0].len then Iovecs(x, segs[1..], skip - segs[0].len, max)
    else
      var n := Min(segs[0].len - skip, max);
      match x(segs[0].addr + skip, n)
      case None => Err(OutOfBounds)
      case Some(p) =>
        var rest :- Iovecs(x, segs[1..], 0, max - n);
        Ok([Iovec(p, n)] + rest)
  }

  /** Total length of a segment list. */
  function Capacity(segs: seq<Segment>): (n: nat) {
    if segs == [] then 0 else segs[0].len + Capacity(segs[1..])
  }

  // ---- The same segments as one flat list of host indices ----

  ghost predicate Mapped(x: Xlate, segs: seq<Segment>) {
    segs == [] || (x(segs[0].addr, segs[0].len).Some? && Mapped(x, segs[1..]))
  }

  ghost predicate Within(addrs: seq<nat>, n: nat) {
    forall i :: 0 <= i < |addrs| ==> addrs[i] < n
  }

  ghost predicate Differ(addrs: seq<nat>, i: nat, j: nat) {
    i < j < |addrs| ==> addrs[i] != addrs[j]
  }

  ghost predicate Distinct(addrs: seq<nat>) {
    forall i: nat, j: nat :: Differ(addrs, i, j)
  }

  function Span(p: nat, n: nat): (s: seq<nat>)
    ensures |s| == n
    ensures forall i :: 0 <= i < n ==> s[i] == p + i
  {
    seq(n, i => p + i)
  }

  ghost function Addrs(x: Xlate, segs: seq<Segment>): (a: seq<nat>)
    requires Mapped(x, segs)
    ensures |a| == Capacity(segs)
  {
    if segs == [] then []
    else Span(x(segs[0].addr, segs[0].len).value, segs[0].len) + Addrs(x, segs[1..])
  }

  ghost function IovAddrs(iov: seq<Iovec>): (a: seq<nat>) {
    if iov == [] then [] else Span(iov[0].base, iov[0].len) + IovAddrs(iov[1..])
  }

  lemma {:induction false} AddrsWithin(x: Xlate, segs: seq<Segment>, n: nat)
    requires InStore(x, n) && Mapped(x, segs)
    ensures Within(Addrs(x, segs), n)
  {
    if segs != [] {
      AddrsWithin(x, segs[1..], n);
    }
  }

  /** The bytes found at a list of host indices. */
  ghost function At(h: seq<byte>, addrs: seq<nat>): (s: seq<byte>)
    requires Within(addrs, |h|)
    ensures |s| == |addrs|
    ensures forall i :: 0 <= i < |s| ==> s[i] == h[addrs[i]]
  {
    seq(|addrs|, i requires 0 <= i < |addrs| => h[addrs[i]])
  }

  /** `h'` is `h` with `data` at the host indices `addrs` and nothing else changed. */
  ghost predicate Wrote(h: seq<byte>, h': seq<byte>, addrs: seq<nat>, data: seq<byte>) {
    && |h'| == |h| && |addrs| == |data|
    && (forall j :: 0 <= j < |addrs| ==> addrs[j] < |h| && h'[addrs[j]] == data[j])
    && (forall i :: 0 <= i < |h| && i !in addrs ==> h'[i] == h[i])
  }

  lemma {:induction false} WroteUnique(h: seq<byte>, x: seq<byte>, y: seq<byte>, addrs: seq<nat>, data: seq<byte>)
    requires Wrote(h, x, addrs, data) && Wrote(h, y, addrs, data)
    ensures x == y
  {
    forall i | 0 <= i < |h|
      ensures x[i] == y[i]
    {
      if i in addrs {
        var j :| 0 <= j < |addrs| && addrs[j] == i;
      }
    }
  }

  /** Two writes to disjoint places are one write to both. */
  lemma {:induction false} WroteThen(h: seq<byte>, h1: seq<byte>, h2: seq<byte>, a: seq<nat>, d: seq<byte>,
                                     b: seq<nat>, e: seq<byte>)
    requires Wrote(h, h1, a, d) && Wrote(h1, h2, b, e) && Distinct(a + b)
    ensures Wrote(h, h2, a + b, d + e)
  {
    forall j | 0 <= j < |a|
      ensures h2[a[j]] == d[j]
    {
      forall k | 0 <= k < |b|
        ensures b[k] != a[j]
      {
        assert Differ(a + b, j, |a| + k);
      }
    }
    forall i | 0 <= i < |h| && i !in a + b
      ensures h2[i] == h[i]
    {
      assert i !in a && i !in b;
    }
  }

  lemma {:induction false} PutWrote(h: seq<byte>, p: nat, data: seq<byte>)
    requires p + |data| <= |h|
    ensures Wrote(h, Put(h, p, data), Span(p, |data|), data)
  {
    forall i | 0 <= i < |h| && i !in Span(p, |data|)
      ensures Put(h, p, data)[i] == h[i]
    {
      if p <= i < p + |data| {
        assert Span(p, |data|)[i - p] == i;
      }
    }
  }

  // ---- Laws ----

  lemma {:induction false} GatherOk(x: Xlate, h: seq<byte>, segs: seq<Segment>)
    requires InStore(x, |h|)
    ensures Gather(x, h, segs).Ok? <==> Mapped(x, segs)
  {
    if segs != [] {
      GatherOk(x, h, segs[1..]);
    }
  }

  lemma {:induction false} GatherBytes(x: Xlate, h: seq<byte>, segs: seq<Segment>)
    requires InStore(x, |h|) && Mapped(x, segs)
    ensures Within(Addrs(x, segs), |h|) && Gather(x, h, segs) == Ok(At(h, Addrs(x, segs)))
  {
    if segs != [] {
      GatherBytes(x, h, segs[1..]);
      var p, rest := x(segs[0].addr, segs[0].len).value, Addrs(x, segs[1..]);
      AtSpanThen(h, p, segs[0].len, rest);
      GatherStep(x, h, segs, At(h, rest));
    }
  }

  /** `gather_readable` succeeds exactly on mapped chains and returns their bytes in order. */
  lemma {:induction false} GatherIsFlat(x: Xlate, h: seq<byte>, segs: seq<Segment>)
    requires InStore(x, |h|)
    ensures Gather(x, h, segs).Ok? <==> Mapped(x, segs)
    ensures Mapped(x, segs) ==> Within(Addrs(x, segs), |h|)
                                 && Gather(x, h, segs) == Ok(At(h, Addrs(x, segs)))
  {
    GatherOk(x, h, segs);
    if Mapped(x, segs) {
      GatherBytes(x, h, segs);
    }
  }

  lemma {:induction false} GatherStep(x: Xlate, h: seq<byte>, segs: seq<Segment>, rest: seq<byte>)
    requires InStore(x, |h|) && segs != [] && x(segs[0].addr, segs[0].len).Some?
    requires Gather(x, h, segs[1..]) == Ok(rest)
    ensures var p := x(segs[0].addr, segs[0].len).value;
            Gather(x, h, segs) == Ok(h[p..p + segs[0].len] + rest)
  {
  }

  lemma {:induction false} AtSpanThen(h: seq<byte>, p: nat, n: nat, rest: seq<nat>)
    requires p + n <= |h| && Within(rest, |h|)
    ensures Within(Span(p, n) + rest, |h|)
    ensures At(h, Span(p, n) + rest) == h[p..p + n] + At(h, rest)
  {
  }

  lemma {:induction false} LoadPrefix(x: Xlate, h: seq<byte>, s: Segment, want: nat)
    requires InStore(x, |h|) && Linear(x) && x(s.addr, s.len).Some? && want <= s.len
    ensures Load(x, h, s.addr, want) == Some(Load(x, h, s.addr, s.len).value[..want])
  {
    var p := x(s.addr, s.len).value;
    assert PartMapped(x, s.addr, s.len, s.addr, want);
    if want > 0 {
      assert h[p..p + s.len][..want] == h[p..p + want];
    }
  }

  /** A prefix gather is a prefix of the full gather. */
  lemma {:induction false} GatherPrefixIsPrefix(x: Xlate, h: seq<byte>, segs: seq<Segment>, max: nat)
    requires InStore(x, |h|) && Linear(x) && Gather(x, h, segs).Ok?
    ensures GatherPrefix(x, h, segs, max)
            == Ok(Gather(x, h, segs).value[..Min(max, |Gather(x, h, segs).value|)])
    decreases segs
  {
    if segs != [] && max != 0 {
      var want := Min(max, segs[0].len);
      GatherPrefixIsPrefix(x, h, segs[1..], max - want);
      LoadPrefix(x, h, segs[0], want);
      var whole := Gather(x, h, segs).value;
      var rest := Gather(x, h, segs[1..]).value;
      assert whole[..Min(max, |whole|)]
          == Load(x, h, segs[0].addr, segs[0].len).value[..want] + rest[..Min(max - want, |rest|)];
    }
  }

  /** Mapped segments end at or below 2^64, so no address inside them overflows. */
  lemma {:induction false} MappedFits(rs: seq<Region>, segs: seq<Segment>, i: nat)
    requires Apart(rs, Gpa) && Mapped(Translate(rs, Gpa), segs) && i < |segs|
    ensures segs[i].addr + segs[i].len <= 0x1_0000_0000_0000_0000
  {
    if i == 0 {
      SubRange(rs, Gpa, segs[0].addr, segs[0].len, 0, 0);
    } else {
      MappedFits(rs, segs[1..], i - 1);
    }
  }

  /** Each entry is non-empty and lies inside one segment; segments are used at most once, in order. */
  ghost predicate Threaded(x: Xlate, iov: seq<Iovec>, segs: seq<Segment>)
    requires Mapped(x, segs)
    decreases segs
  {
    iov == [] ||
    (segs != [] &&
     (Threaded(x, iov, segs[1..]) ||
      (&& 0 < iov[0].len
       && x(segs[0].addr, segs[0].len).value <= iov[0].base
       && iov[0].base + iov[0].len <= x(segs[0].addr, segs[0].len).value + segs[0].len
       && Threaded(x, iov[1..], segs[1..]))))
  }

  /** `iovecs_from` succeeded with exactly the slice `[skip .. skip + max]` of the flattened segments. */
  ghost predicate IsSlice(x: Xlate, segs: seq<Segment>, skip: nat, max: nat)
    requires Mapped(x, segs)
  {
    var flat := Addrs(x, segs);
    var r := Iovecs(x, segs, skip, max);
    r.Ok? && IovAddrs(r.value) == flat[Min(skip, |flat|)..Min(skip + max, |flat|)]
  }

  lemma {:induction false} IovecsAreSlice(x: Xlate, segs: seq<Segment>, skip: nat, max: nat)
    requires Linear(x) && Mapped(x, segs)
    ensures IsSlice(x, segs, skip, max)
    decreases segs
  {
    if segs != [] && max != 0 {
      if skip >= segs[0].len {
        IovecsAreSlice(x, segs[1..], skip - segs[0].len, max);
        IovecsSkip(x, segs, skip, max);
      } else {
        IovecsAreSlice(x, segs[1..], 0, max - Min(segs[0].len - skip, max));
        IovecsTake(x, segs, skip, max);
      }
    }
  }

  lemma {:induction false} IovecsSkip(x: Xlate, segs: seq<Segment>, skip: nat, max: nat)
    requires segs != [] && 0 < max && skip >= segs[0].len && Mapped(x, segs)
    requires IsSlice(x, segs[1..], skip - segs[0].len, max)
    ensures IsSlice(x, segs, skip, max)
  {
    var p := x(segs[0].addr, segs[0].len).value;
    SliceSkipsHead(Span(p, segs[0].len), Addrs(x, segs[1..]), skip, max);
  }

  lemma {:induction false} IovecsTake(x: Xlate, segs: seq<Segment>, skip: nat, max: nat)
    requires segs != [] && 0 < max && skip < segs[0].len && Linear(x) && Mapped(x, segs)
    requires IsSlice(x, segs[1..], 0, max - Min(segs[0].len - skip, max))
    ensures IsSlice(x, segs, skip, max)
  {
    var p := x(segs[0].addr, segs[0].len).value;
    IovecsStep(x, segs, skip, max, p);
    SliceSplitsHead(p, segs[0].len, Addrs(x, segs[1..]), skip, max);
  }

  lemma {:induction false} IovecsStep(x: Xlate, segs: seq<Segment>, skip: nat, max: nat, p: nat)
    requires segs != [] && 0 < max && skip < segs[0].len && Linear(x)
    requires x(segs[0].addr, segs[0].len) == Some(p)
    requires Iovecs(x, segs[1..], 0, max - Min(segs[0].len - skip, max)).Ok?
    ensures var n := Min(segs[0].len - skip, max);
            var tail := Iovecs(x, segs[1..], 0, max - n).value;
            && Iovecs(x, segs, skip, max) == Ok([Iovec(p + skip, n)] + tail)
            && IovAddrs([Iovec(p + skip, n)] + tail) == Span(p + skip, n) + IovAddrs(tail)
  {
    var n := Min(segs[0].len - skip, max);
    var tail := Iovecs(x, segs[1..], 0, max - n).value;
    assert PartMapped(x, segs[0].addr, segs[0].len, segs[0].addr + skip, n);
    assert ([Iovec(p + skip, n)] + tail)[1..] == tail;
  }

  lemma {:induction false} SliceSkipsHead(head: seq<nat>, rest: seq<nat>, skip: nat, max: nat)
    requires skip >= |head|
    ensures var flat := head + rest;
            flat[Min(skip, |flat|)..Min(skip + max, |flat|)]
            == rest[Min(skip - |head|, |rest|)..Min(skip - |head| + max, |rest|)]
  {
  }

  lemma {:induction false} SliceSplitsHead(p: nat, len: nat, rest: seq<nat>, skip: nat, max: nat)
    requires skip < len && max > 0
    ensures var flat := Span(p, len) + rest;
            var n := Min(len - skip, max);
            flat[Min(skip, |flat|)..Min(skip + max, |flat|)]
            == Span(p + skip, n) + rest[..Min(max - n, |rest|)]
  {
  }

  /** Every entry of `iovecs_from` is non-empty and stays inside one segment, in segment order. */
  lemma {:induction false} IovecsAreThreaded(x: Xlate, segs: seq<Segment>, skip: nat, max: nat)
    requires Linear(x) && Mapped(x, segs)
    ensures Iovecs(x, segs, skip, max).Ok?
    ensures Threaded(x, Iovecs(x, segs, skip, max).value, segs)
    decreases segs
  {
    if segs != [] && max != 0 {
      var len := segs[0].len;
      if skip >= len {
        IovecsAreThreaded(x, segs[1..], skip - len, max);
      } else {
        IovecsAreThreaded(x, segs[1..], 0, max - Min(len - skip, max));
        IovecsStep(x, segs, skip, max, x(segs[0].addr, len).value);
        assert Iovecs(x, segs, skip, max).value[1..]
            == Iovecs(x, segs[1..], 0, max - Min(len - skip, max)).value;
      }
    }
  }

  lemma {:induction false} DistinctTail(head: seq<nat>, rest: seq<nat>)
    requires Distinct(head + rest)
    ensures Distinct(rest)
  {
    forall i: nat, j: nat
      ensures Differ(rest, i, j)
    {
      assert Differ(head + rest, |head| + i, |head| + j);
    }
  }

  lemma {:induction false} DistinctPrefix(a: seq<nat>, n: nat)
    requires Distinct(a) && n <= |a|
    ensures Distinct(a[..n])
  {
    forall i: nat, j: nat
      ensures Differ(a[..n], i, j)
    {
      assert Differ(a, i, j);
    }
  }

  lemma {:induction false} WroteJoin(h: seq<byte>, h1: seq<byte>, h2: seq<byte>, p: nat, len: nat, rest: seq<nat>,
                                     data: seq<byte>)
    requires Distinct(Span(p, len) + rest)
    requires Wrote(h, h1, Span(p, Min(|data|, len)), data[..Min(|data|, len)])
    requires var k := Min(|data|, len); var m := Min(|data| - k, |rest|);
             Wrote(h1, h2, rest[..m], data[k..][..m])
    ensures var n := Min(|data|, len + |rest|); Wrote(h, h2, (Span(p, len) + rest)[..n], data[..n])
  {
    var k := Min(|data|, len);
    var m := Min(|data| - k, |rest|);
    var n := k + m;
    var flat := Span(p, len) + rest;
    assert flat[..n] == Span(p, k) + rest[..m];
    assert data[..n] == data[..k] + data[k..][..m];
    DistinctPrefix(flat, n);
    WroteThen(h, h1, h2, Span(p, k), data[..k], rest[..m], data[k..][..m]);
  }

  predicate IovFits(iov: seq<Iovec>, hostLen: nat) {
    iov == [] || (iov[0].base + iov[0].len <= hostLen && IovFits(iov[1..], hostLen))
  }

  /** Fill the vector's host ranges in order with `data`, as `preadv` does. */
  function FillIov(h: seq<byte>, iov: seq<Iovec>, data: seq<byte>): (h': seq<byte>)
    requires IovFits(iov, |h|)
    ensures |h'| == |h|
    decreases iov
  {
    if iov == [] then h
    else
      var k := Min(|data|, iov[0].len);
      FillIov(Put(h, iov[0].base, data[..k]), iov[1..], data[k..])
  }

  lemma {:induction false} FillIovWrites(h: seq<byte>, iov: seq<Iovec>, data: seq<byte>)
    requires IovFits(iov, |h|)
    requires |data| <= |IovAddrs(iov)| && Distinct(IovAddrs(iov))
    ensures Wrote(h, FillIov(h, iov, data), IovAddrs(iov)[..|data|], data)
    decreases iov
  {
    if iov != [] {
      var k := Min(|data|, iov[0].len);
      var h1 := Put(h, iov[0].base, data[..k]);
      var rest := IovAddrs(iov[1..]);
      DistinctTail(Span(iov[0].base, iov[0].len), rest);
      FillIovWrites(h1, iov[1..], data[k..]);
      PutWrote(h, iov[0].base, data[..k]);
      assert data[k..][..|data| - k] == data[k..] && data[..|data|] == data;
      WroteJoin(h, h1, FillIov(h1, iov[1..], data[k..]), iov[0].base, iov[0].len, rest, data);
    }
  }

  /** Mapped segments as one vector covering all of them. */
  ghost function WholeIov(x: Xlate, segs: seq<Segment>): (iov: seq<Iovec>)
    requires Mapped(x, segs)
  {
    if segs == [] then []
    else [Iovec(x(segs[0].addr, segs[0].len).value, segs[0].len)] + WholeIov(x, segs[1..])
  }

  lemma {:induction false} WholeIovAddrs(x: Xlate, segs: seq<Segment>, hostLen: nat)
    requires Mapped(x, segs) && InStore(x, hostLen)
    ensures IovAddrs(WholeIov(x, segs)) == Addrs(x, segs)
    ensures IovFits(WholeIov(x, segs), hostLen)
  {
    if segs != [] {
      WholeIovAddrs(x, segs[1..], hostLen);
      assert WholeIov(x, segs)[1..] == WholeIov(x, segs[1..]);
    }
  }

  lemma {:induction false} StoreHead(x: Xlate, h: seq<byte>, s: Segment, data: seq<byte>, p: nat)
    requires InStore(x, |h|) && Linear(x) && x(s.addr, s.len).Some? && |data| <= s.len && p + |data| <= |h|
    requires x(s.addr, s.len) == Some(p)
    ensures Store(x, h, s.addr, data) == Some(Put(h, p, data))
  {
    assert PartMapped(x, s.addr, s.len, s.addr, |data|);
    if data == [] {
      assert Put(h, x(s.addr, 0).value, []) == h == Put(h, p, data);
    }
  }

  lemma {:induction false} FillNothing(h: seq<byte>, iov: seq<Iovec>)
    requires IovFits(iov, |h|)
    ensures FillIov(h, iov, []) == h
    decreases iov
  {
    if iov != [] {
      assert Put(h, iov[0].base, []) == h;
      FillNothing(h, iov[1..]);
    }
  }

  lemma {:induction false} FillStep(h: seq<byte>, iov: seq<Iovec>, data: seq<byte>, k: nat)
    requires IovFits(iov, |h|)
    requires iov != [] && k == Min(|data|, iov[0].len)
    ensures FillIov(h, iov, data) == FillIov(Put(h, iov[0].base, data[..k]), iov[1..], data[k..])
  {
  }

  lemma {:induction false} ScatterStep(x: Xlate, h: seq<byte>, segs: seq<Segment>, data: seq<byte>, k: nat,
                                       h1: seq<byte>, h2: seq<byte>, m: nat)
    requires InStore(x, |h|) && segs != [] && data != [] && |h1| == |h| && k == Min(|data|, segs[0].len)
    requires Store(x, h, segs[0].addr, data[..k]) == Some(h1)
    requires Scatter(x, h1, segs[1..], data[k..]) == (h2, Ok(m))
    ensures Scatter(x, h, segs, data) == (h2, Ok(k + m))
  {
  }

  /** Scattering into mapped segments filled them like one vector, with the prefix that fits. */
  ghost predicate IsFill(x: Xlate, h: seq<byte>, segs: seq<Segment>, iov: seq<Iovec>, data: seq<byte>)
    requires InStore(x, |h|) && IovFits(iov, |h|)
  {
    var n := Min(|data|, Capacity(segs));
    Scatter(x, h, segs, data) == (FillIov(h, iov, data[..n]), Ok(n))
  }

  lemma {:induction false} ScatterIsFill(x: Xlate, h: seq<byte>, segs: seq<Segment>, data: seq<byte>)
    requires InStore(x, |h|) && Linear(x) && Mapped(x, segs) && IovFits(WholeIov(x, segs), |h|)
    ensures IsFill(x, h, segs, WholeIov(x, segs), data)
    decreases segs
  {
    if segs == [] || data == [] {
      FillNothing(h, WholeIov(x, segs));
      assert data[..Min(|data|, Capacity(segs))] == [];
    } else {
      var iov := WholeIov(x, segs);
      assert iov[1..] == WholeIov(x, segs[1..]);
      var k := Min(|data|, segs[0].len);
      var h1 := Put(h, iov[0].base, data[..k]);
      StoreHead(x, h, segs[0], data[..k], iov[0].base);
      ScatterIsFill(x, h1, segs[1..], data[k..]);
      FillJoin(x, h, segs, iov, data, k, h1);
    }
  }

  lemma {:induction false} FillJoin(x: Xlate, h: seq<byte>, segs: seq<Segment>, iov: seq<Iovec>, data: seq<byte>,
                                    k: nat, h1: seq<byte>)
    requires InStore(x, |h|) && IovFits(iov, |h|) && segs != [] && data != [] && iov != []
    requires iov[0].len == segs[0].len && k == Min(|data|, segs[0].len)
    requires h1 == Put(h, iov[0].base, data[..k]) && Store(x, h, segs[0].addr, data[..k]) == Some(h1)
    requires IsFill(x, h1, segs[1..], iov[1..], data[k..])
    ensures IsFill(x, h, segs, iov, data)
  {
    var m := Min(|data| - k, Capacity(segs[1..]));
    ScatterStep(x, h, segs, data, k, h1, FillIov(h1, iov[1..], data[k..][..m]), m);
    assert data[..k + m][..k] == data[..k] && data[..k + m][k..] == data[k..][..m];
    FillStep(h, iov, data[..k + m], k);
  }

  /** `scatter_writable` on disjoint mapped segments writes exactly the prefix that fits, in order. */
  lemma {:induction false} ScatterWrites(x: Xlate, h: seq<byte>, segs: seq<Segment>, data: seq<byte>)
    requires InStore(x, |h|) && Linear(x) && Mapped(x, segs) && Distinct(Addrs(x, segs))
    ensures var n := Min(|data|, Capacity(segs));
            && Scatter(x, h, segs, data).1 == Ok(n)
            && Wrote(h, Scatter(x, h, segs, data).0, Addrs(x, segs)[..n], data[..n])
  {
    WholeIovAddrs(x, segs, |h|);
    ScatterIsFill(x, h, segs, data);
    FillIovWrites(h, WholeIov(x, segs), data[..Min(|data|, Capacity(segs))]);
  }

  lemma {:induction false} InSpan(p: nat, n: nat, rest: seq<nat>, i: nat)
    requires p <= i < p + n
    ensures i in Span(p, n) + rest
  {
    assert (Span(p, n) + rest)[i - p] == i;
  }

  lemma {:induction false} FillIovFrame(h: seq<byte>, iov: seq<Iovec>, data: seq<byte>, i: nat)
    requires IovFits(iov, |h|)
    requires i < |h| && i !in IovAddrs(iov)
    ensures FillIov(h, iov, data)[i] == h[i]
    decreases iov
  {
    if iov != [] {
      var k := Min(|data|, iov[0].len);
      if iov[0].base <= i < iov[0].base + iov[0].len {
        InSpan(iov[0].base, iov[0].len, IovAddrs(iov[1..]), i);
      }
      FillIovFrame(Put(h, iov[0].base, data[..k]), iov[1..], data[k..], i);
    }
  }

  /** The bytes a vector denotes, as `pwritev` takes them. */
  function DrainIov(h: seq<byte>, iov: seq<Iovec>): (s: seq<byte>)
    requires IovFits(iov, |h|)
  {
    if iov == [] then [] else h[iov[0].base..iov[0].base + iov[0].len] + DrainIov(h, iov[1..])
  }

  lemma {:induction false} DrainIovIsAt(h: seq<byte>, iov: seq<Iovec>)
    requires IovFits(iov, |h|)
    ensures Within(IovAddrs(iov), |h|)
    ensures DrainIov(h, iov) == At(h, IovAddrs(iov))
  {
    if iov != [] {
      DrainIovIsAt(h, iov[1..]);
      AtSpanThen(h, iov[0].base, iov[0].len, IovAddrs(iov[1..]));
    }
  }

  /** What was scattered is gathered back from the same segments; the rest of them is as before. */
  lemma {:induction false} ScatterThenGather(x: Xlate, h: seq<byte>, segs: seq<Segment>, data: seq<byte>)
    requires InStore(x, |h|) && Linear(x) && Mapped(x, segs) && Distinct(Addrs(x, segs))
    ensures var n := Min(|data|, Capacity(segs));
            && Gather(x, h, segs).Ok?
            && Gather(x, Scatter(x, h, segs, data).0, segs) == Ok(data[..n] + Gather(x, h, segs).value[n..])
  {
    ScatterWrites(x, h, segs, data);
    var h' := Scatter(x, h, segs, data).0;
    GatherIsFlat(x, h, segs);
    GatherIsFlat(x, h', segs);
    WroteReadBack(h, h', Addrs(x, segs), data, Min(|data|, Capacity(segs)));
  }

  lemma {:induction false} WroteReadBack(h: seq<byte>, h': seq<byte>, a: seq<nat>, data: seq<byte>, n: nat)
    requires Within(a, |h|) && Distinct(a) && n <= |data| && n <= |a|
    requires Wrote(h, h', a[..n], data[..n])
    ensures At(h', a) == data[..n] + At(h, a)[n..]
  {
    forall j | 0 <= j < |a|
      ensures h'[a[j]] == if j < n then data[j] else h[a[j]]
    {
      if j < n {
        assert a[..n][j] == a[j];
      } else {
        forall i | 0 <= i < n
          ensures a[..n][i] != a[j]
        {
          assert Differ(a, i, j);
        }
      }
    }
  }

  // ---- What an operation can touch, mapped or not ----

  /** Host index `i` is not reachable through any part of any of the segments. */
  ghost predicate Unreachable(x: Xlate, segs: seq<Segment>, i: nat) {
    forall s, a: nat, n: nat :: s in segs && s.addr <= a && a + n <= s.addr + s.len && x(a, n).Some?
      ==> !(x(a, n).value <= i < x(a, n).value + n)
  }

  lemma {:induction false} ScatterFrame(x: Xlate, h: seq<byte>, segs: seq<Segment>, data: seq<byte>, i: nat)
    requires InStore(x, |h|) && i < |h| && Unreachable(x, segs, i)
    ensures Scatter(x, h, segs, data).0[i] == h[i]
    decreases segs
  {
    if segs != [] && data != [] {
      var n := Min(|data|, segs[0].len);
      assert segs[0] in segs;
      match Store(x, h, segs[0].addr, data[..n])
      case None =>
      case Some(h1) =>
        assert x(segs[0].addr, n).Some?;
        assert h1[i] == h[i];
        ScatterFrame(x, h1, segs[1..], data[n..], i);
    }
  }

  lemma {:induction false} IovecsUnreachable(x: Xlate, segs: seq<Segment>, skip: nat, max: nat, i: nat)
    requires Unreachable(x, segs, i) && Iovecs(x, segs, skip, max).Ok?
    ensures i !in IovAddrs(Iovecs(x, segs, skip, max).value)
    decreases segs
  {
    if segs != [] && max != 0 {
      assert segs[0] in segs;
      if skip >= segs[0].len {
        IovecsUnreachable(x, segs[1..], skip - segs[0].len, max, i);
      } else {
        var n := Min(segs[0].len - skip, max);
        assert x(segs[0].addr + skip, n).Some?;
        IovecsUnreachable(x, segs[1..], 0, max - n, i);
        var iov := Iovecs(x, segs, skip, max).value;
        assert iov[1..] == Iovecs(x, segs[1..], 0, max - n).value;
      }
    }
  }

  lemma {:induction false} IovecsWithin(x: Xlate, segs: seq<Segment>, skip: nat, max: nat, hostLen: nat)
    requires InStore(x, hostLen) && Iovecs(x, segs, skip, max).Ok?
    ensures IovFits(Iovecs(x, segs, skip, max).value, hostLen)
    decreases segs
  {
    if segs != [] && max != 0 {
      if skip >= segs[0].len {
        IovecsWithin(x, segs[1..], skip - segs[0].len, max, hostLen);
      } else {
        var n := Min(segs[0].len - skip, max);
        IovecsWithin(x, segs[1..], 0, max - n, hostLen);
        assert Iovecs(x, segs, skip, max).value[1..] == Iovecs(x, segs[1..], 0, max - n).value;
      }
    }
  }
}
