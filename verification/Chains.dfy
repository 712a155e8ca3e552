/**
 Descriptor chains (vhost_user/virtqueue.rs): the bounded walk over a descriptor table and what it
 accepts. The table is any lookup from index to descriptor, so the results hold whatever the guest
 has put in its memory.
 */
module Chains {
  import opened Basics
  import opened Segments

  const MAX_CHAIN_LEN := 512

  datatype DescChain = DescChain(head: u16, readable: seq<Segment>, writable: seq<Segment>)

  datatype Desc = Desc(addr: u64, len: u32, flags: u16, next: u16) {
    predicate HasNext() { flags % 2 == 1 }
    predicate IsWrite() { flags / 2 % 2 == 1 }
    predicate IsIndirect() { flags / 4 % 2 == 1 }
    function Seg(): Segment { Segment(addr, len) }
  }

  /** The descriptor at an index, if it can be read at all. */
  type Table = nat -> Option<Desc>

  /** The walk from `idx` with `fuel` descriptors left: readable and writable segments, in order. */
  function Walk(t: Table, idx: nat, fuel: nat): (r: Result<(seq<Segment>, seq<Segment>), VqError>)
    decreases fuel
  {
    if fuel == 0 then Err(ChainTooLong)
    else
      match t(idx)
      case None => Err(OutOfBounds)
      case Some(d) =>
        if d.IsIndirect() then Err(IndirectUnsupported)
        else
          var here := if d.IsWrite() then ([], [d.Seg()]) else ([d.Seg()], []);
          if !d.HasNext() then Ok(here)
          else
            var rest :- Walk(t, d.next, fuel - 1);
            Ok((here.0 + rest.0, here.1 + rest.1))
  }

  function ReadChain(t: Table, head: u16): (r: Result<DescChain, VqError>)
  {
    var rw :- Walk(t, head, MAX_CHAIN_LEN);
    Ok(DescChain(head, rw.0, rw.1))
  }

  /** A descriptor the walk accepts. */
  ghost predicate Usable(t: Table, idx: nat)
  {
    t(idx).Some? && !t(idx).value.IsIndirect()
  }

  /** `path` follows the next-links from its first element and ends at a descriptor without one. */
  ghost predicate IsPath(t: Table, path: seq<nat>)
  {
    && path != []
    && Usable(t, path[0])
    && var d := t(path[0]).value;
       if |path| == 1 then !d.HasNext()
       else d.HasNext() && path[1] == d.next && IsPath(t, path[1..])
  }

  /** The segments of the descriptors along `path` whose WRITE flag is `write`, in path order. */
  ghost function Pick(t: Table, path: seq<nat>, write: bool): (segs: seq<Segment>)
  {
    if path == [] || !Usable(t, path[0]) then []
    else
      var d := t(path[0]).value;
      (if d.IsWrite() == write then [d.Seg()] else []) + Pick(t, path[1..], write)
  }

  /** A path of at most `fuel` descriptors makes the walk succeed with that path's split. */
  lemma {:induction false} PathIsWalked(t: Table, path: seq<nat>, fuel: nat)
    requires IsPath(t, path) && |path| <= fuel
    ensures Walk(t, path[0], fuel)
            == Ok((Pick(t, path, false), Pick(t, path, true)))
    decreases fuel
  {
    if |path| == 1 {
      var d := t(path[0]).value;
      assert Pick(t, path[1..], false) == [] && Pick(t, path[1..], true) == [];
      assert Pick(t, path, d.IsWrite()) == [d.Seg()] && Pick(t, path, !d.IsWrite()) == [];
    } else {
      PathIsWalked(t, path[1..], fuel - 1);
    }
  }

  /** A successful walk came from a path of at most `fuel` descriptors. */
  lemma {:induction false} WalkHasPath(t: Table, idx: nat, fuel: nat) returns (path: seq<nat>)
    requires Walk(t, idx, fuel).Ok?
    ensures IsPath(t, path) && path[0] == idx && |path| <= fuel
    decreases fuel
  {
    var d := t(idx).value;
    if d.HasNext() {
      var rest := WalkHasPath(t, d.next, fuel - 1);
      path := [idx] + rest;
      assert path[1..] == rest;
    } else {
      path := [idx];
    }
  }

  /** There is at most one path from a given head. */
  lemma {:induction false} PathUnique(t: Table, p: seq<nat>, q: seq<nat>)
    requires IsPath(t, p) && IsPath(t, q) && p[0] == q[0]
    ensures p == q
    decreases |p|
  {
    if |p| > 1 {
      PathUnique(t, p[1..], q[1..]);
      assert p == [p[0]] + p[1..] && q == [q[0]] + q[1..];
    }
  }

  lemma {:induction false} PathSuffix(t: Table, p: seq<nat>, i: nat)
    requires IsPath(t, p) && i < |p|
    ensures IsPath(t, p[i..])
    decreases i
  {
    if i == 0 {
      assert p[0..] == p;
    } else {
      PathSuffix(t, p[1..], i - 1);
      assert p[i..] == p[1..][i - 1..];
    }
  }

  /** No index occurs twice on a path: the walk needs no visited set to be free of cycles. */
  lemma {:induction false} PathIsDistinct(t: Table, p: seq<nat>)
    requires IsPath(t, p)
    ensures forall i, j :: 0 <= i < j < |p| ==> p[i] != p[j]
  {
    forall i, j | 0 <= i < j < |p|
      ensures p[i] != p[j]
    {
      PathSuffix(t, p, i);
      PathSuffix(t, p, j);
      if p[i] == p[j] {
        PathUnique(t, p[i..], p[j..]);
      }
    }
  }

  /**
   `read_chain` is sound and complete: it succeeds exactly when the next-links from `head` end
   within 512 usable descriptors, and then returns that path's order-preserving split by the
   WRITE flag; the path visits no descriptor twice.
   */
  lemma {:induction false} ReadChainExact(t: Table, head: u16)
    ensures ReadChain(t, head).Ok? <==>
            exists path :: IsPath(t, path) && path[0] == head && |path| <= 512
    ensures forall path :: IsPath(t, path) && path[0] == head && |path| <= 512 ==>
              && ReadChain(t, head)
                 == Ok(DescChain(head, Pick(t, path, false), Pick(t, path, true)))
              && (forall i, j :: 0 <= i < j < |path| ==> path[i] != path[j])
  {
    if ReadChain(t, head).Ok? {
      var path := WalkHasPath(t, head, MAX_CHAIN_LEN);
    }
    forall path | IsPath(t, path) && path[0] == head && |path| <= MAX_CHAIN_LEN
      ensures ReadChain(t, head)
              == Ok(DescChain(head, Pick(t, path, false), Pick(t, path, true)))
      ensures forall i, j :: 0 <= i < j < |path| ==> path[i] != path[j]
    {
      PathIsWalked(t, path, MAX_CHAIN_LEN);
      PathIsDistinct(t, path);
    }
  }

  /** `trail` follows next-links of usable descriptors; it need not have reached an end. */
  ghost predicate IsTrail(t: Table, trail: seq<nat>)
  {
    trail != [] &&
    (|trail| == 1 ||
     (&& Usable(t, trail[0])
      && t(trail[0]).value.HasNext()
      && trail[1] == t(trail[0]).value.next
      && IsTrail(t, trail[1..])))
  }

  lemma {:induction false} TrailIsPrefix(t: Table, trail: seq<nat>, path: seq<nat>)
    requires IsTrail(t, trail) && IsPath(t, path) && trail[0] == path[0]
    ensures |trail| <= |path| && trail == path[..|trail|]
    decreases |trail|
  {
    if |trail| > 1 {
      TrailIsPrefix(t, trail[1..], path[1..]);
      assert trail == [trail[0]] + trail[1..];
    }
  }

  /** Any chain whose links come back to a descriptor already visited is rejected. */
  lemma {:induction false} CyclicChainRejected(t: Table, head: u16, trail: seq<nat>, i: nat)
    requires IsTrail(t, trail) && trail[0] == head
    requires i < |trail| - 1 && trail[i] == trail[|trail| - 1]
    ensures ReadChain(t, head).Err?
  {
    if ReadChain(t, head).Ok? {
      var path := WalkHasPath(t, head, MAX_CHAIN_LEN);
      TrailIsPrefix(t, trail, path);
      PathIsDistinct(t, path);
    }
  }
}
