/**
 Little-endian integers, and the reading and writing cursors of fuse/bytes.rs that every
 wire parser and encoder is built on.
 */
module Bytes {
  import opened Basics

  /** 256 to the power `k`. */
  function Pow256(k: nat): (r: nat)
    ensures r >= 1
  {
    if k == 0 then 1 else 256 * Pow256(k - 1)
  }

  lemma {:induction false} PowFacts()
    ensures Pow256(2) == 0x1_0000
    ensures Pow256(4) == 0x1_0000_0000
    ensures Pow256(8) == 0x1_0000_0000_0000_0000
  {
    assert Pow256(2) == 256 * 256;
    assert Pow256(4) == 256 * (256 * Pow256(2));
    assert Pow256(6) == 256 * (256 * Pow256(4));
    assert Pow256(8) == 256 * (256 * Pow256(6));
  }

  /** Byte `i` of `n`, counting from the least significant. */
  function Digit(n: nat, i: nat): (d: byte)
    decreases i
  {
    if i == 0 then n % 256 else Digit(n / 256, i - 1)
  }

  /** The low `k` bytes of `n`, least significant first. */
  function Le(n: nat, k: nat): (s: seq<byte>)
    ensures |s| == k
  {
    seq(k, i requires 0 <= i < k => Digit(n, i))
  }

  lemma {:induction false} LeUnroll(n: nat, k: nat)
    requires k > 0
    ensures Le(n, k) == [n % 256] + Le(n / 256, k - 1)
  {
  }

  /** The number a little-endian byte string denotes. */
  function FromLe(s: seq<byte>): (n: nat)
    ensures n < Pow256(|s|)
  {
    if s == [] then 0 else s[0] + 256 * FromLe(s[1..])
  }

  lemma {:induction false} FromLeOfLe(n: nat, k: nat)
    requires n < Pow256(k)
    ensures FromLe(Le(n, k)) == n
    decreases k
  {
    if k > 0 {
      FromLeOfLe(n / 256, k - 1);
      LeUnroll(n, k);
      assert Le(n, k)[1..] == Le(n / 256, k - 1);
    }
  }

  lemma {:induction false} LeOfFromLe(s: seq<byte>)
    ensures Le(FromLe(s), |s|) == s
  {
    if s != [] {
      LeOfFromLe(s[1..]);
      LeUnroll(FromLe(s), |s|);
      assert s == [s[0]] + s[1..];
    }
  }

  /** The `k`-byte field at offset `off`. */
  function Num(b: seq<byte>, off: nat, k: nat): (n: nat)
    requires off + k <= |b|
    ensures n < Pow256(k)
  {
    FromLe(b[off..off + k])
  }

  /** A field written with `Le` is read back by `Num`, whatever surrounds it. */
  lemma {:induction false} NumOfLe(pre: seq<byte>, n: nat, k: nat, post: seq<byte>)
    requires n < Pow256(k)
    ensures Num(pre + Le(n, k) + post, |pre|, k) == n
  {
    assert (pre + Le(n, k) + post)[|pre|..|pre| + k] == Le(n, k);
    FromLeOfLe(n, k);
  }

  /** A field lying inside a prefix does not depend on what follows the prefix. */
  lemma {:induction false} NumOfPrefix(b: seq<byte>, n: nat, off: nat, k: nat)
    requires off + k <= n <= |b|
    ensures Num(b[..n], off, k) == Num(b, off, k)
  {
    assert b[..n][off..off + k] == b[off..off + k];
  }

  /** Two's-complement encoding of a 32-bit signed integer. */
  function LeI32(v: int): (s: seq<byte>)
    requires -0x8000_0000 <= v < 0x8000_0000
    ensures |s| == 4
  {
    Le(if v < 0 then v + 0x1_0000_0000 else v, 4)
  }

  /** The signed 32-bit field at offset `off`. */
  function NumI32(b: seq<byte>, off: nat): (v: int)
    requires off + 4 <= |b|
  {
    var u := Num(b, off, 4);
    if u >= 0x8000_0000 then u - 0x1_0000_0000 else u
  }

  lemma {:induction false} I32RoundTrip(pre: seq<byte>, v: int, post: seq<byte>)
    requires -0x8000_0000 <= v < 0x8000_0000
    ensures NumI32(pre + LeI32(v) + post, |pre|) == v
  {
    PowFacts();
    NumOfLe(pre, if v < 0 then v + 0x1_0000_0000 else v, 4, post);
  }

  /** Position of the first NUL byte at or after `from`, if any. */
  function FindNul(b: seq<byte>, from: nat): (r: Option<nat>)
    requires from <= |b|
    ensures r.Some? ==> from <= r.value < |b|
    decreases |b| - from
  {
    if from == |b| then None else if b[from] == 0 then Some(from) else FindNul(b, from + 1)
  }

  /** What is found is a NUL with none before it; nothing is found only where there is none. */
  lemma {:induction false} FindNulIsFirst(b: seq<byte>, from: nat)
    requires from <= |b|
    ensures match FindNul(b, from)
            case Some(nul) => b[nul] == 0 && 0 !in b[from..nul]
            case None => 0 !in b[from..]
    decreases |b| - from
  {
    if from < |b| && b[from] != 0 {
      FindNulIsFirst(b, from + 1);
      assert b[from..] == [b[from]] + b[from + 1..];
      match FindNul(b, from + 1)
      case None =>
      case Some(nul) => assert b[from..nul] == [b[from]] + b[from + 1..nul];
    }
  }

  datatype ProtoError = Truncated | Disconnected | PayloadTooLarge(size: nat) | UnknownRequest(code: nat) | Io

  /** The reading cursor: every successful read advances `pos` past what it returned. */
  class Reader {
    const buf: seq<byte>
    var pos: nat

    ghost predicate Valid()
      reads this
    {
      pos <= |buf|
    }

    constructor (b: seq<byte>)
      ensures Valid() && buf == b && pos == 0
    {
      buf := b;
      pos := 0;
    }

    method Take(n: nat) returns (r: Result<seq<byte>, ProtoError>)
      requires Valid()
      modifies this
      ensures Valid()
      ensures r.Ok? <==> old(pos) + n <= |buf|
      ensures r.Ok? ==> r.value == buf[old(pos)..old(pos) + n] && pos == old(pos) + n
      ensures r.Err? ==> r.error == Truncated && pos == old(pos)
    {
      var end := pos + n;
      if end > |buf| {
        return Err(Truncated);
      }
      r := Ok(buf[pos..end]);
      pos := end;
    }

    method U32() returns (r: Result<u32, ProtoError>)
      requires Valid()
      modifies this
      ensures Valid()
      ensures r.Ok? <==> old(pos) + 4 <= |buf|
      ensures r.Ok? ==> r.value == Num(buf, old(pos), 4) && pos == old(pos) + 4
      ensures r.Err? ==> r.error == Truncated && pos == old(pos)
    {
      var s :- Take(4);
      PowFacts();
      r := Ok(FromLe(s));
    }

    method U64() returns (r: Result<u64, ProtoError>)
      requires Valid()
      modifies this
      ensures Valid()
      ensures r.Ok? <==> old(pos) + 8 <= |buf|
      ensures r.Ok? ==> r.value == Num(buf, old(pos), 8) && pos == old(pos) + 8
      ensures r.Err? ==> r.error == Truncated && pos == old(pos)
    {
      var s :- Take(8);
      PowFacts();
      r := Ok(FromLe(s));
    }

    method Skip(n: nat) returns (r: Result<(), ProtoError>)
      requires Valid()
      modifies this
      ensures Valid()
      ensures r.Ok? <==> old(pos) + n <= |buf|
      ensures r.Ok? ==> pos == old(pos) + n
      ensures r.Err? ==> r.error == Truncated && pos == old(pos)
    {
      var _ :- Take(n);
      r := Ok(());
    }

    /** One NUL-terminated string, without its NUL; the cursor ends just past the NUL. */
    method Cstr() returns (r: Result<seq<byte>, ProtoError>)
      requires Valid()
      modifies this
      ensures Valid()
      ensures match FindNul(buf, old(pos))
              case None => r == Err(Truncated) && pos == old(pos)
              case Some(nul) => r == Ok(buf[old(pos)..nul]) && pos == nul + 1
    {
      match FindNul(buf, pos) {
        case None =>
          r := Err(Truncated);
        case Some(nul) =>
          r := Ok(buf[pos..nul]);
          pos := nul + 1;
      }
    }
  }

  /** The writing cursor: every call appends to `buf`. */
  class Writer {
    var buf: seq<byte>

    constructor ()
      ensures buf == []
    {
      buf := [];
    }

    method U32(v: u32)
      modifies this
      ensures buf == old(buf) + Le(v, 4)
    {
      buf := buf + Le(v, 4);
    }

    method I32(v: int)
      requires -0x8000_0000 <= v < 0x8000_0000
      modifies this
      ensures buf == old(buf) + LeI32(v)
    {
      buf := buf + LeI32(v);
    }

    method U64(v: u64)
      modifies this
      ensures buf == old(buf) + Le(v, 8)
    {
      buf := buf + Le(v, 8);
    }

    method Append(b: seq<byte>)
      modifies this
      ensures buf == old(buf) + b
    {
      buf := buf + b;
    }
  }
}
