/**
 The FUSE wire format (fuse/wire.rs, fuse/linux_errno.rs): request headers and payloads, reply
 headers, BATCH_FORGET lists. Parsers are given twice: as a function of fixed field offsets and as
 the cursor code of the source, proved equal to it.
 */
module Wire {
  import opened Basics
  import opened Bytes

  const IN_HEADER_LEN := 40
  const OUT_HEADER_LEN := 16
  const MAX_WRITE := 0x10_0000

  datatype Opcode =
    | Lookup | Forget | Getattr | Setattr | Readlink | Symlink | Mkdir | Unlink | Rmdir | Rename
    | Link | Open | Read | Write | Statfs | Release | Fsync | Getxattr | Listxattr | Setxattr
    | Removexattr | Flush | Init | Opendir | Readdir | Releasedir | Fsyncdir | Access | Create
    | Destroy | BatchForget | Rename2 | Unknown(code: nat)

  function OpcodeFrom(v: nat): Opcode {
    match v
    case 1 => Lookup
    case 2 => Forget
    case 3 => Getattr
    case 4 => Setattr
    case 5 => Readlink
    case 6 => Symlink
    case 9 => Mkdir
    case 10 => Unlink
    case 11 => Rmdir
    case 12 => Rename
    case 13 => Link
    case 14 => Open
    case 15 => Read
    case 16 => Write
    case 17 => Statfs
    case 18 => Release
    case 20 => Fsync
    case 21 => Setxattr
    case 22 => Getxattr
    case 23 => Listxattr
    case 24 => Removexattr
    case 25 => Flush
    case 26 => Init
    case 27 => Opendir
    case 28 => Readdir
    case 29 => Releasedir
    case 30 => Fsyncdir
    case 34 => Access
    case 35 => Create
    case 38 => Destroy
    case 42 => BatchForget
    case 45 => Rename2
    case other => Unknown(other)
  }

  // ---- Requests ----

  datatype InHeader = InHeader(len: u32, opcode: u32, unique: u64, nodeid: u64, uid: u32, gid: u32, pid: u32)

  /** The header fields at their offsets; `None` when the buffer is shorter than the header. */
  function ParseInHeader(b: seq<byte>): (r: Option<InHeader>)
    ensures r.Some? <==> |b| >= IN_HEADER_LEN
  {
    PowFacts();
    if |b| < IN_HEADER_LEN then None
    else Some(InHeader(Num(b, 0, 4), Num(b, 4, 4), Num(b, 8, 8), Num(b, 16, 8),
                       Num(b, 24, 4), Num(b, 28, 4), Num(b, 32, 4)))
  }

  method InHeaderFromBytes(b: seq<byte>) returns (r: Result<InHeader, ProtoError>)
    ensures r == match ParseInHeader(b) case None => Err(Truncated) case Some(h) => Ok(h)
  {
    var rd := new Reader(b);
    var len :- rd.U32();
    var opcode :- rd.U32();
    var unique :- rd.U64();
    var nodeid :- rd.U64();
    var uid :- rd.U32();
    var gid :- rd.U32();
    var pid :- rd.U32();
    var _ :- rd.Skip(4);
    r := Ok(InHeader(len, opcode, unique, nodeid, uid, gid, pid));
  }

  function Body(b: seq<byte>): (body: seq<byte>) {
    b[Min(IN_HEADER_LEN, |b|)..]
  }

  datatype IoIn = IoIn(fh: u64, offset: u64, size: u32)

  function ParseReadIn(b: seq<byte>): (r: Option<IoIn>)
    ensures r.Some? <==> |b| >= 20
  {
    PowFacts();
    if |b| < 20 then None else Some(IoIn(Num(b, 0, 8), Num(b, 8, 8), Num(b, 16, 4)))
  }

  /** The fixed 40-byte part, and the data that follows it. */
  function ParseWriteIn(b: seq<byte>): (r: Option<(IoIn, seq<byte>)>)
    ensures r.Some? <==> |b| >= 40
  {
    PowFacts();
    if |b| < 40 then None else Some((IoIn(Num(b, 0, 8), Num(b, 8, 8), Num(b, 16, 4)), b[40..]))
  }

  method ReadInFromBytes(b: seq<byte>) returns (r: Result<IoIn, ProtoError>)
    ensures r == match ParseReadIn(b) case None => Err(Truncated) case Some(v) => Ok(v)
  {
    var rd := new Reader(b);
    var fh :- rd.U64();
    var offset :- rd.U64();
    var size :- rd.U32();
    r := Ok(IoIn(fh, offset, size));
  }

  method WriteInFromBytes(b: seq<byte>) returns (r: Result<(IoIn, seq<byte>), ProtoError>)
    ensures r == match ParseWriteIn(b) case None => Err(Truncated) case Some(v) => Ok(v)
  {
    var rd := new Reader(b);
    var fh :- rd.U64();
    var offset :- rd.U64();
    var size :- rd.U32();
    var _ :- rd.Skip(4);
    var _ :- rd.Skip(8);
    var _ :- rd.Skip(4);
    var _ :- rd.Skip(4);
    r := Ok((IoIn(fh, offset, size), b[rd.pos..]));
  }

  datatype ForgetOne = ForgetOne(nodeid: nat, nlookup: nat)

  /** The `count` entries that start at offset `off`. */
  function ForgetEntries(b: seq<byte>, off: nat, count: nat): (s: seq<ForgetOne>)
    requires off + 16 * count <= |b|
    ensures |s| == count
    decreases count
  {
    if count == 0 then []
    else [ForgetOne(Num(b, off, 8), Num(b, off + 8, 8))] + ForgetEntries(b, off + 16, count - 1)
  }

  function ParseBatchForget(b: seq<byte>): (r: Option<seq<ForgetOne>>)
    ensures r.Some? <==> |b| >= 8 && |b| >= 8 + 16 * Num(b, 0, 4)
  {
    if |b| < 8 || |b| < 8 + 16 * Num(b, 0, 4) then None
    else Some(ForgetEntries(b, 8, Num(b, 0, 4)))
  }

  ghost predicate EntriesFrom(b: seq<byte>, count: nat, out: seq<ForgetOne>, i: nat)
    requires i <= count && 8 + 16 * count <= |b|
  {
    ForgetEntries(b, 8, count) == out + ForgetEntries(b, 8 + 16 * i, count - i)
  }

  lemma {:induction false} EntriesAdvance(b: seq<byte>, count: nat, out: seq<ForgetOne>, i: nat)
    requires i < count && 8 + 16 * count <= |b| && EntriesFrom(b, count, out, i)
    ensures EntriesFrom(b, count, out + [ForgetOne(Num(b, 8 + 16 * i, 8), Num(b, 16 + 16 * i, 8))], i + 1)
  {
    var e := ForgetOne(Num(b, 8 + 16 * i, 8), Num(b, 16 + 16 * i, 8));
    var rest := ForgetEntries(b, 8 + 16 * (i + 1), count - i - 1);
    assert ForgetEntries(b, 8 + 16 * i, count - i) == [e] + rest;
    assert out + ([e] + rest) == (out + [e]) + rest;
  }

  lemma {:induction false} EntriesEnd(b: seq<byte>, count: nat, out: seq<ForgetOne>)
    requires 8 + 16 * count <= |b| && EntriesFrom(b, count, out, count)
    ensures out == ForgetEntries(b, 8, count)
  {
    assert out + [] == out;
  }

  method BatchForgetFromBytes(b: seq<byte>) returns (r: Result<seq<ForgetOne>, ProtoError>)
    ensures r == match ParseBatchForget(b) case None => Err(Truncated) case Some(v) => Ok(v)
  {
    var rd := new Reader(b);
    var count :- rd.U32();
    var _ :- rd.Skip(4);
    r := ForgetEntriesAt(rd, b, count);
  }

  method ForgetEntriesAt(rd: Reader, b: seq<byte>, count: nat) returns (r: Result<seq<ForgetOne>, ProtoError>)
    requires rd.Valid() && rd.buf == b && rd.pos == 8
    modifies rd
    ensures r == if 8 + 16 * count <= |b| then Ok(ForgetEntries(b, 8, count)) else Err(Truncated)
  {
    var out: seq<ForgetOne> := [];
    for i := 0 to count
      invariant rd.Valid() && rd.buf == b && rd.pos == 8 + 16 * i
      invariant 8 + 16 * count <= |b| ==> EntriesFrom(b, count, out, i)
    {
      var e := ForgetOneAt(rd);
      if e.Err? {
        return Err(Truncated);
      }
      if 8 + 16 * count <= |b| {
        EntriesAdvance(b, count, out, i);
      }
      out := out + [e.value];
    }
    EntriesEnd(b, count, out);
    r := Ok(out);
  }

  method ForgetOneAt(rd: Reader) returns (r: Result<ForgetOne, ProtoError>)
    requires rd.Valid()
    modifies rd
    ensures rd.Valid()
    ensures r.Ok? <==> old(rd.pos) + 16 <= |rd.buf|
    ensures r.Ok? ==> rd.pos == old(rd.pos) + 16
                      && r.value == ForgetOne(Num(rd.buf, old(rd.pos), 8), Num(rd.buf, old(rd.pos) + 8, 8))
  {
    var nodeid :- rd.U64();
    var nlookup :- rd.U64();
    r := Ok(ForgetOne(nodeid, nlookup));
  }

  // ---- Replies ----

  /** Host errnos the translation table knows (their Linux values); all others become EIO. */
  predicate Mapped(e: int) {
    || 1 <= e <= 14 || 16 <= e <= 40 || e == 42 || e == 43 || e == 74 || e == 75 || e == 84
    || 88 <= e <= 93 || e == 95 || 97 <= e <= 107 || e == 110 || e == 111 || 113 <= e <= 116
    || e == 122 || e == 125
  }

  /** Kept exactly for the listed values; the result is always one of them. 61 (ENODATA) becomes 5 (EIO). */
  function ToLinuxErrno(e: int): (r: int)
    ensures 1 <= r <= 125 && Mapped(r)
    ensures r == e <==> Mapped(e)
    ensures r == 5 <==> e == 5 || !Mapped(e)
  {
    if Mapped(e) then e else 5
  }

  /** On a Linux host an errno is sent as it is if it is one of these, and as 5 (EIO) if not. */
  lemma {:induction false} ErrnoSent(e: int)
    ensures ToLinuxErrno(e) ==
            if e in {1, 2, 3, 4, 5, 6, 7, 8, 9, 10, 11, 12, 13, 14, 16, 17, 18, 19, 20, 21, 22, 23, 24, 25, 26, 27, 28,
                     29, 30, 31, 32, 33, 34, 35, 36, 37, 38, 39, 40, 42, 43, 74, 75, 84, 88, 89, 90, 91, 92, 93, 95, 97,
                     98, 99, 100, 101, 102, 103, 104, 105, 106, 107, 110, 111, 113, 114, 115, 116, 122, 125}
            then e else 5
  {
  }

  /** Header and body; a non-zero `error` drops the body. The length field is 32 bits wide. */
  function Reply(unique: u64, error: int, body: seq<byte>): (r: seq<byte>)
    requires -0x8000_0000 <= error < 0x8000_0000
  {
    var b := if error == 0 then body else [];
    Le((OUT_HEADER_LEN + |b|) % 0x1_0000_0000, 4) + LeI32(error) + Le(unique, 8) + b
  }

  function ErrorFor(unique: u64, hostErrno: int): (r: seq<byte>) {
    Reply(unique, -ToLinuxErrno(hostErrno), [])
  }

  /** Just the success header of a reply whose body is already in guest memory. */
  function HeaderOnly(unique: u64, totalLen: u32): (r: seq<byte>)
    ensures |r| == OUT_HEADER_LEN
  {
    Le(totalLen, 4) + LeI32(0) + Le(unique, 8)
  }

  method BuildReply(unique: u64, error: int, body: seq<byte>) returns (r: seq<byte>)
    requires -0x8000_0000 <= error < 0x8000_0000
    ensures r == Reply(unique, error, body)
  {
    var b := if error == 0 then body else [];
    var w := new Writer();
    w.U32((OUT_HEADER_LEN + |b|) % 0x1_0000_0000);
    w.I32(error);
    w.U64(unique);
    w.Append(b);
    r := w.buf;
  }

  /**
   What a FUSE client may rely on: the length field is the real length, the request's own `unique`
   comes back, and the error is 0 or a negative Linux errno with nothing after the header.
   */
  ghost predicate WellFormed(r: seq<byte>, unique: u64) {
    && |r| >= OUT_HEADER_LEN
    && Num(r, 0, 4) == |r|
    && Num(r, 8, 8) == unique
    && (NumI32(r, 4) == 0 || (-125 <= NumI32(r, 4) <= -1 && |r| == OUT_HEADER_LEN))
  }

  lemma {:induction false} ReplyIsWellFormed(unique: u64, error: int, body: seq<byte>)
    requires -125 <= error <= 0
    requires OUT_HEADER_LEN + |body| < 0x1_0000_0000
    ensures WellFormed(Reply(unique, error, body), unique)
    ensures NumI32(Reply(unique, error, body), 4) == error
    ensures Reply(unique, error, body)[OUT_HEADER_LEN..] == if error == 0 then body else []
  {
    var b := if error == 0 then body else [];
    var code := if error < 0 then error + 0x1_0000_0000 else error;
    var l, e, u := Le(OUT_HEADER_LEN + |b|, 4), Le(code, 4), Le(unique, 8);
    assert Reply(unique, error, body) == l + e + u + b;
    assert FromLe(l) == OUT_HEADER_LEN + |b| && FromLe(e) == code && FromLe(u) == unique by {
      PowFacts();
      FromLeOfLe(OUT_HEADER_LEN + |b|, 4);
      FromLeOfLe(code, 4);
      FromLeOfLe(unique, 8);
    }
    HeaderMeaning(l, e, u, b, unique, error);
  }

  lemma {:induction false} HeaderMeaning(l: seq<byte>, e: seq<byte>, u: seq<byte>, b: seq<byte>, unique: u64,
                                         error: int)
    requires |l| == 4 && |e| == 4 && |u| == 8
    requires -125 <= error <= 0 && (error != 0 ==> b == [])
    requires FromLe(l) == OUT_HEADER_LEN + |b| && FromLe(u) == unique
    requires FromLe(e) == if error < 0 then error + 0x1_0000_0000 else error
    ensures var r := l + e + u + b;
            WellFormed(r, unique) && NumI32(r, 4) == error && r[OUT_HEADER_LEN..] == b
  {
    var r := l + e + u + b;
    assert r[0..4] == l && r[4..8] == e && r[8..16] == u && r[16..] == b;
  }

  /** The header-only form is what `Reply` puts in front of a body of that length. */
  lemma {:induction false} HeaderOnlyIsReplyHeader(unique: u64, body: seq<byte>)
    ensures Reply(unique, 0, body) == HeaderOnly(unique, (OUT_HEADER_LEN + |body|) % 0x1_0000_0000) + body
  {
  }
}
