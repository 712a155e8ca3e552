/**
 READDIR (fuse/dispatch.rs, fuse/wire.rs): directory entries encoded into a bounded reply, paged by
 offset over a snapshot taken by the first call on a handle.
 */
module Readdir {
  import opened Basics
  import opened Bytes
  import opened Inodes
  import F = Fs

  /** A directory entry as it travels: `off` is the offset at which the next one is found. */
  datatype Entry = Entry(ino: nat, off: nat, kind: nat, name: Name)

  function DtType(kind: FileKind): nat {
    match kind
    case Dir => 4
    case Regular => 8
    case Symlink => 10
    case Other => 0
  }

  /** A listing as the entries its pages are made of. */
  function Listed(entries: seq<F.DirEntry>): (l: seq<Entry>)
    ensures |l| == |entries|
  {
    seq(|entries|, i requires 0 <= i < |entries| =>
      Entry(entries[i].ino, i + 1, DtType(entries[i].kind), entries[i].name))
  }

  /** The entry on the wire is the directory's entry: its name, its inode number, its type in dirent codes. */
  predicate Stands(e: Entry, d: F.DirEntry) {
    && e.name == d.name && e.ino == d.ino
    && e.kind == (match d.kind case Dir => 4 case Regular => 8 case Symlink => 10 case Other => 0)
  }

  /** The entries stand for a beginning of the listing, one by one. */
  ghost predicate Begins(es: seq<Entry>, l: seq<F.DirEntry>) {
    |es| <= |l| && forall i :: 0 <= i < |es| ==> Stands(es[i], l[i])
  }

  lemma {:induction false} ListedStands(l: seq<F.DirEntry>, es: seq<Entry>)
    requires es <= Listed(l)
    ensures Begins(es, l)
  {
    forall i | 0 <= i < |es|
      ensures Stands(es[i], l[i])
    {
      assert es[i] == Listed(l)[i];
    }
  }

  // ---- Encoding and decoding ----

  /** Encoded length of an entry whose name has `n` bytes: header and name, rounded up to 8. */
  function Padded(n: nat): (p: nat)
    ensures 24 + n <= p < 24 + n + 8 && p % 8 == 0
  {
    (24 + n + 7) / 8 * 8
  }

  function Dirent(e: Entry): (d: seq<byte>)
    ensures |d| == Padded(|e.name|)
  {
    Le(e.ino, 8) + Le(e.off, 8) + Le(|e.name|, 4) + Le(e.kind, 4) + e.name
    + seq(Padded(|e.name|) - (24 + |e.name|), i => 0)
  }

  /** The client's decoding of a reply body. */
  function Decode(b: seq<byte>): (r: Option<seq<Entry>>)
    decreases |b|
  {
    if b == [] then Some([])
    else if |b| < 24 then None
    else
      var p := Padded(Num(b, 16, 4));
      if |b| < p then None
      else
        match Decode(b[p..])
        case None => None
        case Some(rest) =>
          Some([Entry(Num(b, 0, 8), Num(b, 8, 8), Num(b, 20, 4), b[24..24 + Num(b, 16, 4)])] + rest)
  }

  /** Every field fits its width on the wire. */
  ghost predicate Fits(e: Entry) {
    && e.ino < 0x1_0000_0000_0000_0000 && e.off < 0x1_0000_0000_0000_0000
    && e.kind < 0x1_0000_0000 && |e.name| < 0x1_0000_0000
  }

  /** How one entry is put on the wire, and how a whole reply body is read back. */
  type Encoder = Entry -> seq<byte>
  type Decoder = seq<byte> -> Option<seq<Entry>>

  /** The encodings of a list of entries, one after the other. */
  function Flatten(enc: Encoder, es: seq<Entry>): (b: seq<byte>) {
    if es == [] then [] else enc(es[0]) + Flatten(enc, es[1..])
  }

  lemma {:induction false} DirentSlices(a: seq<byte>, o: seq<byte>, l: seq<byte>, t: seq<byte>, name: Name,
                                        pad: seq<byte>, rest: seq<byte>)
    requires |a| == 8 && |o| == 8 && |l| == 4 && |t| == 4
    ensures var b := a + o + l + t + name + pad + rest;
            && b[0..8] == a && b[8..16] == o && b[16..20] == l && b[20..24] == t
            && b[24..24 + |name|] == name && b[24 + |name| + |pad|..] == rest
  {
  }

  lemma {:induction false} DirentFields(e: Entry, rest: seq<byte>)
    requires Fits(e)
    ensures var b := Dirent(e) + rest;
            && Num(b, 0, 8) == e.ino && Num(b, 8, 8) == e.off && Num(b, 16, 4) == |e.name| && Num(b, 20, 4) == e.kind
            && b[24..24 + |e.name|] == e.name && b[Padded(|e.name|)..] == rest
  {
    PowFacts();
    FromLeOfLe(e.ino, 8);
    FromLeOfLe(e.off, 8);
    FromLeOfLe(|e.name|, 4);
    FromLeOfLe(e.kind, 4);
    DirentSlices(Le(e.ino, 8), Le(e.off, 8), Le(|e.name|, 4), Le(e.kind, 4), e.name,
                 seq(Padded(|e.name|) - (24 + |e.name|), i => 0), rest);
  }

  lemma {:induction false} DecodeStep(e: Entry, rest: seq<byte>, es: seq<Entry>)
    requires Fits(e) && Decode(rest) == Some(es)
    ensures Decode(Dirent(e) + rest) == Some([e] + es)
  {
    DirentFields(e, rest);
  }

  /** Decoding undoes encoding, for every list of entries. */
  lemma {:induction false} DecodeOfEncode(es: seq<Entry>)
    requires forall i :: 0 <= i < |es| ==> Fits(es[i])
    ensures Decode(Flatten(Dirent, es)) == Some(es)
  {
    if es != [] {
      DecodeOfEncode(es[1..]);
      DecodeStep(es[0], Flatten(Dirent, es[1..]), es[1..]);
      assert es == [es[0]] + es[1..];
    }
  }

  // ---- One page: as many whole entries as fit ----

  /** The reply body for a request at position `i` with `room` bytes left. */
  function Page(enc: Encoder, l: seq<Entry>, i: nat, room: nat): (b: seq<byte>)
    ensures |b| <= room
    decreases |l| - i
  {
    if i >= |l| || |enc(l[i])| > room then []
    else enc(l[i]) + Page(enc, l, i + 1, room - |enc(l[i])|)
  }

  /** How many entries that page holds. */
  function PageCount(enc: Encoder, l: seq<Entry>, i: nat, room: nat): (m: nat)
    ensures i <= |l| ==> i + m <= |l|
    decreases |l| - i
  {
    if i >= |l| || |enc(l[i])| > room then 0
    else 1 + PageCount(enc, l, i + 1, room - |enc(l[i])|)
  }

  /** A page holds exactly the next `PageCount` entries, in order. */
  lemma {:induction false} PageIsFlatten(enc: Encoder, l: seq<Entry>, i: nat, room: nat)
    requires i <= |l|
    ensures Page(enc, l, i, room) == Flatten(enc, l[i..i + PageCount(enc, l, i, room)])
    decreases |l| - i
  {
    if i < |l| && |enc(l[i])| <= room {
      PageIsFlatten(enc, l, i + 1, room - |enc(l[i])|);
      var j := i + PageCount(enc, l, i, room);
      assert l[i..j][1..] == l[i + 1..j];
    }
  }

  /** A page is empty exactly at the end of the listing or when the next entry does not fit. */
  lemma {:induction false} EmptyPage(enc: Encoder, l: seq<Entry>, i: nat, room: nat)
    requires forall e :: enc(e) != []
    ensures Page(enc, l, i, room) == [] <==> i >= |l| || |enc(l[i])| > room
  {
  }

  /** Append one entry if it fits in `remaining` bytes; otherwise leave the buffer alone. */
  method PushDirent(out: seq<byte>, remaining: nat, e: Entry) returns (out': seq<byte>, fit: bool)
    ensures fit <==> |Dirent(e)| <= remaining
    ensures out' == if fit then out + Dirent(e) else out
  {
    var unpadded := 24 + |e.name|;
    var padded := (unpadded + 7) / 8 * 8;
    if padded > remaining {
      return out, false;
    }
    out' := out + (Le(e.ino, 8) + Le(e.off, 8) + Le(|e.name|, 4) + Le(e.kind, 4) + e.name + seq(padded - unpadded,
        i => 0));
    fit := true;
  }

  ghost predicate PageFrom(enc: Encoder, l: seq<Entry>, start: nat, size: nat, out: seq<byte>, i: nat) {
    |out| <= size && Page(enc, l, start, size) == out + Page(enc, l, i, size - |out|)
  }

  lemma {:induction false} PageAdvance(enc: Encoder, l: seq<Entry>, start: nat, size: nat, out: seq<byte>, i: nat)
    requires PageFrom(enc, l, start, size, out, i) && i < |l|
    ensures if |enc(l[i])| <= size - |out| then PageFrom(enc, l, start, size, out + enc(l[i]), i + 1)
            else Page(enc, l, start, size) == out
  {
    if |enc(l[i])| <= size - |out| {
      var rest := Page(enc, l, i + 1, size - |out| - |enc(l[i])|);
      assert out + (enc(l[i]) + rest) == (out + enc(l[i])) + rest;
    } else {
      assert out + [] == out;
    }
  }

  /** The reply loop; the room left, `size - |out|`, never goes below zero. */
  method FillPage(entries: seq<F.DirEntry>, start: nat, size: nat) returns (out: seq<byte>)
    ensures out == Page(Dirent, Listed(entries), start, size)
  {
    out := [];
    var i := start;
    while i < |entries|
      invariant PageFrom(Dirent, Listed(entries), start, size, out, i)
      decreases |entries| - i
    {
      PageAdvance(Dirent, Listed(entries), start, size, out, i);
      var remaining := size - |out|;
      var e := Entry(entries[i].ino, i + 1, DtType(entries[i].kind), entries[i].name);
      assert e == Listed(entries)[i];
      var fit;
      out, fit := PushDirent(out, remaining, e);
      if !fit {
        return;
      }
      i := i + 1;
    }
    assert out + [] == out;
  }

  // ---- The snapshot cache, and paging over it ----

  type Cache = map<nat, seq<F.DirEntry>>

  /** A listing is taken at offset 0 or when the handle has none yet. */
  function Snapshot(cache: Cache, fh: nat, offset: nat, listing: F.FsResult<seq<F.DirEntry>>): (c: Cache) {
    if (offset == 0 || fh !in cache) && listing.Ok? then cache[fh := listing.value] else cache
  }

  /** The reply body of one READDIR, from the snapshot in force. */
  function ReadBody(enc: Encoder, cache: Cache, fh: nat, offset: nat, size: nat,
                    listing: F.FsResult<seq<F.DirEntry>>): (r: F.FsResult<seq<byte>>)
  {
    if offset == 0 || fh !in cache then
      match listing
      case Err(e) => Err(e)
      case Ok(entries) => Ok(Page(enc, Listed(entries), offset, size))
    else Ok(Page(enc, Listed(cache[fh]), offset, size))
  }

  function DropSnapshot(cache: Cache, fh: nat): (c: Cache) {
    cache - {fh}
  }

  /** Requests on any handles; `take` is how many entries of the page the client goes on to use. */
  datatype Call =
    | ReadAt(fh: nat, offset: nat, size: nat, listing: F.FsResult<seq<F.DirEntry>>, take: nat)
    | Releasedir(fh: nat)

  /** The cache after a call. */
  function After(cache: Cache, c: Call): (cache': Cache) {
    match c
    case ReadAt(fh, off, _, l, _) => Snapshot(cache, fh, off, l)
    case Releasedir(fh) => DropSnapshot(cache, fh)
  }

  /** The entries the client decodes from one reply and goes on to use. */
  ghost function UsedOf(dec: Decoder, r: F.FsResult<seq<byte>>, take: nat): (s: seq<Entry>) {
    match r
    case Err(_) => []
    case Ok(b) =>
      match dec(b)
      case None => []
      case Some(es) => es[..Min(take, |es|)]
  }

  /** What a call on `fh` gives the client. */
  ghost function UsedBy(enc: Encoder, dec: Decoder, cache: Cache, c: Call, fh: nat): (s: seq<Entry>) {
    if c.fh == fh && c.ReadAt? then UsedOf(dec, ReadBody(enc, cache, fh, c.offset, c.size, c.listing), c.take) else []
  }

  /** Where the client asks next: the offset returned in the last entry it used. */
  ghost function NextOffset(used: seq<Entry>, before: nat): (at: nat) {
    if used == [] then before else used[|used| - 1].off
  }

  /**
   A client that reads handle `fh` on from offset `at`: each of its reads asks at the offset it last
   got, with any page size, and uses as much of the page as it likes; it does not release the handle.
   Calls on other handles are unrestricted.
   */
  ghost predicate Follows(enc: Encoder, dec: Decoder, cache: Cache, calls: seq<Call>, fh: nat, at: nat)
    decreases |calls|
  {
    calls == [] ||
    (var c := calls[0];
     && (c.fh == fh ==> c.ReadAt? && c.offset == at)
     && Follows(enc, dec, After(cache, c), calls[1..], fh, NextOffset(UsedBy(enc, dec, cache, c, fh), at)))
  }

  /** All entries of handle `fh` the client uses along the calls, in order. */
  ghost function Used(enc: Encoder, dec: Decoder, cache: Cache, calls: seq<Call>, fh: nat): (s: seq<Entry>)
    decreases |calls|
  {
    if calls == [] then []
    else UsedBy(enc, dec, cache, calls[0], fh) + Used(enc, dec, After(cache, calls[0]), calls[1..], fh)
  }

  function AfterAll(cache: Cache, calls: seq<Call>): (cache': Cache)
    decreases |calls|
  {
    if calls == [] then cache else AfterAll(After(cache, calls[0]), calls[1..])
  }

  /** The listing the client is reading: the last one taken for it at offset 0. */
  function InForce(l: seq<F.DirEntry>, calls: seq<Call>, fh: nat): (l': seq<F.DirEntry>)
    decreases |calls|
  {
    if calls == [] then l
    else
      var c := calls[0];
      InForce(if c.fh == fh && c.ReadAt? && c.offset == 0 && c.listing.Ok? then c.listing.value else l, calls[1..], fh)
  }

  /** Decoding undoes encoding on every stretch of the listing. */
  ghost predicate Codec(enc: Encoder, dec: Decoder, l: seq<Entry>) {
    forall i: nat, j: nat :: CodecAt(enc, dec, l, i, j)
  }

  ghost predicate CodecAt(enc: Encoder, dec: Decoder, l: seq<Entry>, i: nat, j: nat) {
    i <= j <= |l| ==> dec(Flatten(enc, l[i..j])) == Some(l[i..j])
  }

  /** A snapshot stays as it is until its own handle is read from the start or released. */
  lemma {:induction false} OtherHandles(cache: Cache, c: Call, fh: nat)
    requires fh in cache && (c.fh == fh ==> c.ReadAt? && c.offset > 0)
    ensures fh in After(cache, c) && After(cache, c)[fh] == cache[fh]
  {
  }

  /** What the client uses of a page is the next stretch of the listing, and the offset it got is its end. */
  lemma {:induction false} PageUsed(enc: Encoder, dec: Decoder, entries: seq<F.DirEntry>, pos: nat, size: nat,
                                    take: nat)
    requires Codec(enc, dec, Listed(entries)) && pos <= |entries|
    ensures var used := UsedOf(dec, Ok(Page(enc, Listed(entries), pos, size)), take);
            |used| == Min(take, PageCount(enc, Listed(entries), pos, size)) && Continues(Listed(entries), pos, used)
  {
    var l := Listed(entries);
    PageIsFlatten(enc, l, pos, size);
    var j := pos + PageCount(enc, l, pos, size);
    assert CodecAt(enc, dec, l, pos, j);
    TakeOf(l, pos, j, Min(take, j - pos));
  }

  lemma {:induction false} TakeOf<T>(l: seq<T>, pos: nat, j: nat, n: nat)
    requires pos + n <= j <= |l|
    ensures l[pos..j][..n] == l[pos..pos + n]
  {
  }

  /** The client had used `pos` entries of a listing; `used` are the next ones, and its offset tells. */
  ghost predicate Continues(l: seq<Entry>, pos: nat, used: seq<Entry>) {
    pos + |used| <= |l| && used == l[pos..pos + |used|] && NextOffset(used, pos) == pos + |used|
  }

  lemma {:induction false} ContinuesOn(l: seq<Entry>, pos: nat, used: seq<Entry>, rest: seq<Entry>)
    requires Continues(l, pos, used) && Continues(l, pos + |used|, rest)
    ensures Continues(l, pos, used + rest)
  {
    var mid, end := pos + |used|, pos + |used| + |rest|;
    assert l[pos..end] == l[pos..mid] + l[mid..end];
    if rest == [] {
      assert used + rest == used;
    } else {
      assert (used + rest)[|used| + |rest| - 1] == rest[|rest| - 1];
    }
  }

  /** Along calls that follow the offsets the snapshot stays. */
  lemma {:induction false} SnapshotStays(enc: Encoder, dec: Decoder, cache: Cache, calls: seq<Call>, fh: nat, pos: nat)
    requires fh in cache && Codec(enc, dec, Listed(cache[fh])) && 0 < pos <= |cache[fh]|
    requires Follows(enc, dec, cache, calls, fh, pos)
    ensures fh in AfterAll(cache, calls) && AfterAll(cache, calls)[fh] == cache[fh]
    ensures InForce(cache[fh], calls, fh) == cache[fh]
    decreases |calls|
  {
    if calls != [] {
      var c := calls[0];
      OtherHandles(cache, c, fh);
      var used := UsedBy(enc, dec, cache, c, fh);
      CallContinues(enc, dec, cache, c, fh, pos);
      SnapshotStays(enc, dec, After(cache, c), calls[1..], fh, pos + |used|);
    }
  }

  lemma {:induction false} CallContinues(enc: Encoder, dec: Decoder, cache: Cache, c: Call, fh: nat, pos: nat)
    requires fh in cache && Codec(enc, dec, Listed(cache[fh])) && 0 < pos <= |cache[fh]|
    requires c.fh == fh ==> c.ReadAt? && c.offset == pos
    ensures Continues(Listed(cache[fh]), pos, UsedBy(enc, dec, cache, c, fh))
  {
    if c.fh == fh {
      PageUsed(enc, dec, cache[fh], pos, c.size, c.take);
    }
  }

  /** From any position on: exactly the entries from there to where the returned offsets have led. */
  lemma {:induction false} PagingContinues(enc: Encoder, dec: Decoder, cache: Cache, calls: seq<Call>, fh: nat,
                                           pos: nat, l: seq<Entry>)
    requires fh in cache && l == Listed(cache[fh]) && Codec(enc, dec, l) && 0 < pos <= |l|
    requires Follows(enc, dec, cache, calls, fh, pos)
    ensures Continues(l, pos, Used(enc, dec, cache, calls, fh))
    decreases |calls|
  {
    if calls != [] {
      var c, cache1 := calls[0], After(cache, calls[0]);
      var used := UsedBy(enc, dec, cache, c, fh);
      assert fh in cache1 && cache1[fh] == cache[fh] by {
        OtherHandles(cache, c, fh);
      }
      assert Continues(l, pos, used) by {
        CallContinues(enc, dec, cache, c, fh, pos);
      }
      var rest := Used(enc, dec, cache1, calls[1..], fh);
      assert Continues(l, pos + |used|, rest) by {
        PagingContinues(enc, dec, cache1, calls[1..], fh, pos + |used|, l);
      }
      assert Used(enc, dec, cache, calls, fh) == used + rest;
      ContinuesOn(l, pos, used, rest);
    }
  }

  /** Every listing taken for `fh` at offset 0 can be encoded and decoded. */
  ghost predicate AllCodec(enc: Encoder, dec: Decoder, calls: seq<Call>, fh: nat) {
    forall i :: 0 <= i < |calls| && calls[i].fh == fh && calls[i].ReadAt? && calls[i].listing.Ok? ==>
      Codec(enc, dec, Listed(calls[i].listing.value))
  }

  /** What the client has used is the beginning of the listing it reads, and its offset says how much. */
  ghost predicate ReadsFromStart(enc: Encoder, dec: Decoder, cache: Cache, calls: seq<Call>, fh: nat,
                                 l: seq<F.DirEntry>) {
    var used, entries := Used(enc, dec, cache, calls, fh), InForce(l, calls, fh);
    && Continues(Listed(entries), 0, used)
    && (used != [] ==> fh in AfterAll(cache, calls) && AfterAll(cache, calls)[fh] == entries)
  }

  lemma {:induction false} PagingFromStart(enc: Encoder, dec: Decoder, cache: Cache, calls: seq<Call>, fh: nat,
                                           l: seq<F.DirEntry>)
    requires AllCodec(enc, dec, calls, fh) && Follows(enc, dec, cache, calls, fh, 0)
    ensures ReadsFromStart(enc, dec, cache, calls, fh, l)
    decreases |calls|
  {
    if calls != [] {
      var c := calls[0];
      var used, rest := UsedBy(enc, dec, cache, c, fh), Used(enc, dec, After(cache, c), calls[1..], fh);
      var l' := if c.fh == fh && c.listing.Ok? then c.listing.value else l;
      if c.fh == fh && c.listing.Ok? {
        PageUsed(enc, dec, l', 0, c.size, c.take);
      }
      if used == [] {
        PagingFromStart(enc, dec, After(cache, c), calls[1..], fh, l');
        assert used + rest == rest;
      } else {
        PagingContinues(enc, dec, After(cache, c), calls[1..], fh, |used|, Listed(l'));
        SnapshotStays(enc, dec, After(cache, c), calls[1..], fh, |used|);
        ContinuesOn(Listed(l'), 0, used, rest);
      }
    }
  }

  /** Offsets and name lengths fit their fields. */
  ghost predicate Encodable(entries: seq<F.DirEntry>) {
    && |entries| < 0x1_0000_0000_0000_0000
    && (forall i :: 0 <= i < |entries| ==> |entries[i].name| < 0x1_0000_0000)
  }

  /** If the call takes a listing for `fh`, it is one that can be encoded. */
  ghost predicate EncodableFor(c: Call, fh: nat) {
    c.fh == fh && c.ReadAt? && c.listing.Ok? ==> Encodable(c.listing.value)
  }

  /** Dirents decode on every listing whose names and offsets fit their fields. */
  lemma {:induction false} DirentCodec(entries: seq<F.DirEntry>)
    requires Encodable(entries)
    ensures Codec(Dirent, Decode, Listed(entries))
  {
    var l := Listed(entries);
    forall i: nat, j: nat
      ensures CodecAt(Dirent, Decode, l, i, j)
    {
      if i <= j <= |l| {
        DecodeOfEncode(l[i..j]);
      }
    }
  }

  /**
   Paging is lossless: a client that starts at offset 0 and asks on at whatever offset the last entry
   it used came with, with any page sizes, using any part of each page and whatever happens on other
   handles in between, decodes a beginning of the directory's listing, each entry exactly once and in
   order, with its own name, inode number and type, and its offset is how many it has used. As long as
   entries are left, a page with room for the next one starts with it, so that an empty page means the
   end; the same holds at the start.
   */
  lemma {:induction false} PagingLossless(cache: Cache, calls: seq<Call>, fh: nat, size: nat,
                                          listing: F.FsResult<seq<F.DirEntry>>)
    requires forall i :: 0 <= i < |calls| ==> EncodableFor(calls[i], fh)
    requires Follows(Dirent, Decode, cache, calls, fh, 0)
    ensures var used := Used(Dirent, Decode, cache, calls, fh);
            var l := InForce([], calls, fh);
            var at := NextOffset(used, 0);
            var next := UsedOf(Decode, ReadBody(Dirent, AfterAll(cache, calls), fh, at, size, listing), 1);
            && Begins(used, l) && at == |used|
            && (0 < |used| < |l| && Padded(|l[|used|].name|) <= size ==> next != [] && Begins(next, l[|used|..]))
            && (used == [] && listing.Ok? ==>
                  Encodable(listing.value) && listing.value != [] && Padded(|listing.value[0].name|) <= size ==>
                    next != [] && Begins(next, listing.value))
  {
    forall i | 0 <= i < |calls| && calls[i].fh == fh && calls[i].ReadAt? && calls[i].listing.Ok?
      ensures Codec(Dirent, Decode, Listed(calls[i].listing.value))
    {
      assert EncodableFor(calls[i], fh);
      DirentCodec(calls[i].listing.value);
    }
    PagingFromStart(Dirent, Decode, cache, calls, fh, []);
    InForceTaken(calls, fh, []);
    var used, entries := Used(Dirent, Decode, cache, calls, fh), InForce([], calls, fh);
    ListedStands(entries, used);
    if 0 < |used| < |entries| && Padded(|entries[|used|].name|) <= size {
      NextPage(entries, |used|, size);
    }
    if used == [] && listing.Ok? && Encodable(listing.value) && listing.value != []
        && Padded(|listing.value[0].name|) <= size {
      NextPage(listing.value, 0, size);
      assert listing.value[0..] == listing.value;
    }
  }

  /** Once all entries are used the next page is there and empty. */
  lemma {:induction false} PagingEnds(cache: Cache, calls: seq<Call>, fh: nat, size: nat,
                                      listing: F.FsResult<seq<F.DirEntry>>)
    requires forall i :: 0 <= i < |calls| ==> EncodableFor(calls[i], fh)
    requires Follows(Dirent, Decode, cache, calls, fh, 0)
    ensures var used := Used(Dirent, Decode, cache, calls, fh);
            used != [] && |used| == |InForce([], calls, fh)| ==>
              ReadBody(Dirent, AfterAll(cache, calls), fh, |used|, size, listing) == Ok([])
  {
    forall i | 0 <= i < |calls| && calls[i].fh == fh && calls[i].ReadAt? && calls[i].listing.Ok?
      ensures Codec(Dirent, Decode, Listed(calls[i].listing.value))
    {
      assert EncodableFor(calls[i], fh);
      DirentCodec(calls[i].listing.value);
    }
    PagingFromStart(Dirent, Decode, cache, calls, fh, []);
  }

  lemma {:induction false} NextPage(entries: seq<F.DirEntry>, pos: nat, size: nat)
    requires Encodable(entries) && pos < |entries| && Padded(|entries[pos].name|) <= size
    ensures var next := UsedOf(Decode, Ok(Page(Dirent, Listed(entries), pos, size)), 1);
            next != [] && Begins(next, entries[pos..])
  {
    DirentCodec(entries);
    PageUsed(Dirent, Decode, entries, pos, size, 1);
    assert Stands(Listed(entries)[pos], entries[pos]);
  }

  lemma {:induction false} InForceTaken(calls: seq<Call>, fh: nat, l: seq<F.DirEntry>)
    requires forall i :: 0 <= i < |calls| ==> EncodableFor(calls[i], fh)
    requires Encodable(l)
    ensures Encodable(InForce(l, calls, fh))
    decreases |calls|
  {
    if calls != [] {
      var c := calls[0];
      assert EncodableFor(c, fh);
      InForceTaken(calls[1..], fh, if c.fh == fh && c.ReadAt? && c.offset == 0
          && c.listing.Ok? then c.listing.value else l);
    }
  }
}
