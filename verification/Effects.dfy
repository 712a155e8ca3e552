/**
 What the operations of the passthrough file system do (passthrough.rs, handle.rs), each stated on
 directory entries, file contents, open handles and inode table: when it fails and with which errno,
 what it changes on success, and that nothing else moves.
 */
module Effects {
  import opened Basics
  import opened Inodes
  import F = Fs

  /** The two maps agree, but for what they say of `k`. */
  ghost predicate Elsewhere<K(!new), V(!new)>(m: map<K, V>, m': map<K, V>, k: K) {
    forall j: K :: j != k ==> (j in m <==> j in m') && (j in m ==> m'[j] == m[j])
  }

  /** The host kernel's verdict on a call, and what comes after it. */
  function Call(k: F.Kernel, call: F.Sys, next: Option<int>): (e: Option<int>) {
    match k.fault(call) case None => next case Some(e) => Some(e)
  }

  ghost predicate FailsBy<T>(r: F.FsResult<T>, e: Option<int>) {
    if e.Some? then r == Err(e.value) else r.Ok?
  }

  // ---- Handles ----

  /** Which file a handle stands for: 9 if it is not open, 22 if it is open as the other kind. */
  lemma {:induction false} HandleKinds(hs: F.Handles, h: nat)
    ensures F.FileOf(hs, h) == if h !in hs.open then Err(9) else if hs.open[h].DirStream? then Err(22)
                               else Ok(hs.open[h].key)
    ensures F.StreamOf(hs, h) == if h !in hs.open then Err(9) else if hs.open[h].File? then Err(22)
                                 else Ok(hs.open[h].key)
  {
  }

  /** The cached parent, or the root where there is none. */
  function ParentOf(d: Inode): (p: nat) {
    match d.parent case Some(p) => p case None => 1
  }

  /** Why reopening a node fails: the root by its own descriptor, others by cached parent and name. */
  function ReopenFails(k: F.Kernel, s: F.State, ino: nat): (e: Option<int>) {
    if ino !in s.inodes.byId then Some(9)
    else if ino == 1 then Call(k, F.Reopen, None)
    else
      var d := s.inodes.byId[ino];
      if ParentOf(d) !in s.inodes.byId then Some(9)
      else if 0 in d.name then Some(22)
      else Call(k, F.Reopen, if (s.inodes.byId[ParentOf(d)].key, d.name) !in s.host.tree then Some(2) else None)
  }

  /** Reopening reaches what the cached location leads to now. */
  lemma {:induction false} ReopenEffect(k: F.Kernel, s: F.State, ino: nat)
    ensures var r := F.Reopened(k, s, ino);
            && FailsBy(r, ReopenFails(k, s, ino))
            && (r.Ok? ==>
                  var d := s.inodes.byId[ino];
                  r.value == if ino == 1 then d.key else s.host.tree[(s.inodes.byId[ParentOf(d)].key, d.name)])
  {
  }

  /** An open makes one new handle, of the kind asked for, on the file that reopening the node reaches. */
  lemma {:induction false} OpenEffect(k: F.Kernel, s: F.State, dir: bool, ino: nat)
    ensures var (s', r) := F.OpenNode(k, s, dir, ino);
            match F.Reopened(k, s, ino)
            case Err(e) => r == Err(e) && s' == s
            case Ok(key) =>
              && r.Ok? && r.value !in s.handles.open && r.value in s'.handles.open
              && s'.handles.open[r.value] == (if dir then F.DirStream(key) else F.File(key))
              && Elsewhere(s.handles.open, s'.handles.open, r.value)
              && s'.inodes == s.inodes && s'.host == s.host
  {
    F.InsertHandleIsFresh(s.handles, F.File(FileKey(0, 0)));
  }

  /** A release closes the handle it names and no other; 9 if it is not open. */
  lemma {:induction false} ReleaseEffect(s: F.State, h: nat)
    ensures var (s', r) := F.ReleaseHandle(s, h);
            && r == (if h in s.handles.open then Ok(()) else Err(9))
            && h !in s'.handles.open && Elsewhere(s.handles.open, s'.handles.open, h)
            && s'.handles.nextId == s.handles.nextId && s'.inodes == s.inodes && s'.host == s.host
  {
  }

  // ---- Names ----

  /** Why a call on the name `n` in directory `p` fails before it is made. */
  function NameFails(s: F.State, p: nat, n: Name): (e: Option<int>) {
    if p !in s.inodes.byId then Some(9) else if 0 in n then Some(22) else None
  }

  /** Why a lookup fails. */
  function LookupFails(k: F.Kernel, s: F.State, p: nat, n: Name): (e: Option<int>) {
    if NameFails(s, p, n).Some? then NameFails(s, p, n)
    else Call(k, F.Fstatat, if (s.inodes.byId[p].key, n) !in s.host.tree then Some(2) else Call(k, F.Openat, None))
  }

  /** A lookup finds the file at the name, tracks it at that name, and touches no other inode. */
  lemma {:induction false} LookupEffect(k: F.Kernel, s: F.State, p: nat, n: Name)
    ensures var (s', r) := F.Lookup(k, s, p, n);
            && FailsBy(r, LookupFails(k, s, p, n)) && (r.Err? ==> s' == s)
            && s'.host == s.host && s'.handles == s.handles
            && (r.Ok? ==>
                  && r.value in s'.inodes.byId && s'.inodes.byId[r.value].Located(p, n)
                  && s'.inodes.byId[r.value].key == s.host.tree[(s.inodes.byId[p].key, n)]
                  && Elsewhere(s.inodes.byId, s'.inodes.byId, r.value))
  {
    match F.DirOf(s, p, n)
    case Err(_) =>
    case Ok(dir) =>
      match F.OpenChild(k, s.host, dir, n)
      case Err(_) =>
      case Ok(key) => RegisterKeepsWf(s.inodes, p, n, key, k.kind);
  }

  /** Why making a new file, directory or symbolic link fails. */
  function MakeFails(k: F.Kernel, s: F.State, call: F.Sys, p: nat, n: Name): (e: Option<int>) {
    if NameFails(s, p, n).Some? then NameFails(s, p, n)
    else Call(k, call, if (s.inodes.byId[p].key, n) in s.host.tree then Some(17)
                       else if F.KeyInUse(s, k.newKey) then Some(28) else None)
  }

  /** The entry `(dir, n)` now stands for an empty file of its own, and all else is as it was. */
  ghost predicate Made(host: F.Host, host': F.Host, dir: FileKey, n: Name, key: FileKey) {
    && (dir, n) !in host.tree && (dir, n) in host'.tree && host'.tree[(dir, n)] == key
    && Elsewhere(host.tree, host'.tree, (dir, n))
    && host'.Contents(key) == [] && Elsewhere(host.files, host'.files, key)
  }

  /**
   mkdir, symlink and the first half of create: one new entry for a file that was not there, and the
   inode that tracks it. If looking it up fails the entry stays all the same.
   */
  lemma {:induction false} MakeEffect(k: F.Kernel, s: F.State, call: F.Sys, p: nat, n: Name)
    ensures var (s', r) := F.MakeNode(k, s, call, p, n);
            && s'.handles == s.handles
            && (match MakeFails(k, s, call, p, n)
                case Some(e) => r == Err(e) && s' == s
                case None =>
                  && Made(s.host, s'.host, s.inodes.byId[p].key, n, k.newKey)
                  && FailsBy(r, Call(k, F.Fstatat, Call(k, F.Openat, None)))
                  && (r.Err? ==> s'.inodes == s.inodes)
                  && (r.Ok? ==>
                        && r.value !in s.inodes.byId && r.value in s'.inodes.byId
                        && s'.inodes.byId[r.value].key == k.newKey && s'.inodes.byId[r.value].Located(p, n)
                        && Elsewhere(s.inodes.byId, s'.inodes.byId, r.value)))
  {
    if MakeFails(k, s, call, p, n).None? {
      var s1 := s.(host := F.AddEntry(k, s, call, s.inodes.byId[p].key, n).value);
      LookupEffect(k, s1, p, n);
      RegisterKeepsWf(s.inodes, p, n, k.newKey, k.kind);
    }
  }

  /** create: what mkdir does, and a handle of a regular file on the file just made. */
  lemma {:induction false} CreateEffect(k: F.Kernel, s: F.State, p: nat, n: Name)
    ensures var (s1, made) := F.MakeNode(k, s, F.OpenExcl, p, n);
            var (s', r) := F.Create(k, s, p, n);
            match made
            case Err(e) => r == Err(e) && s' == s1
            case Ok(id) =>
              && r.Ok? && r.value.0 == id && s'.inodes == s1.inodes && s'.host == s1.host
              && r.value.1 !in s.handles.open && r.value.1 in s'.handles.open
              && s'.handles.open[r.value.1] == F.File(s'.inodes.byId[id].key)
              && Elsewhere(s.handles.open, s'.handles.open, r.value.1)
  {
    MakeEffect(k, s, F.OpenExcl, p, n);
    F.InsertHandleIsFresh(s.handles, F.File(k.newKey));
  }

  /** Why a removal fails: 2 for no such entry, 39 for a directory that is not empty. */
  function RemoveFails(k: F.Kernel, s: F.State, rmdir: bool, p: nat, n: Name): (e: Option<int>) {
    if NameFails(s, p, n).Some? then NameFails(s, p, n)
    else
      var e := (s.inodes.byId[p].key, n);
      Call(k, F.Unlinkat, if e !in s.host.tree then Some(2)
                          else if rmdir && (exists c :: c in s.host.tree && c.0 == s.host.tree[e]) then Some(39)
                          else None)
  }

  /** A removal takes the one entry away; the file, its inode and its handles stay. */
  lemma {:induction false} RemoveEffect(k: F.Kernel, s: F.State, rmdir: bool, p: nat, n: Name)
    ensures var (s', r) := F.Remove(k, s, rmdir, p, n);
            && FailsBy(r, RemoveFails(k, s, rmdir, p, n)) && (r.Err? ==> s' == s)
            && s'.inodes == s.inodes && s'.handles == s.handles && s'.host.files == s.host.files
            && (r.Ok? ==>
                  var e := (s.inodes.byId[p].key, n);
                  e !in s'.host.tree && Elsewhere(s.host.tree, s'.host.tree, e))
  {
  }

  /** Why a rename fails. */
  function RenameFails(k: F.Kernel, s: F.State, p: nat, n: Name, p': nat, n': Name): (e: Option<int>) {
    if p !in s.inodes.byId || p' !in s.inodes.byId then Some(9)
    else if 0 in n || 0 in n' then Some(22)
    else Call(k, F.Renameat, if (s.inodes.byId[p].key, n) !in s.host.tree then Some(2) else None)
  }

  /** The entry at `src` is at `dst` now and nowhere else, unless both stood for one file before. */
  ghost predicate Moved(tree: map<(FileKey, Name), FileKey>, tree': map<(FileKey, Name), FileKey>,
                        src: (FileKey, Name), dst: (FileKey, Name))
    requires src in tree
  {
    && dst in tree' && tree'[dst] == tree[src]
    && (if dst in tree && tree[dst] == tree[src] then tree' == tree else src !in tree')
    && (forall e :: e != src && e != dst ==> (e in tree <==> e in tree') && (e in tree ==> tree'[e] == tree[e]))
  }

  /** A rename moves one entry; ids, keys and handles stay, and files keep their contents. */
  lemma {:induction false} RenameEffect(k: F.Kernel, s: F.State, p: nat, n: Name, p': nat, n': Name)
    ensures var (s', r) := F.Rename(k, s, p, n, p', n');
            && FailsBy(r, RenameFails(k, s, p, n, p', n')) && (r.Err? ==> s' == s)
            && s'.handles == s.handles && s'.host.files == s.host.files
            && s'.inodes.byId.Keys == s.inodes.byId.Keys && s'.inodes.byKey == s.inodes.byKey
            && (r.Ok? ==> Moved(s.host.tree, s'.host.tree, (s.inodes.byId[p].key, n), (s.inodes.byId[p'].key, n')))
  {
    NoteRenameKeepsWf(s.inodes, F.IterationOrder(k, s.inodes), p, n, p', n');
  }

  /** Why a link is not made. */
  function LinkFails(k: F.Kernel, s: F.State, ino: nat, p: nat, n: Name): (e: Option<int>) {
    if ino !in s.inodes.byId then Some(9)
    else if NameFails(s, p, n).Some? then NameFails(s, p, n)
    else Call(k, F.Linkat, if (s.inodes.byId[p].key, n) in s.host.tree then Some(17) else None)
  }

  /** A link enters the file of `ino` under one more name and tells the inode table nothing. */
  lemma {:induction false} LinkEffect(k: F.Kernel, s: F.State, ino: nat, p: nat, n: Name)
    ensures var (s', r) := F.Link(k, s, ino, p, n);
            && s'.inodes == s.inodes && s'.handles == s.handles && s'.host.files == s.host.files
            && (match LinkFails(k, s, ino, p, n)
                case Some(e) => r == Err(e) && s' == s
                case None =>
                  var e := (s.inodes.byId[p].key, n);
                  && FailsBy(r, Call(k, F.Fstat, None))
                  && e !in s.host.tree && e in s'.host.tree && s'.host.tree[e] == s.inodes.byId[ino].key
                  && Elsewhere(s.host.tree, s'.host.tree, e))
  {
  }

  // ---- File contents ----

  /** `data` is what a read of at most `len` bytes at `off` may return of a file holding `c`. */
  predicate PartOf(c: seq<byte>, off: nat, len: nat, data: seq<byte>) {
    && |data| <= len
    && (if len == 0 || off >= |c| then data == []
        else data != [] && off + |data| <= |c| && data == c[off..off + |data|])
  }

  /** A read returns bytes of the handle's own file from the offset on, and some if there are any. */
  lemma {:induction false} ReadEffect(k: F.Kernel, s: F.State, h: nat, off: nat, len: nat)
    ensures match F.ReadFile(k, s, h, off, len)
            case Err(e) =>
              Some(e) == if h !in s.handles.open then Some(9)
                         else if s.handles.open[h].DirStream? || off >= 0x8000_0000_0000_0000 then Some(22)
                         else k.fault(F.Pread(len))
            case Ok(data) =>
              && h in s.handles.open && s.handles.open[h].File? && off < 0x8000_0000_0000_0000
              && k.fault(F.Pread(len)).None?
              && PartOf(s.host.Contents(s.handles.open[h].key), off, len, data)
  {
  }

  /** `c'` is `c` with `data` at `off`: before and after it as it was, a gap filled with zeros. */
  ghost predicate Overlaid(c: seq<byte>, c': seq<byte>, off: nat, data: seq<byte>) {
    if data == [] then c' == c
    else
      && |c'| == Max(|c|, off + |data|)
      && forall i :: 0 <= i < |c'| ==>
           c'[i] == if off <= i < off + |data| then data[i - off] else if i < |c| then c[i] else 0
  }

  lemma {:induction false} OverwrittenHolds(c: seq<byte>, off: nat, data: seq<byte>)
    ensures Overlaid(c, F.Overwritten(c, off, data), off, data)
  {
  }

  /** A write puts the bytes it reports into the handle's own file, and changes nothing else. */
  lemma {:induction false} WriteEffect(k: F.Kernel, s: F.State, h: nat, off: nat, data: seq<byte>)
    ensures var (s', r) := F.WriteFile(k, s, h, off, data);
            && s'.inodes == s.inodes && s'.handles == s.handles && s'.host.tree == s.host.tree
            && (match r
                case Err(e) =>
                  && s' == s
                  && Some(e) == (if h !in s.handles.open then Some(9)
                                 else if s.handles.open[h].DirStream? || off >= 0x8000_0000_0000_0000 then Some(22)
                                 else k.fault(F.Pwrite(|data|)))
                case Ok(n) =>
                  && n <= |data| && h in s.handles.open && s.handles.open[h].File? && off < 0x8000_0000_0000_0000
                  && k.fault(F.Pwrite(|data|)).None?
                  && var key := s.handles.open[h].key;
                     && Overlaid(s.host.Contents(key), s'.host.Contents(key), off, data[..n])
                     && (forall other :: other != key ==> s'.host.Contents(other) == s.host.Contents(other)))
  {
    if F.WriteFile(k, s, h, off, data).1.Ok? {
      var n := F.WriteFile(k, s, h, off, data).1.value;
      OverwrittenHolds(s.host.Contents(s.handles.open[h].key), off, data[..n]);
    }
  }

  /** Reading anywhere within what was written gives those bytes, as many as the kernel returns. */
  lemma {:induction false} FileRoundTrip(kw: F.Kernel, kr: F.Kernel, s: F.State, h: nat, off: nat, data: seq<byte>,
                                         h2: nat, at: nat, len: nat)
    requires F.FileOf(s.handles, h) == F.FileOf(s.handles, h2)
    requires var w := F.WriteFile(kw, s, h, off, data).1; w.Ok? && off <= at && at + len <= off + w.value
    ensures var got := F.ReadFile(kr, F.WriteFile(kw, s, h, off, data).0, h2, at, len);
            got.Ok? ==> got.value == data[at - off..][..|got.value|] && (len > 0 ==> got.value != [])
  {
    var (s', w) := F.WriteFile(kw, s, h, off, data);
    WriteEffect(kw, s, h, off, data);
    ReadEffect(kr, s', h2, at, len);
    var got := F.ReadFile(kr, s', h2, at, len);
    if got.Ok? && len > 0 {
      var n, c := |got.value|, s'.host.Contents(s.handles.open[h].key);
      forall i | 0 <= i < n
        ensures got.value[i] == data[at - off..][..n][i]
      {
        assert got.value[i] == c[at + i];
      }
    }
  }

  /** `c'` is `c` cut off at `n` bytes, or filled up with zeros to them. */
  ghost predicate CutTo(c: seq<byte>, c': seq<byte>, n: nat) {
    |c'| == n && forall i :: 0 <= i < n ==> c'[i] == if i < |c| then c[i] else 0
  }

  /** Why a size is not set. */
  function CutFails(k: F.Kernel, s: F.State, ino: nat, size: Option<nat>): (e: Option<int>) {
    if ino !in s.inodes.byId then Some(9)
    else if size.None? then None
    else
      match F.Reopened(k, s, ino)
      case Err(e) => Some(e)
      case Ok(_) => if size.value >= 0x8000_0000_0000_0000 then Some(22) else Call(k, F.Ftruncate, None)
  }

  /** Why the other attributes are not set, or none can be read back. */
  function OthersFail(k: F.Kernel, s: F.State, ino: nat, others: bool): (e: Option<int>)
    requires ino in s.inodes.byId
  {
    if others && ParentOf(s.inodes.byId[ino]) !in s.inodes.byId then Some(9)
    else if others && 0 in s.inodes.byId[ino].name then Some(22)
    else if others then Call(k, F.Misc, Call(k, F.Fstat, None))
    else Call(k, F.Fstat, None)
  }

  /** Setting a size cuts the file that reopening the node reaches; other attributes are the kernel's. */
  lemma {:induction false} SetattrEffect(k: F.Kernel, s: F.State, ino: nat, size: Option<nat>, others: bool)
    ensures var (s', r) := F.Setattr(k, s, ino, size, others);
            && s'.inodes == s.inodes && s'.handles == s.handles && s'.host.tree == s.host.tree
            && (match CutFails(k, s, ino, size)
                case Some(e) => r == Err(e) && s' == s
                case None =>
                  && FailsBy(r, OthersFail(k, s, ino, others)) && (size.None? ==> s' == s)
                  && (size.Some? ==>
                        var key := F.Reopened(k, s, ino).value;
                        && CutTo(s.host.Contents(key), s'.host.Contents(key), size.value)
                        && (forall other :: other != key ==> s'.host.Contents(other) == s.host.Contents(other))))
  {
  }

  /** A listing is the kernel's, of a directory that is open as one: 9 if not open, 22 if it is a file. */
  lemma {:induction false} ListEffect(k: F.Kernel, s: F.State, h: nat)
    ensures F.ListDir(k, s, h) ==
            if h !in s.handles.open then Err(9) else if s.handles.open[h].File? then Err(22)
            else match k.fault(F.Getdents) case Some(e) => Err(e) case None => Ok(k.listing)
  {
  }
}
