/**
 The passthrough file system as a value (passthrough.rs, handle.rs): inode table, open handles and
 the host directory tree and files underneath. What the host kernel decides freely (which call
 fails and how, how many bytes a transfer moves, which key a new file gets) is an input, `Kernel`;
 answers that no kernel could give are cut back to legal ones.
 */
module Fs {
  import opened Basics
  import opened Inodes

  const ENOENT := 2
  const EBADF := 9
  const EEXIST := 17
  const EINVAL := 22
  const ENOSPC := 28
  const ENOSYS := 38
  const ENOTEMPTY := 39

  /** Largest transfer of one pread or pwrite call. */
  const MAX_RW := 0x7fff_f000

  /** Offsets and sizes from here on are negative as a signed 64-bit number, and refused. */
  const OFF_LIMIT := 0x8000_0000_0000_0000

  type FsResult<T> = Result<T, int>

  datatype DirEntry = DirEntry(name: Name, ino: u64, kind: FileKind)

  datatype Sys =
    | Fstatat | Openat | OpenExcl | Mkdirat | Symlinkat | Unlinkat | Renameat | Linkat
    | Reopen | Getdents | Fstat | Ftruncate | Misc | Pread(len: nat) | Pwrite(len: nat)

  /** The host kernel's answers during one request. */
  datatype Kernel = Kernel(
    fault: Sys -> Option<int>,
    count: Sys -> nat,
    newKey: FileKey,
    kind: FileKind,
    attr: seq<byte>,
    listing: seq<DirEntry>,
    blob: seq<byte>,
    order: seq<nat>)

  /** Directory entries of the host tree, and file contents. */
  datatype Host = Host(tree: map<(FileKey, Name), FileKey>, files: map<FileKey, seq<byte>>) {
    function Contents(key: FileKey): seq<byte> {
      if key in files then files[key] else []
    }
  }

  datatype HandleData = File(key: FileKey) | DirStream(key: FileKey)

  datatype Handles = Handles(open: map<nat, HandleData>, nextId: nat)

  datatype Raw = Raw(inodes: Table, handles: Handles, host: Host)

  ghost predicate HandlesWf(hs: Handles) {
    forall h :: h in hs.open ==> h < hs.nextId
  }

  ghost predicate FsWf(s: Raw) {
    Wf(s.inodes) && HandlesWf(s.handles)
  }

  /** States with well-formed tables; every operation below maps these to these. */
  type State = s: Raw | FsWf(s) ghost witness Raw(InitTable(FileKey(0, 0)), Handles(map[], 1), Host(map[], map[]))

  // ---- Handles ----

  function InsertHandle(hs: Handles, d: HandleData): (r: (Handles, nat)) {
    (Handles(hs.open[hs.nextId := d], hs.nextId + 1), hs.nextId)
  }

  function RemoveHandle(hs: Handles, h: nat): (r: (Handles, FsResult<HandleData>)) {
    if h in hs.open then (hs.(open := hs.open - {h}), Ok(hs.open[h])) else (hs, Err(EBADF))
  }

  function FileOf(hs: Handles, h: nat): (r: FsResult<FileKey>) {
    if h !in hs.open then Err(EBADF)
    else match hs.open[h]
      case File(key) => Ok(key)
      case DirStream(_) => Err(EINVAL)
  }

  function StreamOf(hs: Handles, h: nat): (r: FsResult<FileKey>) {
    if h !in hs.open then Err(EBADF)
    else match hs.open[h]
      case DirStream(key) => Ok(key)
      case File(_) => Err(EINVAL)
  }

  // ---- Names and directories ----

  /** The directory behind a node id, provided the name has no NUL byte. */
  function DirOf(s: State, parent: nat, name: Name): (r: FsResult<FileKey>) {
    if parent !in s.inodes.byId then Err(EBADF)
    else if 0 in name then Err(EINVAL)
    else Ok(s.inodes.byId[parent].key)
  }

  /** A key some live file, directory entry or open descriptor already stands for. */
  predicate KeyInUse(s: State, key: FileKey) {
    || key in s.inodes.byKey
    || (exists e :: e in s.host.tree && (e.0 == key || s.host.tree[e] == key))
    || (exists h :: h in s.handles.open && s.handles.open[h].key == key)
  }

  function OpenChild(k: Kernel, host: Host, dir: FileKey, name: Name): (r: FsResult<FileKey>) {
    if k.fault(Fstatat).Some? then Err(k.fault(Fstatat).value)
    else if (dir, name) !in host.tree then Err(ENOENT)
    else if k.fault(Openat).Some? then Err(k.fault(Openat).value)
    else Ok(host.tree[(dir, name)])
  }

  function Lookup(k: Kernel, s: State, parent: nat, name: Name): (r: (State, FsResult<nat>))
  {
    match DirOf(s, parent, name)
    case Err(e) => (s, Err(e))
    case Ok(dir) =>
      match OpenChild(k, s.host, dir, name)
      case Err(e) => (s, Err(e))
      case Ok(key) =>
        RegisterKeepsWf(s.inodes, parent, name, key, k.kind);
        var (t, id) := Register(s.inodes, parent, name, key, k.kind);
        (s.(inodes := t), Ok(id))
  }

  /** The host after a call that makes a new directory entry for a new file. */
  function AddEntry(k: Kernel, s: State, call: Sys, dir: FileKey, name: Name): (r: FsResult<Host>) {
    if k.fault(call).Some? then Err(k.fault(call).value)
    else if (dir, name) in s.host.tree then Err(EEXIST)
    else if KeyInUse(s, k.newKey) then Err(ENOSPC)
    else Ok(Host(s.host.tree[(dir, name) := k.newKey], s.host.files[k.newKey := []]))
  }

  /** mkdir and symlink: make the entry, then look it up. */
  function MakeNode(k: Kernel, s: State, call: Sys, parent: nat, name: Name): (r: (State, FsResult<nat>))
  {
    match DirOf(s, parent, name)
    case Err(e) => (s, Err(e))
    case Ok(dir) =>
      match AddEntry(k, s, call, dir, name)
      case Err(e) => (s, Err(e))
      case Ok(host) => Lookup(k, s.(host := host), parent, name)
  }

  /** The new inode and a handle on it. */
  function Create(k: Kernel, s: State, parent: nat, name: Name): (r: (State, FsResult<(nat, nat)>))
  {
    var (s1, r) := MakeNode(k, s, OpenExcl, parent, name);
    match r
    case Err(e) => (s1, Err(e))
    case Ok(id) =>
      var (hs, h) := InsertHandle(s1.handles, File(k.newKey));
      (s1.(handles := hs), Ok((id, h)))
  }

  predicate Empty(host: Host, dir: FileKey) {
    forall e :: e in host.tree ==> e.0 != dir
  }

  /** unlink (`rmdir` false) or rmdir (`rmdir` true, which needs an empty directory). */
  function Remove(k: Kernel, s: State, rmdir: bool, parent: nat, name: Name): (r: (State, FsResult<()>)) {
    match DirOf(s, parent, name)
    case Err(e) => (s, Err(e))
    case Ok(dir) =>
      if k.fault(Unlinkat).Some? then (s, Err(k.fault(Unlinkat).value))
      else if (dir, name) !in s.host.tree then (s, Err(ENOENT))
      else if rmdir && !Empty(s.host, s.host.tree[(dir, name)]) then (s, Err(ENOTEMPTY))
      else (s.(host := s.host.(tree := s.host.tree - {(dir, name)})), Ok(()))
  }

  /** renameat: nothing happens when both names already denote the same file. */
  function MoveEntry(tree: map<(FileKey, Name), FileKey>, src: (FileKey, Name),
                     dst: (FileKey, Name)): (t: map<(FileKey, Name), FileKey>)
    requires src in tree
  {
    if dst in tree && tree[dst] == tree[src] then tree else (tree - {src})[dst := tree[src]]
  }

  /** Every order the hash map may be iterated in: any listing first, then all ids. */
  function IterationOrder(k: Kernel, t: Table): (order: seq<nat>) {
    k.order + seq(t.nextId, i => i)
  }

  lemma {:induction false} OrderCovers(k: Kernel, t: Table, id: nat)
    requires id < t.nextId
    ensures id in IterationOrder(k, t)
  {
    assert IterationOrder(k, t)[|k.order| + id] == id;
  }

  function RenameTarget(s: State, p: nat, n: Name, p': nat, n': Name): (r: FsResult<(FileKey, FileKey)>) {
    if p !in s.inodes.byId || p' !in s.inodes.byId then Err(EBADF)
    else if 0 in n || 0 in n' then Err(EINVAL)
    else Ok((s.inodes.byId[p].key, s.inodes.byId[p'].key))
  }

  function Rename(k: Kernel, s: State, p: nat, n: Name, p': nat, n': Name): (r: (State, FsResult<()>)) {
    match RenameTarget(s, p, n, p', n')
    case Err(e) => (s, Err(e))
    case Ok(dirs) =>
      if k.fault(Renameat).Some? then (s, Err(k.fault(Renameat).value))
      else if (dirs.0, n) !in s.host.tree then (s, Err(ENOENT))
      else
        var host := s.host.(tree := MoveEntry(s.host.tree, (dirs.0, n), (dirs.1, n')));
        NoteRenameKeepsWf(s.inodes, IterationOrder(k, s.inodes), p, n, p', n');
        var t := NoteRename(s.inodes, IterationOrder(k, s.inodes), p, n, p', n');
        (Raw(t, s.handles, host), Ok(()))
  }

  /** A further name for a tracked file; the inode table is not told. */
  function Link(k: Kernel, s: State, ino: nat, p: nat, n: Name): (r: (State, FsResult<()>)) {
    if ino !in s.inodes.byId || p !in s.inodes.byId then (s, Err(EBADF))
    else if 0 in n then (s, Err(EINVAL))
    else if k.fault(Linkat).Some? then (s, Err(k.fault(Linkat).value))
    else
      var dst := (s.inodes.byId[p].key, n);
      if dst in s.host.tree then (s, Err(EEXIST))
      else
        var s1 := s.(host := s.host.(tree := s.host.tree[dst := s.inodes.byId[ino].key]));
        (s1, match k.fault(Fstat) case Some(e) => Err(e) case None => Ok(()))
  }

  // ---- Open files ----

  /** The file that reopening `ino` by its cached parent and name reaches. */
  function Reopened(k: Kernel, s: State, ino: nat): (r: FsResult<FileKey>) {
    if ino !in s.inodes.byId then Err(EBADF)
    else if ino == ROOT_ID then
      (match k.fault(Reopen) case Some(e) => Err(e) case None => Ok(s.inodes.byId[ino].key))
    else
      var d := s.inodes.byId[ino];
      var p := match d.parent case Some(p) => p case None => ROOT_ID;
      if p !in s.inodes.byId then Err(EBADF)
      else if 0 in d.name then Err(EINVAL)
      else if k.fault(Reopen).Some? then Err(k.fault(Reopen).value)
      else if (s.inodes.byId[p].key, d.name) !in s.host.tree then Err(ENOENT)
      else Ok(s.host.tree[(s.inodes.byId[p].key, d.name)])
  }

  function OpenNode(k: Kernel, s: State, dir: bool, ino: nat): (r: (State, FsResult<nat>)) {
    match Reopened(k, s, ino)
    case Err(e) => (s, Err(e))
    case Ok(key) =>
      var (hs, h) := InsertHandle(s.handles, if dir then DirStream(key) else File(key));
      (s.(handles := hs), Ok(h))
  }

  /** How many bytes a read of at most `len` at `off` moves: at least one unless nothing is there. */
  function ReadCount(k: Kernel, size: nat, off: nat, len: nat): (n: nat)
    ensures n <= len && off + n <= Max(off, size) && n <= MAX_RW
    ensures n == 0 <==> len == 0 || off >= size
  {
    var avail := Min(Min(len, Max(size - off, 0)), MAX_RW);
    if avail == 0 then 0 else Max(1, Min(k.count(Pread(len)), avail))
  }

  function ReadFile(k: Kernel, s: State, h: nat, off: nat, len: nat): (r: FsResult<seq<byte>>)
    ensures r.Ok? ==> |r.value| <= len && |r.value| <= MAX_RW
  {
    match FileOf(s.handles, h)
    case Err(e) => Err(e)
    case Ok(key) =>
      if off >= OFF_LIMIT then Err(EINVAL)
      else if k.fault(Pread(len)).Some? then Err(k.fault(Pread(len)).value)
      else
        var c := s.host.Contents(key);
        var n := ReadCount(k, |c|, off, len);
        if n == 0 then Ok([]) else Ok(c[off..off + n])
  }

  /** `data` written at `off`, with a hole of zeros if that is past the end. */
  function Overwritten(c: seq<byte>, off: nat, data: seq<byte>): (c': seq<byte>) {
    if data == [] then c
    else if off > |c| then c + seq(off - |c|, i => 0) + data
    else c[..off] + data + (if off + |data| < |c| then c[off + |data|..] else [])
  }

  function WriteFile(k: Kernel, s: State, h: nat, off: nat, data: seq<byte>): (r: (State, FsResult<nat>))
    ensures r.1.Ok? ==> r.1.value <= |data| && r.1.value <= MAX_RW
  {
    match FileOf(s.handles, h)
    case Err(e) => (s, Err(e))
    case Ok(key) =>
      if off >= OFF_LIMIT then (s, Err(EINVAL))
      else if k.fault(Pwrite(|data|)).Some? then (s, Err(k.fault(Pwrite(|data|)).value))
      else
        var n := Min(Min(k.count(Pwrite(|data|)), |data|), MAX_RW);
        var c := Overwritten(s.host.Contents(key), off, data[..n]);
        (s.(host := s.host.(files := s.host.files[key := c])), Ok(n))
  }

  // ---- Attributes ----

  /** Cut off or filled up with zeros to `n` bytes. */
  function Resized(c: seq<byte>, n: nat): (c': seq<byte>)
    ensures |c'| == n
  {
    if n <= |c| then c[..n] else c + seq(n - |c|, i => 0)
  }

  /** Truncation goes by the cached location, like an open. */
  function TruncatedHost(k: Kernel, s: State, ino: nat, size: Option<nat>): (r: FsResult<Host>) {
    match size
    case None => Ok(s.host)
    case Some(n) =>
      match Reopened(k, s, ino)
      case Err(e) => Err(e)
      case Ok(key) =>
        if n >= OFF_LIMIT then Err(EINVAL)
        else if k.fault(Ftruncate).Some? then Err(k.fault(Ftruncate).value)
        else Ok(s.host.(files := s.host.files[key := Resized(s.host.Contents(key), n)]))
  }

  /** Mode, owner and times go by the cached parent and name; then the attributes are read back. */
  function SetOthers(k: Kernel, s: State, ino: nat, others: bool): (r: FsResult<()>)
    requires ino in s.inodes.byId
  {
    var d := s.inodes.byId[ino];
    var p := match d.parent case Some(p) => p case None => ROOT_ID;
    if others && p !in s.inodes.byId then Err(EBADF)
    else if others && 0 in d.name then Err(EINVAL)
    else if others && k.fault(Misc).Some? then Err(k.fault(Misc).value)
    else match k.fault(Fstat) case Some(e) => Err(e) case None => Ok(())
  }

  /** `size` is set if asked for, then whatever else is. */
  function Setattr(k: Kernel, s: State, ino: nat, size: Option<nat>, others: bool): (r: (State, FsResult<()>)) {
    if ino !in s.inodes.byId then (s, Err(EBADF))
    else
      match TruncatedHost(k, s, ino, size)
      case Err(e) => (s, Err(e))
      case Ok(host) =>
        var s1 := s.(host := host);
        (s1, SetOthers(k, s1, ino, others))
  }

  function ListDir(k: Kernel, s: State, h: nat): (r: FsResult<seq<DirEntry>>) {
    match StreamOf(s.handles, h)
    case Err(e) => Err(e)
    case Ok(_) => (match k.fault(Getdents) case Some(e) => Err(e) case None => Ok(k.listing))
  }

  function ReleaseHandle(s: State, h: nat): (r: (State, FsResult<()>)) {
    var (hs, r) := RemoveHandle(s.handles, h);
    (s.(handles := hs), match r case Err(e) => Err(e) case Ok(_) => Ok(()))
  }

  // ---- References ----

  function DropRefs(s: State, id: nat, count: nat): (s': State) {
    ForgetKeepsWf(s.inodes, id, count);
    s.(inodes := Forget(s.inodes, id, count))
  }

  function DropBatch(s: State, batch: seq<(nat, nat)>): (s': State) {
    ForgetAllKeepsWf(s.inodes, batch);
    s.(inodes := ForgetAll(s.inodes, batch))
  }

  /** A handle id is new when it is issued, and stays out of reach of every later one. */
  lemma {:induction false} InsertHandleIsFresh(hs: Handles, d: HandleData)
    requires HandlesWf(hs)
    ensures var (hs', h) := InsertHandle(hs, d);
            HandlesWf(hs') && h !in hs.open && hs'.open[h] == d && hs'.nextId > hs.nextId && h < hs'.nextId
  {
  }
}
