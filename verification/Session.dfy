/**
 The objects behind a running share (handle.rs, passthrough.rs, fuse/dispatch.rs): the handle store,
 the passthrough file system and the session that dispatches requests to it. Every method is proved
 to do what the corresponding function of `Fs` or `Dispatch` says. The host kernel's answers during
 a request are the argument `k`.
 */
module Session {
  import opened Basics
  import opened Bytes
  import opened Inodes
  import W = Wire
  import F = Fs
  import R = Readdir
  import D = Dispatch

  class HandleStore {
    var open: map<nat, F.HandleData>
    var nextId: nat

    function View(): (hs: F.Handles)
      reads this
    {
      F.Handles(open, nextId)
    }

    constructor ()
      ensures View() == F.Handles(map[], 1)
    {
      open := map[];
      nextId := 1;
    }

    method Insert(d: F.HandleData) returns (h: nat)
      modifies this
      ensures (View(), h) == F.InsertHandle(old(View()), d)
    {
      h := nextId;
      nextId := nextId + 1;
      open := open[h := d];
    }

    method Remove(h: nat) returns (r: F.FsResult<F.HandleData>)
      modifies this
      ensures (View(), r) == F.RemoveHandle(old(View()), h)
    {
      if h !in open {
        return Err(F.EBADF);
      }
      r := Ok(open[h]);
      open := open - {h};
    }
  }

  class PassthroughFs {
    /** The state the objects below represent. */
    ghost var state: F.State

    const inodes: InodeStore
    const handles: HandleStore
    var host: F.Host

    ghost function Repr(): (s: set<object>)
      reads this, inodes
    {
      {this, inodes, handles} + inodes.entries
    }

    ghost predicate Valid()
      reads this, inodes, handles, inodes.entries
    {
      && inodes.Valid()
      && inodes.table == state.inodes && handles.View() == state.handles && host == state.host
    }

    constructor (rootKey: FileKey, h: F.Host)
      ensures Valid() && state == F.Raw(InitTable(rootKey), F.Handles(map[], 1), h)
      ensures fresh(Repr())
    {
      inodes := new InodeStore(rootKey);
      handles := new HandleStore();
      host := h;
      state := F.Raw(InitTable(rootKey), F.Handles(map[], 1), h);
    }

    /** The descriptor of a node's directory, when the name is usable. */
    method DirOf(parent: nat, name: Name) returns (r: F.FsResult<FileKey>)
      requires Valid()
      ensures r == F.DirOf(state, parent, name)
    {
      var d := inodes.Get(parent);
      if d.None? {
        return Err(F.EBADF);
      }
      if 0 in name {
        return Err(F.EINVAL);
      }
      r := Ok(d.value.key);
    }

    method Lookup(k: F.Kernel, parent: nat, name: Name) returns (r: F.FsResult<nat>)
      requires Valid()
      modifies Repr()
      ensures Valid() && fresh(Repr() - old(Repr()))
      ensures (state, r) == F.Lookup(k, old(state), parent, name)
    {
      var dir :- DirOf(parent, name);
      var key :- F.OpenChild(k, host, dir, name);
      assert Wf(state.inodes);
      var d := inodes.RegisterChild(parent, name, key, k.kind);
      r := Ok(d.id);
      state := F.Lookup(k, state, parent, name).0;
    }

    method MakeNode(k: F.Kernel, call: F.Sys, parent: nat, name: Name) returns (r: F.FsResult<nat>)
      requires Valid()
      modifies Repr()
      ensures Valid() && fresh(Repr() - old(Repr()))
      ensures (state, r) == F.MakeNode(k, old(state), call, parent, name)
    {
      var dir :- DirOf(parent, name);
      var made :- F.AddEntry(k, F.Raw(inodes.Current(), handles.View(), host), call, dir, name);
      host := made;
      state := state.(host := made);
      r := Lookup(k, parent, name);
    }

    method Create(k: F.Kernel, parent: nat, name: Name) returns (r: F.FsResult<(nat, nat)>)
      requires Valid()
      modifies Repr()
      ensures Valid() && fresh(Repr() - old(Repr()))
      ensures (state, r) == F.Create(k, old(state), parent, name)
    {
      ghost var s' := F.Create(k, state, parent, name).0;
      var made := MakeNode(k, F.OpenExcl, parent, name);
      if made.Err? {
        return Err(made.error);
      }
      var h := handles.Insert(F.File(k.newKey));
      state := s';
      r := Ok((made.value, h));
    }

    method Remove(k: F.Kernel, rmdir: bool, parent: nat, name: Name) returns (r: F.FsResult<()>)
      requires Valid()
      modifies this
      ensures Valid() && (state, r) == F.Remove(k, old(state), rmdir, parent, name)
    {
      ghost var s' := F.Remove(k, state, rmdir, parent, name).0;
      var dir :- DirOf(parent, name);
      if k.fault(F.Unlinkat).Some? {
        return Err(k.fault(F.Unlinkat).value);
      }
      if (dir, name) !in host.tree {
        return Err(F.ENOENT);
      }
      if rmdir && !F.Empty(host, host.tree[(dir, name)]) {
        return Err(F.ENOTEMPTY);
      }
      host := host.(tree := host.tree - {(dir, name)});
      state := s';
      r := Ok(());
    }

    method Rename(k: F.Kernel, p: nat, n: Name, p': nat, n': Name) returns (r: F.FsResult<()>)
      requires Valid()
      modifies Repr()
      ensures Valid() && Repr() == old(Repr())
      ensures (state, r) == F.Rename(k, old(state), p, n, p', n')
    {
      ghost var s' := F.Rename(k, state, p, n, p', n').0;
      var from := inodes.Get(p);
      if from.None? {
        return Err(F.EBADF);
      }
      var to := inodes.Get(p');
      if to.None? {
        return Err(F.EBADF);
      }
      if 0 in n || 0 in n' {
        return Err(F.EINVAL);
      }
      if k.fault(F.Renameat).Some? {
        return Err(k.fault(F.Renameat).value);
      }
      if (from.value.key, n) !in host.tree {
        return Err(F.ENOENT);
      }
      host := host.(tree := F.MoveEntry(host.tree, (from.value.key, n), (to.value.key, n')));
      inodes.NoteRenameIn(F.IterationOrder(k, inodes.Current()), p, n, p', n');
      state := s';
      r := Ok(());
    }

    method Link(k: F.Kernel, ino: nat, p: nat, n: Name) returns (r: F.FsResult<()>)
      requires Valid()
      modifies this
      ensures Valid() && (state, r) == F.Link(k, old(state), ino, p, n)
    {
      ghost var s' := F.Link(k, state, ino, p, n).0;
      var d := inodes.Get(ino);
      if d.None? {
        return Err(F.EBADF);
      }
      var dir := inodes.Get(p);
      if dir.None? {
        return Err(F.EBADF);
      }
      if 0 in n {
        return Err(F.EINVAL);
      }
      if k.fault(F.Linkat).Some? {
        return Err(k.fault(F.Linkat).value);
      }
      if (dir.value.key, n) in host.tree {
        return Err(F.EEXIST);
      }
      host := host.(tree := host.tree[(dir.value.key, n) := d.value.key]);
      state := s';
      r := if k.fault(F.Fstat).Some? then Err(k.fault(F.Fstat).value) else Ok(());
    }

    /** A new descriptor for a node, found again through its cached parent and name. */
    method ReopenViaParent(k: F.Kernel, ino: nat) returns (r: F.FsResult<FileKey>)
      requires Valid()
      ensures r == F.Reopened(k, state, ino)
    {
      var d := inodes.Get(ino);
      if d.None? {
        return Err(F.EBADF);
      }
      if ino == ROOT_ID {
        return if k.fault(F.Reopen).Some? then Err(k.fault(F.Reopen).value) else Ok(d.value.key);
      }
      var p := if d.value.parent.Some? then d.value.parent.value else ROOT_ID;
      var dir := inodes.Get(p);
      if dir.None? {
        return Err(F.EBADF);
      }
      if 0 in d.value.name {
        return Err(F.EINVAL);
      }
      if k.fault(F.Reopen).Some? {
        return Err(k.fault(F.Reopen).value);
      }
      if (dir.value.key, d.value.name) !in host.tree {
        return Err(F.ENOENT);
      }
      r := Ok(host.tree[(dir.value.key, d.value.name)]);
    }

    method OpenNode(k: F.Kernel, dir: bool, ino: nat) returns (r: F.FsResult<nat>)
      requires Valid()
      modifies this, handles
      ensures Valid() && (state, r) == F.OpenNode(k, old(state), dir, ino)
    {
      ghost var s' := F.OpenNode(k, state, dir, ino).0;
      var key :- ReopenViaParent(k, ino);
      var h := handles.Insert(if dir then F.DirStream(key) else F.File(key));
      state := s';
      r := Ok(h);
    }

    /** pread, and preadv for a vector of total length `len`. */
    method ReadFile(k: F.Kernel, h: nat, off: nat, len: nat) returns (r: F.FsResult<seq<byte>>)
      requires Valid()
      ensures r == F.ReadFile(k, state, h, off, len)
    {
      var key :- F.FileOf(handles.View(), h);
      if off >= F.OFF_LIMIT {
        return Err(F.EINVAL);
      }
      if k.fault(F.Pread(len)).Some? {
        return Err(k.fault(F.Pread(len)).value);
      }
      var c := host.Contents(key);
      var n := F.ReadCount(k, |c|, off, len);
      r := if n == 0 then Ok([]) else Ok(c[off..off + n]);
    }

    /** pwrite, and pwritev for a vector whose bytes are `data`. */
    method WriteFile(k: F.Kernel, h: nat, off: nat, data: seq<byte>) returns (r: F.FsResult<nat>)
      requires Valid()
      modifies this
      ensures Valid() && (state, r) == F.WriteFile(k, old(state), h, off, data)
    {
      ghost var s' := F.WriteFile(k, state, h, off, data).0;
      var key :- F.FileOf(handles.View(), h);
      if off >= F.OFF_LIMIT {
        return Err(F.EINVAL);
      }
      if k.fault(F.Pwrite(|data|)).Some? {
        return Err(k.fault(F.Pwrite(|data|)).value);
      }
      var n := Min(Min(k.count(F.Pwrite(|data|)), |data|), F.MAX_RW);
      host := host.(files := host.files[key := F.Overwritten(host.Contents(key), off, data[..n])]);
      state := s';
      r := Ok(n);
    }

    method Setattr(k: F.Kernel, ino: nat, size: Option<nat>, others: bool) returns (r: F.FsResult<()>)
      requires Valid()
      modifies this
      ensures Valid() && (state, r) == F.Setattr(k, old(state), ino, size, others)
    {
      ghost var s0 := state;
      var d := inodes.Get(ino);
      if d.None? {
        return Err(F.EBADF);
      }
      if size.Some? {
        var key :- ReopenViaParent(k, ino);
        if size.value >= F.OFF_LIMIT {
          return Err(F.EINVAL);
        }
        if k.fault(F.Ftruncate).Some? {
          return Err(k.fault(F.Ftruncate).value);
        }
        host := host.(files := host.files[key := F.Resized(host.Contents(key), size.value)]);
      }
      state := F.Setattr(k, s0, ino, size, others).0;
      r := SetOthers(k, ino, d.value, others);
    }

    /** Mode, owner and times by the cached parent and name, then the attributes read back. */
    method SetOthers(k: F.Kernel, ino: nat, d: InodeData, others: bool) returns (r: F.FsResult<()>)
      requires Valid() && ino in state.inodes.byId && d.View() == state.inodes.byId[ino]
      ensures r == F.SetOthers(k, state, ino, others)
    {
      if others {
        var p := match d.parent case Some(p) => p case None => ROOT_ID;
        var parent := inodes.Get(p);
        if parent.None? {
          return Err(F.EBADF);
        }
        if 0 in d.name {
          return Err(F.EINVAL);
        }
        if k.fault(F.Misc).Some? {
          return Err(k.fault(F.Misc).value);
        }
      }
      r := match k.fault(F.Fstat) case Some(e) => Err(e) case None => Ok(());
    }

    method ReleaseHandle(h: nat) returns (r: F.FsResult<()>)
      requires Valid()
      modifies this, handles
      ensures Valid() && (state, r) == F.ReleaseHandle(old(state), h)
    {
      ghost var s' := F.ReleaseHandle(state, h).0;
      var d := handles.Remove(h);
      state := s';
      r := if d.Err? then Err(d.error) else Ok(());
    }

    method DropRefs(id: nat, count: nat)
      requires Valid()
      modifies this, inodes, inodes.entries
      ensures Valid() && Repr() == old(Repr())
      ensures state == F.DropRefs(old(state), id, count)
    {
      ghost var s' := F.DropRefs(state, id, count);
      inodes.ForgetRefs(id, count);
      state := s';
    }

    method DropBatch(batch: seq<W.ForgetOne>)
      requires Valid()
      modifies this, inodes, inodes.entries
      ensures Valid() && Repr() == old(Repr())
      ensures state == F.DropBatch(old(state), D.Pairs(batch))
    {
      ghost var s0, pairs := state, D.Pairs(batch);
      assert pairs[0..] == pairs;
      for i := 0 to |batch|
        invariant Valid() && Repr() == old(Repr()) && inodes.entries == old(inodes.entries)
        invariant F.DropBatch(s0, pairs) == F.DropBatch(state, pairs[i..])
      {
        assert pairs[i..][0] == pairs[i] && pairs[i..][1..] == pairs[i + 1..];
        DropRefs(batch[i].nodeid, batch[i].nlookup);
      }
    }
  }

  /** One name after `fixed` bytes of other fields, read with the cursor. */
  method NameFromBytes(b: seq<byte>, fixed: nat) returns (r: Option<Name>)
    ensures r == D.ParseName(b, fixed)
  {
    var rd := new Reader(b);
    var skipped := rd.Skip(fixed);
    if skipped.Err? {
      return None;
    }
    var name := rd.Cstr();
    r := if name.Err? then None else Some(name.value);
  }

  /** Two names after `fixed` bytes of other fields, read with the cursor. */
  method NamesFromBytes(b: seq<byte>, fixed: nat) returns (r: Option<(Name, Name)>)
    ensures r == D.ParseNames(b, fixed)
  {
    var rd := new Reader(b);
    var skipped := rd.Skip(fixed);
    if skipped.Err? {
      return None;
    }
    var first := rd.Cstr();
    if first.Err? {
      return None;
    }
    var second := rd.Cstr();
    r := if second.Err? then None else Some((first.value, second.value));
  }

  /** The outcome on the wire: a success with its body, or a translated errno without one. */
  method EncodeReply(unique: u64, o: D.Outcome) returns (reply: D.Reply)
    ensures reply == D.Encode(unique, o)
  {
    if o.Silent? {
      return D.NoReply;
    }
    var b;
    if o.Answer? {
      b := W.BuildReply(unique, 0, o.body);
    } else {
      b := W.BuildReply(unique, -W.ToLinuxErrno(o.errno), []);
    }
    reply := D.Bytes(b);
  }

  class Session {
    const fs: PassthroughFs
    var cache: R.Cache

    ghost function Repr(): (s: set<object>)
      reads this, fs, fs.inodes
    {
      {this} + fs.Repr()
    }

    ghost predicate Valid()
      reads this, fs, fs.inodes, fs.handles, fs.inodes.entries
    {
      fs.Valid() && this !in fs.Repr()
    }

    /** What the session has come to. */
    ghost function View(): (s: D.State)
      reads this, fs
    {
      D.State(fs.state, cache)
    }

    constructor (f: PassthroughFs)
      requires f.Valid()
      ensures Valid() && fs == f && View() == D.State(f.state, map[])
    {
      fs := f;
      cache := map[];
    }

    // ---- Operations that name files ----

    method LookupOp(k: F.Kernel, nodeid: nat, body: seq<byte>) returns (o: D.Outcome)
      requires Valid()
      modifies fs.Repr()
      ensures Valid() && fresh(fs.Repr() - old(fs.Repr()))
      ensures (fs.state, o) == D.LookupOp(k, old(fs.state), nodeid, body)
    {
      var r := fs.Lookup(k, nodeid, D.TrimNul(body));
      o := D.Entry(k, r);
    }

    method MkdirOp(k: F.Kernel, nodeid: nat, body: seq<byte>) returns (o: D.Outcome)
      requires Valid()
      modifies fs.Repr()
      ensures Valid() && fresh(fs.Repr() - old(fs.Repr()))
      ensures (fs.state, o) == D.MkdirOp(k, old(fs.state), nodeid, body)
    {
      var name := NameFromBytes(body, 8);
      if name.None? {
        return D.Fail(F.EINVAL);
      }
      var r := fs.MakeNode(k, F.Mkdirat, nodeid, name.value);
      o := D.Entry(k, r);
    }

    method SymlinkOp(k: F.Kernel, nodeid: nat, body: seq<byte>) returns (o: D.Outcome)
      requires Valid()
      modifies fs.Repr()
      ensures Valid() && fresh(fs.Repr() - old(fs.Repr()))
      ensures (fs.state, o) == D.SymlinkOp(k, old(fs.state), nodeid, body)
    {
      var names := NamesFromBytes(body, 0);
      if names.None? {
        return D.Fail(F.EINVAL);
      }
      var r := fs.MakeNode(k, F.Symlinkat, nodeid, names.value.0);
      o := D.Entry(k, r);
    }

    method CreateOp(k: F.Kernel, nodeid: nat, body: seq<byte>) returns (o: D.Outcome)
      requires Valid()
      modifies fs.Repr()
      ensures Valid() && fresh(fs.Repr() - old(fs.Repr()))
      ensures (fs.state, o) == D.CreateOp(k, old(fs.state), nodeid, body)
    {
      var name := NameFromBytes(body, 16);
      if name.None? {
        return D.Fail(F.EINVAL);
      }
      var r := fs.Create(k, nodeid, name.value);
      o := match r
        case Err(e) => D.Fail(e)
        case Ok((id, h)) => D.Answer(D.EntryOut(id, k.attr) + D.OpenOut(h));
    }

    method LinkOp(k: F.Kernel, nodeid: nat, body: seq<byte>) returns (o: D.Outcome)
      requires Valid()
      modifies fs.Repr()
      ensures Valid() && fs.Repr() == old(fs.Repr())
      ensures (fs.state, o) == D.LinkOp(k, old(fs.state), nodeid, body)
    {
      var name := NameFromBytes(body, 8);
      if name.None? {
        return D.Fail(F.EINVAL);
      }
      var r := fs.Link(k, Num(body, 0, 8), nodeid, name.value);
      o := if r.Err? then D.Fail(r.error) else D.Answer(D.EntryOut(Num(body, 0, 8), k.attr));
    }

    method RemoveOp(k: F.Kernel, rmdir: bool, nodeid: nat, body: seq<byte>) returns (o: D.Outcome)
      requires Valid()
      modifies fs.Repr()
      ensures Valid() && fs.Repr() == old(fs.Repr())
      ensures (fs.state, o) == D.RemoveOp(k, old(fs.state), rmdir, nodeid, body)
    {
      var r := fs.Remove(k, rmdir, nodeid, D.TrimNul(body));
      o := D.Done(r);
    }

    method RenameOp(k: F.Kernel, fixed: nat, nodeid: nat, body: seq<byte>) returns (o: D.Outcome)
      requires Valid() && fixed >= 8
      modifies fs.Repr()
      ensures Valid() && fs.Repr() == old(fs.Repr())
      ensures (fs.state, o) == D.RenameOp(k, old(fs.state), fixed, nodeid, body)
    {
      var names := NamesFromBytes(body, fixed);
      if names.None? {
        return D.Fail(F.EINVAL);
      }
      var r := fs.Rename(k, nodeid, names.value.0, Num(body, 0, 8), names.value.1);
      o := D.Done(r);
    }

    // ---- Operations on open files and directories ----

    method OpenOp(k: F.Kernel, dir: bool, nodeid: nat, body: seq<byte>) returns (o: D.Outcome)
      requires Valid()
      modifies fs.Repr()
      ensures Valid() && fs.Repr() == old(fs.Repr())
      ensures (fs.state, o) == D.OpenOp(k, old(fs.state), dir, nodeid, body)
    {
      if |body| < 4 {
        return D.Fail(F.EINVAL);
      }
      var r := fs.OpenNode(k, dir, nodeid);
      o := D.Opened(r);
    }

    method ReadOp(k: F.Kernel, body: seq<byte>) returns (o: D.Outcome)
      requires Valid()
      ensures o == D.ReadOp(k, fs.state, body)
    {
      var i := W.ReadInFromBytes(body);
      if i.Err? {
        return D.Fail(F.EINVAL);
      }
      var r := fs.ReadFile(k, i.value.fh, i.value.offset, i.value.size);
      o := if r.Err? then D.Fail(r.error) else D.Answer(r.value);
    }

    method WriteOp(k: F.Kernel, body: seq<byte>) returns (o: D.Outcome)
      requires Valid()
      modifies fs.Repr()
      ensures Valid() && fs.Repr() == old(fs.Repr())
      ensures (fs.state, o) == D.WriteOp(k, old(fs.state), body)
    {
      var i := W.WriteInFromBytes(body);
      if i.Err? {
        return D.Fail(F.EINVAL);
      }
      var (w, data) := i.value;
      var r := fs.WriteFile(k, w.fh, w.offset, data[..Min(w.size, |data|)]);
      o := if r.Err? then D.Fail(r.error) else D.Answer(D.WriteOut(r.value));
    }

    method ReleaseOp(body: seq<byte>) returns (o: D.Outcome)
      requires Valid()
      modifies fs.Repr()
      ensures Valid() && fs.Repr() == old(fs.Repr())
      ensures (fs.state, o) == D.ReleaseOp(old(fs.state), body)
    {
      if |body| < 8 {
        return D.Fail(F.EINVAL);
      }
      var r := fs.ReleaseHandle(Num(body, 0, 8));
      o := D.Done(r);
    }

    method ReaddirOp(k: F.Kernel, body: seq<byte>) returns (o: D.Outcome)
      requires Valid()
      modifies this
      ensures Valid() && fs.state == old(fs.state)
      ensures (View(), o) == D.ReaddirOp(k, old(View()), body)
    {
      var i := W.ReadInFromBytes(body);
      if i.Err? {
        return D.Fail(F.EINVAL);
      }
      var fh, offset := i.value.fh, i.value.offset;
      if offset == 0 || fh !in cache {
        var stream := F.StreamOf(fs.handles.View(), fh);
        if stream.Err? {
          return D.Fail(stream.error);
        }
        if k.fault(F.Getdents).Some? {
          return D.Fail(k.fault(F.Getdents).value);
        }
        cache := cache[fh := k.listing];
      }
      var out := R.FillPage(cache[fh], offset, i.value.size);
      o := D.Answer(out);
    }

    method ReleasedirOp(body: seq<byte>) returns (o: D.Outcome)
      requires Valid()
      modifies Repr()
      ensures Valid() && Repr() == old(Repr())
      ensures (View(), o) == D.ReleasedirOp(old(View()), body)
    {
      if |body| >= 8 {
        cache := R.DropSnapshot(cache, Num(body, 0, 8));
      }
      o := ReleaseOp(body);
    }

    method FsyncOp(k: F.Kernel, body: seq<byte>) returns (o: D.Outcome)
      requires Valid()
      ensures o == D.FsyncOp(k, fs.state, body)
    {
      if |body| < 8 {
        return D.Fail(F.EINVAL);
      }
      var r := F.FileOf(fs.handles.View(), Num(body, 0, 8));
      o := if r.Err? then D.Fail(r.error) else D.Checked(k, []);
    }

    method SetattrOp(k: F.Kernel, nodeid: nat, body: seq<byte>) returns (o: D.Outcome)
      requires Valid()
      modifies fs.Repr()
      ensures Valid() && fs.Repr() == old(fs.Repr())
      ensures (fs.state, o) == D.SetattrOp(k, old(fs.state), nodeid, body)
    {
      if |body| < 84 {
        return D.Fail(F.EINVAL);
      }
      var mask := Num(body, 0, 4);
      var size := if mask / 8 % 2 == 1 then Some(Num(body, 16, 8)) else None;
      var others := mask % 8 != 0 || mask / 16 % 4 != 0 || mask / 128 % 4 != 0;
      var r := fs.Setattr(k, nodeid, size, others);
      o := if r.Err? then D.Fail(r.error) else D.Answer(D.AttrOut(k.attr));
    }

    // ---- Reference drops ----

    method ForgetOp(nodeid: nat, body: seq<byte>) returns (o: D.Outcome)
      requires Valid()
      modifies fs.Repr()
      ensures Valid() && fs.Repr() == old(fs.Repr())
      ensures (fs.state, o) == D.ForgetOp(old(fs.state), nodeid, body)
    {
      if |body| < 8 {
        return D.Fail(F.EINVAL);
      }
      fs.DropRefs(nodeid, Num(body, 0, 8));
      o := D.Silent;
    }

    method BatchForgetOp(body: seq<byte>) returns (o: D.Outcome)
      requires Valid()
      modifies fs.Repr()
      ensures Valid() && fs.Repr() == old(fs.Repr())
      ensures (fs.state, o) == D.BatchForgetOp(old(fs.state), body)
    {
      var batch := W.BatchForgetFromBytes(body);
      if batch.Err? {
        return D.Fail(F.EINVAL);
      }
      fs.DropBatch(batch.value);
      o := D.Silent;
    }

    // ---- The whole request ----

    method Run(k: F.Kernel, op: W.Opcode, nodeid: nat, body: seq<byte>) returns (o: D.Outcome)
      requires Valid()
      modifies Repr()
      ensures Valid() && fresh(Repr() - old(Repr()))
      ensures (View(), o) == D.Run(k, old(View()), op, nodeid, body)
    {
      if op == W.Lookup || op == W.Mkdir || op == W.Symlink || op == W.Create {
        o := RunMaking(k, op, nodeid, body);
      } else if op == W.Link || op == W.Unlink || op == W.Rmdir {
        o := RunLinking(k, op, nodeid, body);
      } else if op == W.Rename || op == W.Rename2 {
        o := RunRename(k, op, nodeid, body);
      } else {
        o := RunOpen(k, op, nodeid, body);
      }
    }

    method RunMaking(k: F.Kernel, op: W.Opcode, nodeid: nat, body: seq<byte>) returns (o: D.Outcome)
      requires Valid() && (op == W.Lookup || op == W.Mkdir || op == W.Symlink || op == W.Create)
      modifies fs.Repr()
      ensures Valid() && fresh(fs.Repr() - old(fs.Repr())) && cache == old(cache)
      ensures (View(), o) == D.Run(k, old(View()), op, nodeid, body)
    {
      if op == W.Lookup {
        o := LookupOp(k, nodeid, body);
      } else if op == W.Mkdir {
        o := MkdirOp(k, nodeid, body);
      } else if op == W.Symlink {
        o := SymlinkOp(k, nodeid, body);
      } else {
        o := CreateOp(k, nodeid, body);
      }
    }

    method RunLinking(k: F.Kernel, op: W.Opcode, nodeid: nat, body: seq<byte>) returns (o: D.Outcome)
      requires Valid() && (op == W.Link || op == W.Unlink || op == W.Rmdir)
      modifies fs.Repr()
      ensures Valid() && fs.Repr() == old(fs.Repr()) && cache == old(cache)
      ensures (View(), o) == D.Run(k, old(View()), op, nodeid, body)
    {
      if op == W.Link {
        o := LinkOp(k, nodeid, body);
      } else {
        o := RemoveOp(k, op == W.Rmdir, nodeid, body);
      }
    }

    method RunRename(k: F.Kernel, op: W.Opcode, nodeid: nat, body: seq<byte>) returns (o: D.Outcome)
      requires Valid() && (op == W.Rename || op == W.Rename2)
      modifies fs.Repr()
      ensures Valid() && fs.Repr() == old(fs.Repr()) && cache == old(cache)
      ensures (View(), o) == D.Run(k, old(View()), op, nodeid, body)
    {
      o := RenameOp(k, if op == W.Rename then 8 else 16, nodeid, body);
    }

    method RunOpen(k: F.Kernel, op: W.Opcode, nodeid: nat, body: seq<byte>) returns (o: D.Outcome)
      requires Valid()
      modifies Repr()
      ensures Valid() && Repr() == old(Repr())
      ensures (View(), o) == D.RunOpen(k, old(View()), op, nodeid, body)
    {
      if op == W.Open || op == W.Opendir {
        o := RunOpening(k, op, nodeid, body);
      } else if op == W.Read || op == W.Write || op == W.Release || op == W.Fsync {
        o := RunFile(k, op, nodeid, body);
      } else if op == W.Readdir || op == W.Releasedir {
        o := RunDir(k, op, nodeid, body);
      } else {
        o := RunRest(k, op, nodeid, body);
      }
    }

    method RunOpening(k: F.Kernel, op: W.Opcode, nodeid: nat, body: seq<byte>) returns (o: D.Outcome)
      requires Valid() && (op == W.Open || op == W.Opendir)
      modifies fs.Repr()
      ensures Valid() && fs.Repr() == old(fs.Repr()) && cache == old(cache)
      ensures (View(), o) == D.RunOpen(k, old(View()), op, nodeid, body)
    {
      o := OpenOp(k, op == W.Opendir, nodeid, body);
    }

    method RunFile(k: F.Kernel, op: W.Opcode, nodeid: nat, body: seq<byte>) returns (o: D.Outcome)
      requires Valid() && (op == W.Read || op == W.Write || op == W.Release || op == W.Fsync)
      modifies fs.Repr()
      ensures Valid() && fs.Repr() == old(fs.Repr()) && cache == old(cache)
      ensures (View(), o) == D.RunOpen(k, old(View()), op, nodeid, body)
    {
      if op == W.Read {
        o := ReadOp(k, body);
      } else if op == W.Write {
        o := WriteOp(k, body);
      } else if op == W.Release {
        o := ReleaseOp(body);
      } else {
        o := FsyncOp(k, body);
      }
    }

    method RunDir(k: F.Kernel, op: W.Opcode, nodeid: nat, body: seq<byte>) returns (o: D.Outcome)
      requires Valid() && (op == W.Readdir || op == W.Releasedir)
      modifies Repr()
      ensures Valid() && Repr() == old(Repr())
      ensures (View(), o) == D.RunOpen(k, old(View()), op, nodeid, body)
    {
      if op == W.Readdir {
        o := ReaddirOp(k, body);
      } else {
        o := ReleasedirOp(body);
      }
    }

    method RunRest(k: F.Kernel, op: W.Opcode, nodeid: nat, body: seq<byte>) returns (o: D.Outcome)
      requires Valid()
      modifies fs.Repr()
      ensures Valid() && fs.Repr() == old(fs.Repr()) && cache == old(cache)
      ensures (View(), o) == D.RunRest(k, old(View()), op, nodeid, body)
    {
      if op == W.Forget {
        o := ForgetOp(nodeid, body);
      } else if op == W.BatchForget {
        o := BatchForgetOp(body);
      } else if op == W.Setattr {
        o := SetattrOp(k, nodeid, body);
      } else {
        var d := fs.inodes.Get(nodeid);
        o := D.PlainOp(k, d.Some?, op, body);
      }
    }

    method Handle(k: F.Kernel, request: seq<byte>) returns (reply: D.Reply)
      requires Valid()
      modifies Repr()
      ensures Valid() && fresh(Repr() - old(Repr()))
      ensures (View(), reply) == D.Handle(k, old(View()), request)
    {
      var h := W.InHeaderFromBytes(request);
      if h.Err? {
        return D.NoReply;
      }
      var o := Run(k, W.OpcodeFrom(h.value.opcode), h.value.nodeid, W.Body(request));
      reply := EncodeReply(h.value.unique, o);
    }
  }
}
