/**
 The cached-location invariant (inode.rs, passthrough.rs): each tracked inode's cached
 `(parent, name)` still names its own file, so that reopening it by that location reaches the right
 file. Each operation is given the exact condition under which it keeps the invariant.
 */
module Location {
  import opened Basics
  import opened Inodes
  import F = Fs
  import E = Effects

  /** The cached location of `d` leads, through the tracked parent, to the file of `d`. */
  ghost predicate Resolves(s: F.State, d: Inode) {
    && d.parent.Some?
    && d.parent.value in s.inodes.byId
    && (s.inodes.byId[d.parent.value].key, d.name) in s.host.tree
    && s.host.tree[(s.inodes.byId[d.parent.value].key, d.name)] == d.key
  }

  /** The root is reopened by its own descriptor and needs no location. */
  ghost predicate IdLocated(s: F.State, id: nat) {
    id in s.inodes.byId && (id != ROOT_ID || s.inodes.byId[id].parent.Some?) ==> Resolves(s, s.inodes.byId[id])
  }

  /** The invariant. */
  ghost predicate Located(s: F.State) {
    forall id :: IdLocated(s, id)
  }

  ghost predicate TrackedAt(s: F.State, p: nat, n: Name) {
    exists id :: id in s.inodes.byId && s.inodes.byId[id].Located(p, n)
  }

  /** Cached names have no NUL byte, so every one of them can be passed to the kernel. */
  ghost predicate PlainAt(s: F.State, id: nat) {
    id in s.inodes.byId ==> 0 !in s.inodes.byId[id].name
  }

  ghost predicate Plain(s: F.State) {
    forall id :: PlainAt(s, id)
  }

  // ---- Consequences ----

  /** At most one inode has a given cached location, so the iteration order of `note_rename` is immaterial. */
  lemma {:induction false} AtMostOneAt(s: F.State, i: nat, j: nat, p: nat, n: Name)
    requires Located(s) && i in s.inodes.byId && j in s.inodes.byId
    requires s.inodes.byId[i].Located(p, n) && s.inodes.byId[j].Located(p, n)
    ensures i == j
  {
    assert IdLocated(s, i) && IdLocated(s, j) && IdOk(s.inodes, i) && IdOk(s.inodes, j);
  }

  lemma {:induction false} OrderImmaterial(s: F.State, o1: seq<nat>, o2: seq<nat>, p: nat, n: Name, p': nat, n': Name)
    requires Located(s)
    requires forall id :: id in s.inodes.byId ==> id in o1 && id in o2
    ensures NoteRename(s.inodes, o1, p, n, p', n') == NoteRename(s.inodes, o2, p, n, p', n')
  {
    var a, b := FirstAt(s.inodes, o1, p, n), FirstAt(s.inodes, o2, p, n);
    if a.Some? && b.Some? {
      AtMostOneAt(s, a.value, b.value, p, n);
    }
  }

  /** Reopening any tracked inode either fails in the kernel or reaches that inode's own file. */
  lemma {:induction false} ReopenReachesOwnFile(k: F.Kernel, s: F.State, ino: nat)
    requires Located(s) && Plain(s) && ino in s.inodes.byId
    ensures F.Reopened(k, s, ino) ==
              match k.fault(F.Reopen) case Some(e) => Err(e) case None => Ok(s.inodes.byId[ino].key)
  {
    assert IdLocated(s, ino) && PlainAt(s, ino);
  }

  /** Truncating a tracked inode resizes that inode's own file and no other. */
  lemma {:induction false} TruncationHitsOwnFile(k: F.Kernel, s: F.State, ino: nat, n: nat, others: bool)
    requires Located(s) && Plain(s) && ino in s.inodes.byId
    ensures var (s', r) := F.Setattr(k, s, ino, Some(n), others);
            var key := s.inodes.byId[ino].key;
            && s'.inodes == s.inodes && s'.host.tree == s.host.tree
            && (r.Ok? ==> E.CutTo(s.host.Contents(key), s'.host.Contents(key), n))
            && (forall other :: other != key ==> s'.host.Contents(other) == s.host.Contents(other))
            && (r.Err? ==> s'.host.Contents(key) == s.host.Contents(key)
                           || E.CutTo(s.host.Contents(key), s'.host.Contents(key), n))
  {
    ReopenReachesOwnFile(k, s, ino);
    E.SetattrEffect(k, s, ino, Some(n), others);
  }

  // ---- Operations ----

  datatype Op =
    | Lookup(p: nat, n: Name)
    | Make(call: F.Sys, p: nat, n: Name)
    | Create(p: nat, n: Name)
    | Link(ino: nat, p: nat, n: Name)
    | Rename(p: nat, n: Name, p': nat, n': Name)
    | Remove(rmdir: bool, p: nat, n: Name)
    | Forget(batch: seq<(nat, nat)>)
    | Open(dir: bool, ino: nat)
    | Release(h: nat)
    | Write(h: nat, off: nat, data: seq<byte>)
    | Setattr(ino: nat, size: Option<nat>, others: bool)

  function Step(k: F.Kernel, s: F.State, op: Op): (s': F.State)
  {
    match op
    case Lookup(p, n) => F.Lookup(k, s, p, n).0
    case Make(call, p, n) => F.MakeNode(k, s, call, p, n).0
    case Create(p, n) => F.Create(k, s, p, n).0
    case Link(ino, p, n) => F.Link(k, s, ino, p, n).0
    case Rename(p, n, p', n') => F.Rename(k, s, p, n, p', n').0
    case Remove(rmdir, p, n) => F.Remove(k, s, rmdir, p, n).0
    case Forget(batch) => F.DropBatch(s, batch)
    case Open(dir, ino) => F.OpenNode(k, s, dir, ino).0
    case Release(h) => F.ReleaseHandle(s, h).0
    case Write(h, off, data) => F.WriteFile(k, s, h, off, data).0
    case Setattr(ino, size, others) => F.Setattr(k, s, ino, size, others).0
  }

  /** Giving back this batch of references evicts the inode. */
  predicate Evicts(s: F.State, batch: seq<(nat, nat)>, id: nat) {
    id != ROOT_ID && id in s.inodes.byId && s.inodes.byId[id].lookups <= Total(batch, id)
  }

  /** The batch evicts the cached parent of an inode that stays. */
  predicate Orphans(s: F.State, batch: seq<(nat, nat)>, id: nat) {
    && id in s.inodes.byId && !Evicts(s, batch, id)
    && s.inodes.byId[id].parent.Some? && Evicts(s, batch, s.inodes.byId[id].parent.value)
  }

  /** The rename replaces a different file. */
  predicate Replaces(s: F.State, p: nat, n: Name, p': nat, n': Name) {
    && p in s.inodes.byId && p' in s.inodes.byId
    && var src, dst := (s.inodes.byId[p].key, n), (s.inodes.byId[p'].key, n');
       src in s.host.tree && dst in s.host.tree && s.host.tree[src] != s.host.tree[dst]
  }

  /** The removal takes place: known parent, valid name, no failure, an entry, and for rmdir an empty one. */
  predicate Removes(k: F.Kernel, s: F.State, rmdir: bool, p: nat, n: Name) {
    && p in s.inodes.byId && 0 !in n && k.fault(F.Unlinkat).None?
    && var e := (s.inodes.byId[p].key, n);
       e in s.host.tree && (rmdir ==> F.Empty(s.host, s.host.tree[e]))
  }

  /** The rename takes place: known parents, valid names, no failure, and an entry to rename. */
  predicate Moves(k: F.Kernel, s: F.State, p: nat, n: Name, p': nat, n': Name) {
    && p in s.inodes.byId && p' in s.inodes.byId && 0 !in n && 0 !in n' && k.fault(F.Renameat).None?
    && (s.inodes.byId[p].key, n) in s.host.tree
  }

  /**
   The exact condition for the invariant to survive: a removal must not hit a tracked inode's cached
   name, a rename must not replace one, and forgets must not evict the cached parent of an inode that
   stays. All other operations are always safe. Each can be decided before the call.
   */
  ghost predicate Safe(k: F.Kernel, s: F.State, op: Op) {
    match op
    case Remove(rmdir, p, n) => Removes(k, s, rmdir, p, n) ==> !TrackedAt(s, p, n)
    case Rename(p, n, p', n') => Moves(k, s, p, n, p', n') && Replaces(s, p, n, p', n') ==> !TrackedAt(s, p', n')
    case Forget(batch) => forall id: nat :: !Orphans(s, batch, id)
    case _ => true
  }

  lemma {:induction false} LookupKeeps(k: F.Kernel, s: F.State, p: nat, n: Name)
    requires Located(s)
    ensures Located(F.Lookup(k, s, p, n).0)
  {
    match F.DirOf(s, p, n)
    case Err(_) =>
    case Ok(dir) =>
      match F.OpenChild(k, s.host, dir, n)
      case Err(_) =>
      case Ok(key) =>
        RegisterKeepsWf(s.inodes, p, n, key, k.kind);
        var (t, id) := Register(s.inodes, p, n, key, k.kind);
        var s' := s.(inodes := t);
        forall i
          ensures IdLocated(s', i)
        {
          assert IdLocated(s, i);
        }
  }

  /** A new name for a file not seen before disturbs no cached location. */
  lemma {:induction false} NewEntryKeeps(s: F.State, host: F.Host)
    requires Located(s)
    requires forall e :: e in s.host.tree ==> e in host.tree && host.tree[e] == s.host.tree[e]
    ensures Located(s.(host := host))
  {
    var s' := s.(host := host);
    forall i
      ensures IdLocated(s', i)
    {
      assert IdLocated(s, i);
    }
  }

  lemma {:induction false} MakeKeeps(k: F.Kernel, s: F.State, call: F.Sys, p: nat, n: Name)
    requires Located(s)
    ensures Located(F.MakeNode(k, s, call, p, n).0)
  {
    match F.DirOf(s, p, n)
    case Err(_) =>
    case Ok(dir) =>
      match F.AddEntry(k, s, call, dir, n)
      case Err(_) =>
      case Ok(host) =>
        NewEntryKeeps(s, host);
        LookupKeeps(k, s.(host := host), p, n);
  }

  /** Open handles play no part in the invariant. */
  lemma {:induction false} HandlesKeep(s: F.State, hs: F.Handles)
    requires Located(s) && F.HandlesWf(hs)
    ensures Located(s.(handles := hs))
  {
    var s' := s.(handles := hs);
    forall i
      ensures IdLocated(s', i)
    {
      assert IdLocated(s, i);
    }
  }

  lemma {:induction false} RemoveExact(k: F.Kernel, s: F.State, rmdir: bool, p: nat, n: Name)
    requires Located(s)
    ensures Located(F.Remove(k, s, rmdir, p, n).0) <==> Safe(k, s, Remove(rmdir, p, n))
  {
    var (s', r) := F.Remove(k, s, rmdir, p, n);
    if r.Ok? {
      var dir := s.inodes.byId[p].key;
      if TrackedAt(s, p, n) {
        var id :| id in s.inodes.byId && s.inodes.byId[id].Located(p, n);
        assert !IdLocated(s', id);
      } else {
        forall i
          ensures IdLocated(s', i)
        {
          assert IdLocated(s, i) && IdOk(s.inodes, p);
          if i in s.inodes.byId && s.inodes.byId[i].parent.Some? {
            assert IdOk(s.inodes, s.inodes.byId[i].parent.value);
            assert !s.inodes.byId[i].Located(p, n);
          }
        }
      }
    }
  }

  lemma {:induction false} ForgetExact(k: F.Kernel, s: F.State, batch: seq<(nat, nat)>)
    requires Located(s)
    ensures Located(Step(k, s, Forget(batch))) <==> Safe(k, s, Forget(batch))
  {
    ForgetAllIsTotals(s.inodes, batch);
    var s' := Step(k, s, Forget(batch));
    assert forall id :: id in s'.inodes.byId <==> id in s.inodes.byId && !Evicts(s, batch, id);
    if id: nat :| Orphans(s, batch, id) {
      assert IdLocated(s, id) && !IdLocated(s', id);
    } else {
      forall i
        ensures IdLocated(s', i)
      {
        assert IdLocated(s, i);
        if i in s'.inodes.byId {
          assert !Orphans(s, batch, i);
        }
      }
    }
  }

  /** What a successful rename does to tree and table, given the invariant. */
  lemma {:induction false} RenameEffect(k: F.Kernel, s: F.State, p: nat, n: Name, p': nat, n': Name, i: nat)
    requires Located(s) && F.Rename(k, s, p, n, p', n').1.Ok? && i in s.inodes.byId
    ensures var s' := F.Rename(k, s, p, n, p', n').0;
            && s'.inodes.byId.Keys == s.inodes.byId.Keys
            && s'.inodes.byId[i].key == s.inodes.byId[i].key
            && (if s.inodes.byId[i].Located(p, n) then s'.inodes.byId[i].Located(p', n')
                else s'.inodes.byId[i] == s.inodes.byId[i])
  {
    var order := F.IterationOrder(k, s.inodes);
    var f := FirstAt(s.inodes, order, p, n);
    if s.inodes.byId[i].Located(p, n) {
      assert IdOk(s.inodes, i);
      F.OrderCovers(k, s.inodes, i);
      AtMostOneAt(s, f.value, i, p, n);
    }
  }

  lemma {:induction false} RenameKeeps(k: F.Kernel, s: F.State, p: nat, n: Name, p': nat, n': Name)
    requires Located(s) && F.Rename(k, s, p, n, p', n').1.Ok?
    requires Replaces(s, p, n, p', n') ==> !TrackedAt(s, p', n')
    ensures Located(F.Rename(k, s, p, n, p', n').0)
  {
    var s' := F.Rename(k, s, p, n, p', n').0;
    forall i
      ensures IdLocated(s', i)
    {
      RenameEffect(k, s, p, n, p', n', p');
      if i in s'.inodes.byId && (i != ROOT_ID || s'.inodes.byId[i].parent.Some?) {
        RenameEffect(k, s, p, n, p', n', i);
        assert IdLocated(s, i);
        RenameEffect(k, s, p, n, p', n', s.inodes.byId[i].parent.value);
        if !s.inodes.byId[i].Located(p, n) {
          RenameElsewhere(s, i, p, n, p', n');
        }
      }
    }
  }

  /** The entry behind a cached location other than the renamed one is where it was. */
  lemma {:induction false} RenameElsewhere(s: F.State, i: nat, p: nat, n: Name, p': nat, n': Name)
    requires Located(s) && i in s.inodes.byId && Resolves(s, s.inodes.byId[i])
    requires p in s.inodes.byId && p' in s.inodes.byId && (s.inodes.byId[p].key, n) in s.host.tree
    requires !s.inodes.byId[i].Located(p, n)
    requires Replaces(s, p, n, p', n') ==> !TrackedAt(s, p', n')
    ensures var d := s.inodes.byId[i];
            var src, dst := (s.inodes.byId[p].key, n), (s.inodes.byId[p'].key, n');
            var loc := (s.inodes.byId[d.parent.value].key, d.name);
            var tree := F.MoveEntry(s.host.tree, src, dst);
            loc in tree && tree[loc] == s.host.tree[loc]
  {
    var d := s.inodes.byId[i];
    var src, dst := (s.inodes.byId[p].key, n), (s.inodes.byId[p'].key, n');
    var loc := (s.inodes.byId[d.parent.value].key, d.name);
    assert IdOk(s.inodes, p) && IdOk(s.inodes, p') && IdOk(s.inodes, d.parent.value);
    if loc == dst {
      assert d.Located(p', n');
      assert TrackedAt(s, p', n');
    }
  }

  lemma {:induction false} RenameBreaks(k: F.Kernel, s: F.State, p: nat, n: Name, p': nat, n': Name)
    requires Located(s) && F.Rename(k, s, p, n, p', n').1.Ok?
    requires Replaces(s, p, n, p', n') && TrackedAt(s, p', n')
    ensures !Located(F.Rename(k, s, p, n, p', n').0)
  {
    var s' := F.Rename(k, s, p, n, p', n').0;
    var j :| j in s.inodes.byId && s.inodes.byId[j].Located(p', n');
    assert IdLocated(s, j);
    RenameEffect(k, s, p, n, p', n', j);
    RenameEffect(k, s, p, n, p', n', p');
    assert !IdLocated(s', j);
  }

  /** What goes wrong then: reopening the replaced inode reaches the file that was renamed over it. */
  lemma {:induction false} ReplacedInodeMisdirected(k: F.Kernel, s: F.State, p: nat, n: Name, p': nat, n': Name, j: nat)
    requires Located(s) && F.Rename(k, s, p, n, p', n').1.Ok? && Replaces(s, p, n, p', n')
    requires j in s.inodes.byId && j != ROOT_ID && s.inodes.byId[j].Located(p', n') && k.fault(F.Reopen).None?
    ensures F.Reopened(k, F.Rename(k, s, p, n, p', n').0, j) == Ok(s.host.tree[(s.inodes.byId[p].key, n)])
    ensures s.host.tree[(s.inodes.byId[p].key, n)] != s.inodes.byId[j].key
  {
    assert IdLocated(s, j);
    RenameEffect(k, s, p, n, p', n', j);
    RenameEffect(k, s, p, n, p', n', p');
  }

  /** Step by step: an operation keeps the invariant if and only if it is safe. */
  lemma {:induction false} StepExact(k: F.Kernel, s: F.State, op: Op)
    requires Located(s)
    ensures Located(Step(k, s, op)) <==> Safe(k, s, op)
  {
    match op
    case Lookup(p, n) => LookupKeeps(k, s, p, n);
    case Make(call, p, n) => MakeKeeps(k, s, call, p, n);
    case Create(p, n) => CreateKeeps(k, s, p, n);
    case Link(ino, p, n) => LinkKeeps(k, s, ino, p, n);
    case Rename(p, n, p', n') => RenameExact(k, s, p, n, p', n');
    case Remove(rmdir, p, n) => RemoveExact(k, s, rmdir, p, n);
    case Forget(batch) => ForgetExact(k, s, batch);
    case Open(dir, ino) => OpenKeeps(k, s, dir, ino);
    case Release(h) => HandlesKeep(s, F.RemoveHandle(s.handles, h).0);
    case Write(h, off, data) => NewEntryKeeps(s, Step(k, s, op).host);
    case Setattr(ino, size, others) => NewEntryKeeps(s, Step(k, s, op).host);
  }

  lemma {:induction false} RenameExact(k: F.Kernel, s: F.State, p: nat, n: Name, p': nat, n': Name)
    requires Located(s)
    ensures Located(F.Rename(k, s, p, n, p', n').0) <==> Safe(k, s, Rename(p, n, p', n'))
  {
    if F.Rename(k, s, p, n, p', n').1.Ok? {
      if Replaces(s, p, n, p', n') && TrackedAt(s, p', n') {
        RenameBreaks(k, s, p, n, p', n');
      } else {
        RenameKeeps(k, s, p, n, p', n');
      }
    }
  }

  lemma {:induction false} CreateKeeps(k: F.Kernel, s: F.State, p: nat, n: Name)
    requires Located(s)
    ensures Located(F.Create(k, s, p, n).0)
  {
    MakeKeeps(k, s, F.OpenExcl, p, n);
    var s1 := F.MakeNode(k, s, F.OpenExcl, p, n).0;
    F.InsertHandleIsFresh(s1.handles, F.File(k.newKey));
    HandlesKeep(s1, F.InsertHandle(s1.handles, F.File(k.newKey)).0);
  }

  lemma {:induction false} LinkKeeps(k: F.Kernel, s: F.State, ino: nat, p: nat, n: Name)
    requires Located(s)
    ensures Located(F.Link(k, s, ino, p, n).0)
  {
    var s' := F.Link(k, s, ino, p, n).0;
    NewEntryKeeps(s, s'.host);
  }

  lemma {:induction false} OpenKeeps(k: F.Kernel, s: F.State, dir: bool, ino: nat)
    requires Located(s)
    ensures Located(F.OpenNode(k, s, dir, ino).0)
  {
    match F.Reopened(k, s, ino)
    case Err(_) =>
    case Ok(key) =>
      var d := if dir then F.DirStream(key) else F.File(key);
      F.InsertHandleIsFresh(s.handles, d);
      HandlesKeep(s, F.InsertHandle(s.handles, d).0);
  }

  // ---- Whole runs ----

  /** Every state along a run has the invariant. */
  ghost predicate AlwaysLocated(s: F.State, ops: seq<(F.Kernel, Op)>)
    decreases |ops|
  {
    Located(s) && (ops == [] || AlwaysLocated(Step(ops[0].0, s, ops[0].1), ops[1..]))
  }

  /** Every operation of a run is safe where it happens. */
  ghost predicate AlwaysSafe(s: F.State, ops: seq<(F.Kernel, Op)>)
    decreases |ops|
  {
    ops == [] || (Safe(ops[0].0, s, ops[0].1) && AlwaysSafe(Step(ops[0].0, s, ops[0].1), ops[1..]))
  }

  /** Over whole runs: the invariant holds throughout exactly when every operation was safe. */
  lemma {:induction false} RunExact(s: F.State, ops: seq<(F.Kernel, Op)>)
    requires Located(s)
    ensures AlwaysLocated(s, ops) <==> AlwaysSafe(s, ops)
    decreases |ops|
  {
    if ops != [] {
      StepExact(ops[0].0, s, ops[0].1);
      var s1 := Step(ops[0].0, s, ops[0].1);
      if Located(s1) {
        RunExact(s1, ops[1..]);
      }
    }
  }

  /** A freshly opened share satisfies the invariant. */
  lemma {:induction false} InitLocated(rootKey: FileKey, host: F.Host)
    ensures var s := F.Raw(InitTable(rootKey), F.Handles(map[], 1), host); Located(s) && Plain(s)
  {
  }

  // ---- Reopening along a run ----

  lemma {:induction false} LookupKeepsPlain(k: F.Kernel, s: F.State, p: nat, n: Name)
    requires Plain(s)
    ensures Plain(F.Lookup(k, s, p, n).0)
  {
    var s' := F.Lookup(k, s, p, n).0;
    forall id
      ensures PlainAt(s', id)
    {
      assert PlainAt(s, id);
    }
  }

  lemma {:induction false} MakeKeepsPlain(k: F.Kernel, s: F.State, call: F.Sys, p: nat, n: Name)
    requires Plain(s)
    ensures Plain(F.MakeNode(k, s, call, p, n).0)
  {
    var dir := F.DirOf(s, p, n);
    if dir.Ok? && F.AddEntry(k, s, call, dir.value, n).Ok? {
      var s1 := s.(host := F.AddEntry(k, s, call, dir.value, n).value);
      SameTablePlain(s, s1);
      LookupKeepsPlain(k, s1, p, n);
    }
  }

  lemma {:induction false} RenameKeepsPlain(k: F.Kernel, s: F.State, p: nat, n: Name, p': nat, n': Name)
    requires Plain(s)
    ensures Plain(F.Rename(k, s, p, n, p', n').0)
  {
    var s' := F.Rename(k, s, p, n, p', n').0;
    forall id
      ensures PlainAt(s', id)
    {
      assert PlainAt(s, id);
    }
  }

  lemma {:induction false} SameTablePlain(s: F.State, s': F.State)
    requires Plain(s) && s'.inodes == s.inodes
    ensures Plain(s')
  {
    forall id
      ensures PlainAt(s', id)
    {
      assert PlainAt(s, id);
    }
  }

  lemma {:induction false} ForgetKeepsPlain(s: F.State, batch: seq<(nat, nat)>)
    requires Plain(s)
    ensures Plain(F.DropBatch(s, batch))
  {
    ForgetAllIsTotals(s.inodes, batch);
    forall i
      ensures PlainAt(F.DropBatch(s, batch), i)
    {
      assert PlainAt(s, i);
    }
  }

  /** No operation caches a name with a NUL byte. */
  lemma {:induction false} StepKeepsPlain(k: F.Kernel, s: F.State, op: Op)
    requires Plain(s)
    ensures Plain(Step(k, s, op))
  {
    match op
    case Lookup(p, n) => LookupKeepsPlain(k, s, p, n);
    case Make(call, p, n) => MakeKeepsPlain(k, s, call, p, n);
    case Create(p, n) =>
      MakeKeepsPlain(k, s, F.OpenExcl, p, n);
      SameTablePlain(F.MakeNode(k, s, F.OpenExcl, p, n).0, Step(k, s, op));
    case Rename(p, n, p', n') => RenameKeepsPlain(k, s, p, n, p', n');
    case Forget(batch) => ForgetKeepsPlain(s, batch);
    case _ => SameTablePlain(s, Step(k, s, op));
  }

  function After(s: F.State, ops: seq<(F.Kernel, Op)>): (s': F.State)
    decreases |ops|
  {
    if ops == [] then s else After(Step(ops[0].0, s, ops[0].1), ops[1..])
  }

  lemma {:induction false} KeptAlong(s: F.State, ops: seq<(F.Kernel, Op)>, i: nat)
    requires Located(s) && Plain(s) && AlwaysSafe(s, ops) && i <= |ops|
    ensures Located(After(s, ops[..i])) && Plain(After(s, ops[..i]))
    decreases |ops|
  {
    if i > 0 {
      StepExact(ops[0].0, s, ops[0].1);
      StepKeepsPlain(ops[0].0, s, ops[0].1);
      KeptAlong(Step(ops[0].0, s, ops[0].1), ops[1..], i - 1);
      assert ops[..i][1..] == ops[1..][..i - 1];
    }
  }

  /**
   From a freshly opened share, at every point of a run whose operations are all safe, reopening any
   tracked inode either fails in the kernel or reaches that inode's own file.
   */
  lemma {:induction false} ReopenAlongRuns(rootKey: FileKey, host: F.Host, ops: seq<(F.Kernel, Op)>, i: nat,
                                           k: F.Kernel, ino: nat)
    requires var s := F.Raw(InitTable(rootKey), F.Handles(map[], 1), host);
             AlwaysSafe(s, ops) && i <= |ops| && ino in After(s, ops[..i]).inodes.byId
    ensures var s := After(F.Raw(InitTable(rootKey), F.Handles(map[], 1), host), ops[..i]);
            F.Reopened(k, s, ino) ==
              match k.fault(F.Reopen) case Some(e) => Err(e) case None => Ok(s.inodes.byId[ino].key)
  {
    var s := F.Raw(InitTable(rootKey), F.Handles(map[], 1), host);
    InitLocated(rootKey, host);
    KeptAlong(s, ops, i);
    ReopenReachesOwnFile(k, After(s, ops[..i]), ino);
  }
}
