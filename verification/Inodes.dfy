/**
 The inode table behind FUSE node ids (inode.rs): a reference-counted table with two indexes and a
 cached `(parent, name)` per inode. The table as a value comes first, with what every operation
 keeps and what whole runs guarantee; the store object that updates its entries in place is proved
 against it.
 */
module Inodes {
  import opened Basics

  const ROOT_ID: nat := 1

  type Name = seq<byte>

  datatype FileKind = Dir | Symlink | Regular | Other

  datatype FileKey = FileKey(dev: u64, ino: u64)

  datatype Inode = Inode(key: FileKey, kind: FileKind, parent: Option<nat>, name: Name, lookups: nat) {
    predicate Located(p: nat, n: Name) {
      parent == Some(p) && name == n
    }
  }

  datatype Table = Table(byId: map<nat, Inode>, byKey: map<FileKey, nat>, nextId: nat)

  function InitTable(rootKey: FileKey): (t: Table)
    ensures Wf(t)
  {
    Table(map[ROOT_ID := Inode(rootKey, Dir, None, [], 1)], map[rootKey := ROOT_ID], ROOT_ID + 1)
  }

  /** A tracked id was issued, is found under its own key, and is referenced unless it is the root. */
  ghost predicate IdOk(t: Table, id: nat) {
    id in t.byId ==>
      && id < t.nextId
      && t.byId[id].key in t.byKey && t.byKey[t.byId[id].key] == id
      && (id != ROOT_ID ==> t.byId[id].lookups > 0)
  }

  /** A known key leads to the inode that has it. */
  ghost predicate KeyOk(t: Table, k: FileKey) {
    k in t.byKey ==> t.byKey[k] in t.byId && t.byId[t.byKey[k]].key == k
  }

  /** The two indexes are inverse, the root is present, and every other entry is referenced. */
  ghost predicate Wf(t: Table) {
    ROOT_ID in t.byId && (forall id :: IdOk(t, id)) && (forall k :: KeyOk(t, k))
  }

  // ---- Operations ----

  /** Track a child, or add a reference to the inode already tracking the same file. */
  function Register(t: Table, parent: nat, name: Name, key: FileKey, kind: FileKind): (r: (Table, nat))
    requires KeyOk(t, key)
  {
    if key in t.byKey then
      var id := t.byKey[key];
      var d := t.byId[id];
      (t.(byId := t.byId[id := d.(parent := Some(parent), name := name, lookups := d.lookups + 1)]), id)
    else
      var id := t.nextId;
      (Table(t.byId[id := Inode(key, kind, Some(parent), name, 1)], t.byKey[key := id], id + 1), id)
  }

  function Forget(t: Table, id: nat, count: nat): (t': Table) {
    if id == ROOT_ID || id !in t.byId then t
    else if t.byId[id].lookups <= count then
      Table(t.byId - {id}, t.byKey - {t.byId[id].key}, t.nextId)
    else t.(byId := t.byId[id := t.byId[id].(lookups := t.byId[id].lookups - count)])
  }

  /** The first tracked id, in iteration order, whose cached location is `(p, n)`. */
  function FirstAt(t: Table, order: seq<nat>, p: nat, n: Name): (r: Option<nat>)
    ensures r.Some? ==> r.value in order && r.value in t.byId && t.byId[r.value].Located(p, n)
    ensures r.None? ==> forall id :: id in order && id in t.byId ==> !t.byId[id].Located(p, n)
  {
    if order == [] then None
    else if order[0] in t.byId && t.byId[order[0]].Located(p, n) then Some(order[0])
    else FirstAt(t, order[1..], p, n)
  }

  /** Move the cached location of the first inode found at the old one. */
  function NoteRename(t: Table, order: seq<nat>, p: nat, n: Name, p': nat, n': Name): (t': Table) {
    match FirstAt(t, order, p, n)
    case None => t
    case Some(id) => t.(byId := t.byId[id := t.byId[id].(parent := Some(p'), name := n')])
  }

  // ---- Every operation keeps the table well formed ----

  lemma {:induction false} RegisterKeepsWf(t: Table, parent: nat, name: Name, key: FileKey, kind: FileKind)
    requires Wf(t)
    ensures var (t', id) := Register(t, parent, name, key, kind);
            && Wf(t') && id in t'.byId
            && t'.byId[id].key == key && t'.byId[id].Located(parent, name)
            && (key in t.byKey ==> id == t.byKey[key] && t'.nextId == t.nextId)
            && (key !in t.byKey ==> id == t.nextId && t'.nextId == id + 1 && id !in t.byId)
  {
    var (t', id) := Register(t, parent, name, key, kind);
    assert KeyOk(t, key) && IdOk(t, id);
    forall i
      ensures IdOk(t', i)
    {
      assert IdOk(t, i);
    }
    forall k
      ensures KeyOk(t', k)
    {
      assert KeyOk(t, k);
    }
  }

  lemma {:induction false} ForgetKeepsWf(t: Table, id: nat, count: nat)
    requires Wf(t)
    ensures Wf(Forget(t, id, count)) && Forget(t, id, count).nextId == t.nextId
  {
    var t' := Forget(t, id, count);
    assert IdOk(t, id);
    forall i
      ensures IdOk(t', i)
    {
      assert IdOk(t, i);
    }
    forall k
      ensures KeyOk(t', k)
    {
      assert KeyOk(t, k);
    }
  }

  lemma {:induction false} NoteRenameKeepsWf(t: Table, order: seq<nat>, p: nat, n: Name, p': nat, n': Name)
    requires Wf(t)
    ensures var t' := NoteRename(t, order, p, n, p', n');
            Wf(t') && t'.nextId == t.nextId && t'.byKey == t.byKey && t'.byId.Keys == t.byId.Keys
  {
    var t' := NoteRename(t, order, p, n, p', n');
    forall i
      ensures IdOk(t', i)
    {
      assert IdOk(t, i);
    }
    forall k
      ensures KeyOk(t', k)
    {
      assert KeyOk(t, k);
    }
  }

  // ---- Whole runs: ids are never reissued ----

  datatype Event =
    | Lookup(parent: nat, name: Name, key: FileKey, kind: FileKind)
    | Drop(id: nat, count: nat)
    | Move(order: seq<nat>, p: nat, n: Name, p': nat, n': Name)

  function Apply(t: Table, e: Event): (t': Table)
    requires Wf(t)
    ensures Wf(t')
  {
    match e
    case Lookup(p, n, k, kd) =>
      RegisterKeepsWf(t, p, n, k, kd);
      Register(t, p, n, k, kd).0
    case Drop(id, c) =>
      ForgetKeepsWf(t, id, c);
      Forget(t, id, c)
    case Move(o, p, n, p', n') =>
      NoteRenameKeepsWf(t, o, p, n, p', n');
      NoteRename(t, o, p, n, p', n')
  }

  function Run(t: Table, evs: seq<Event>): (t': Table)
    requires Wf(t)
    ensures Wf(t')
    decreases |evs|
  {
    if evs == [] then t else Run(Apply(t, evs[0]), evs[1..])
  }

  /** The ids allocated along a run, in order of allocation. */
  function Issued(t: Table, evs: seq<Event>): (ids: seq<nat>)
    requires Wf(t)
    decreases |evs|
  {
    if evs == [] then []
    else
      var t1 := Apply(t, evs[0]);
      (if t1.nextId > t.nextId then [t.nextId] else []) + Issued(t1, evs[1..])
  }

  lemma {:induction false} ApplyNextId(t: Table, e: Event)
    requires Wf(t)
    ensures t.nextId <= Apply(t, e).nextId <= t.nextId + 1
  {
  }

  /** Strictly increasing numbers from `lo` up to but excluding `hi`. */
  ghost predicate Ascending(ids: seq<nat>, lo: nat, hi: nat) {
    if ids == [] then lo <= hi else lo <= ids[0] && Ascending(ids[1..], ids[0] + 1, hi)
  }

  lemma {:induction false} AscendingBounds(ids: seq<nat>, lo: nat, hi: nat)
    requires Ascending(ids, lo, hi)
    ensures lo <= hi && forall i :: 0 <= i < |ids| ==> lo <= ids[i] < hi
  {
    if ids != [] {
      AscendingBounds(ids[1..], ids[0] + 1, hi);
    }
  }

  /** Ids are allocated in strictly increasing order below `next_id`, so none is ever issued twice. */
  lemma {:induction false} IssuedIncreasing(t: Table, evs: seq<Event>)
    requires Wf(t)
    ensures Ascending(Issued(t, evs), t.nextId, Run(t, evs).nextId)
    decreases |evs|
  {
    if evs != [] {
      var t1 := Apply(t, evs[0]);
      ApplyNextId(t, evs[0]);
      IssuedIncreasing(t1, evs[1..]);
      AscendingCons(Issued(t1, evs[1..]), t.nextId, t1.nextId, Run(t1, evs[1..]).nextId);
      assert Issued(t, evs) == (if t1.nextId > t.nextId then [t.nextId] else []) + Issued(t1, evs[1..]);
    }
  }

  lemma {:induction false} AscendingCons(rest: seq<nat>, lo: nat, lo1: nat, hi: nat)
    requires lo <= lo1 <= lo + 1 && Ascending(rest, lo1, hi)
    ensures Ascending((if lo1 > lo then [lo] else []) + rest, lo, hi)
  {
    assert [] + rest == rest && ([lo] + rest)[1..] == rest;
  }

  /** An id issued along a run was not tracked before it, and no two of them are equal. */
  lemma {:induction false} NeverReissued(t: Table, evs: seq<Event>, i: nat)
    requires Wf(t) && i < |Issued(t, evs)|
    ensures Issued(t, evs)[i] !in t.byId && Issued(t, evs)[i] < Run(t, evs).nextId
    ensures forall j :: 0 <= j < i ==> Issued(t, evs)[j] != Issued(t, evs)[i]
  {
    IssuedIncreasing(t, evs);
    AscendingBounds(Issued(t, evs), t.nextId, Run(t, evs).nextId);
    AscendingDistinct(Issued(t, evs), t.nextId, Run(t, evs).nextId, i);
    assert IdOk(t, Issued(t, evs)[i]);
  }

  lemma {:induction false} AscendingDistinct(ids: seq<nat>, lo: nat, hi: nat, i: nat)
    requires Ascending(ids, lo, hi) && i < |ids|
    ensures forall j :: 0 <= j < i ==> ids[j] < ids[i]
  {
    if i > 0 {
      AscendingBounds(ids[1..], ids[0] + 1, hi);
      AscendingDistinct(ids[1..], ids[0] + 1, hi, i - 1);
    }
  }

  /** How many references to `id` are counted. */
  function Count(t: Table, id: nat): (n: nat) {
    if id in t.byId then t.byId[id].lookups else 0
  }

  // ---- BATCH_FORGET ----

  function ForgetAll(t: Table, batch: seq<(nat, nat)>): (t': Table)
    decreases |batch|
  {
    if batch == [] then t else ForgetAll(Forget(t, batch[0].0, batch[0].1), batch[1..])
  }

  lemma {:induction false} ForgetAllKeepsWf(t: Table, batch: seq<(nat, nat)>)
    requires Wf(t)
    ensures Wf(ForgetAll(t, batch)) && ForgetAll(t, batch).nextId == t.nextId
    decreases |batch|
  {
    if batch != [] {
      ForgetKeepsWf(t, batch[0].0, batch[0].1);
      ForgetAllKeepsWf(Forget(t, batch[0].0, batch[0].1), batch[1..]);
    }
  }

  function Total(batch: seq<(nat, nat)>, id: nat): (n: nat) {
    if batch == [] then 0
    else (if batch[0].0 == id then batch[0].1 else 0) + Total(batch[1..], id)
  }

  predicate Survives(t: Table, batch: seq<(nat, nat)>, id: nat)
    requires id in t.byId
  {
    id == ROOT_ID || t.byId[id].lookups > Total(batch, id)
  }

  /** All forgets of a batch at once, by total count per id. */
  function ForgetTotals(t: Table, batch: seq<(nat, nat)>): (t': Table) {
    Table(
      map id | id in t.byId && Survives(t, batch, id) ::
        if id == ROOT_ID then t.byId[id] else t.byId[id].(lookups := t.byId[id].lookups - Total(batch, id)),
      map k | k in t.byKey && t.byKey[k] in t.byId && Survives(t, batch, t.byKey[k]) :: t.byKey[k],
      t.nextId)
  }

  /** Forgetting entry by entry is forgetting the totals: order and splitting do not matter. */
  lemma {:induction false} ForgetAllIsTotals(t: Table, batch: seq<(nat, nat)>)
    requires Wf(t)
    ensures ForgetAll(t, batch) == ForgetTotals(t, batch)
    decreases |batch|
  {
    if batch == [] {
      forall id
        ensures id in t.byId ==> Survives(t, batch, id)
      {
        assert IdOk(t, id);
      }
      forall k
        ensures k in t.byKey ==> t.byKey[k] in t.byId
      {
        assert KeyOk(t, k);
      }
      assert ForgetTotals(t, batch).byId == t.byId;
      assert ForgetTotals(t, batch).byKey == t.byKey;
    } else {
      ForgetKeepsWf(t, batch[0].0, batch[0].1);
      ForgetAllIsTotals(Forget(t, batch[0].0, batch[0].1), batch[1..]);
      TotalsById(t, batch);
      TotalsByKey(t, batch);
    }
  }

  lemma {:induction false} TotalsById(t: Table, batch: seq<(nat, nat)>)
    requires batch != []
    ensures ForgetTotals(Forget(t, batch[0].0, batch[0].1), batch[1..]).byId == ForgetTotals(t, batch).byId
  {
    var t1 := Forget(t, batch[0].0, batch[0].1);
    var a, b := ForgetTotals(t1, batch[1..]).byId, ForgetTotals(t, batch).byId;
    forall id
      ensures id in a <==> id in b
      ensures id in a ==> a[id] == b[id]
    {
      assert Total(batch, id) == (if batch[0].0 == id then batch[0].1 else 0) + Total(batch[1..], id);
    }
  }

  lemma {:induction false} TotalsByKey(t: Table, batch: seq<(nat, nat)>)
    requires Wf(t) && batch != []
    ensures ForgetTotals(Forget(t, batch[0].0, batch[0].1), batch[1..]).byKey == ForgetTotals(t, batch).byKey
  {
    var t1 := Forget(t, batch[0].0, batch[0].1);
    var a, b := ForgetTotals(t1, batch[1..]).byKey, ForgetTotals(t, batch).byKey;
    forall k
      ensures k in a <==> k in b
    {
      assert KeyOk(t, k) && IdOk(t, batch[0].0);
      if k in t.byKey {
        var id := t.byKey[k];
        assert Total(batch, id) == (if batch[0].0 == id then batch[0].1 else 0) + Total(batch[1..], id);
      }
    }
  }

  /** Two batches with the same total per id have the same effect. */
  lemma {:induction false} BatchByTotals(t: Table, a: seq<(nat, nat)>, b: seq<(nat, nat)>)
    requires Wf(t)
    requires forall id :: Total(a, id) == Total(b, id)
    ensures ForgetAll(t, a) == ForgetAll(t, b)
  {
    ForgetAllIsTotals(t, a);
    ForgetAllIsTotals(t, b);
    SameTotals(t, a, b);
  }

  lemma {:induction false} SameTotals(t: Table, a: seq<(nat, nat)>, b: seq<(nat, nat)>)
    requires forall id :: Total(a, id) == Total(b, id)
    ensures ForgetTotals(t, a) == ForgetTotals(t, b)
  {
    assert ForgetTotals(t, a).byId == ForgetTotals(t, b).byId;
    assert ForgetTotals(t, a).byKey == ForgetTotals(t, b).byKey;
  }

  // ---- The store ----

  /** One tracked inode; its location and count change in place. */
  class InodeData {
    const id: nat
    const key: FileKey
    const kind: FileKind
    var parent: Option<nat>
    var name: Name
    var lookups: nat

    constructor (id: nat, key: FileKey, kind: FileKind, parent: Option<nat>, name: Name, lookups: nat)
      ensures this.id == id && View() == Inode(key, kind, parent, name, lookups)
    {
      this.id, this.key, this.kind, this.parent, this.name, this.lookups := id, key, kind, parent, name, lookups;
    }

    function View(): Inode
      reads this
    {
      Inode(key, kind, parent, name, lookups)
    }

    method SetLocation(p: nat, n: Name)
      modifies this
      ensures View() == old(View()).(parent := Some(p), name := n)
    {
      parent := Some(p);
      name := n;
    }
  }

  class InodeStore {
    /** The table the fields below represent, and the entry objects they are made of. */
    ghost var table: Table
    ghost var entries: set<InodeData>

    var byId: map<nat, InodeData>
    var byKey: map<FileKey, nat>
    var nextId: nat

    ghost predicate EntryOk(id: nat)
      reads this, entries
    {
      && (id in byId <==> id in table.byId)
      && (id in byId ==> byId[id] in entries && byId[id].id == id && byId[id].View() == table.byId[id])
    }

    ghost predicate Valid()
      reads this, entries
    {
      byKey == table.byKey && nextId == table.nextId && forall id :: EntryOk(id)
    }

    lemma {:induction false} EntriesAreOk()
      requires Valid()
      ensures forall id :: id in byId <==> id in table.byId
      ensures forall id :: id in byId ==> byId[id] in entries && byId[id].View() == table.byId[id]
    {
      forall id
        ensures id in byId <==> id in table.byId
        ensures id in byId ==> byId[id] in entries && byId[id].View() == table.byId[id]
      {
        assert EntryOk(id);
      }
    }

    /** The table, read off the entries. */
    function Current(): (t: Table)
      requires Valid()
      reads this, entries
      ensures t == table
    {
      EntriesAreOk();
      Table(map id | id in byId :: byId[id].View(), byKey, nextId)
    }

    constructor (rootKey: FileKey)
      ensures Valid() && table == InitTable(rootKey) && fresh(entries)
    {
      var root := new InodeData(ROOT_ID, rootKey, Dir, None, [], 1);
      byId := map[ROOT_ID := root];
      byKey := map[rootKey := ROOT_ID];
      nextId := ROOT_ID + 1;
      table := InitTable(rootKey);
      entries := {root};
    }

    method Get(id: nat) returns (r: Option<InodeData>)
      requires Valid()
      ensures r.Some? <==> id in table.byId
      ensures r.Some? ==> r.value in entries && r.value.id == id && r.value.View() == table.byId[id]
    {
      assert EntryOk(id);
      r := if id in byId then Some(byId[id]) else None;
    }

    method RegisterChild(parent: nat, name: Name, key: FileKey, kind: FileKind) returns (d: InodeData)
      requires Valid() && KeyOk(table, key)
      modifies this, entries
      ensures Valid() && fresh(entries - old(entries))
      ensures (table, d.id) == Register(old(table), parent, name, key, kind)
    {
      ghost var t := Register(table, parent, name, key, kind).0;
      if key in byKey {
        assert EntryOk(byKey[key]);
        d := byId[byKey[key]];
        d.lookups := d.lookups + 1;
        d.SetLocation(parent, name);
      } else {
        d := new InodeData(nextId, key, kind, Some(parent), name, 1);
        byId := byId[nextId := d];
        byKey := byKey[key := nextId];
        nextId := nextId + 1;
        entries := entries + {d};
      }
      table := t;
      forall i
        ensures EntryOk(i)
      {
        assert old(EntryOk(i));
      }
    }

    method ForgetRefs(id: nat, count: nat)
      requires Valid()
      modifies this, entries
      ensures Valid() && entries == old(entries)
      ensures table == Forget(old(table), id, count)
    {
      assert EntryOk(id);
      if id == ROOT_ID || id !in byId {
        return;
      }
      var d := byId[id];
      var prev := d.lookups;
      d.lookups := d.lookups - Min(count, d.lookups);
      if prev <= count {
        byId := byId - {id};
        byKey := byKey - {d.key};
      }
      table := Forget(table, id, count);
      forall i
        ensures EntryOk(i)
      {
        assert old(EntryOk(i));
      }
    }

    /** `order` is the order in which the hash map happens to yield its entries. */
    method NoteRenameIn(order: seq<nat>, p: nat, n: Name, p': nat, n': Name)
      requires Valid()
      modifies this, entries
      ensures Valid() && entries == old(entries)
      ensures table == NoteRename(old(table), order, p, n, p', n')
    {
      assert order[0..] == order;
      for i := 0 to |order|
        invariant FirstAt(table, order, p, n) == FirstAt(table, order[i..], p, n)
        invariant Valid() && table == old(table) && entries == old(entries)
      {
        assert order[i..][1..] == order[i + 1..];
        assert EntryOk(order[i]);
        if order[i] in byId {
          var d := byId[order[i]];
          if d.parent == Some(p) && d.name == n {
            d.SetLocation(p', n');
            table := NoteRename(table, order, p, n, p', n');
            forall j
              ensures EntryOk(j)
            {
              assert old(EntryOk(j));
            }
            return;
          }
        }
      }
    }
  }
}
