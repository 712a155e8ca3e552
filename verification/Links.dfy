/**
 LINK and the references of a client (fuse/dispatch.rs): a LINK reply carries a node id like the
 replies that grant a reference, but none is counted. Stated here is when a client that counts it, as
 the FUSE protocol has it, is right about which nodes are known.
 */
module Links {
  import opened Basics
  import opened Bytes
  import opened Clients
  import I = Inodes
  import W = Wire
  import F = Fs
  import D = Dispatch
  import R = Replies

  /** The node id a LINK reply carries. */
  function Linked(request: seq<byte>, reply: D.Reply): (id: Option<nat>) {
    if |request| >= W.IN_HEADER_LEN && Num(request, 4, 4) == 13 && reply.Bytes? && |reply.bytes| >= 24
       && NumI32(reply.bytes, 4) == 0
    then Some(Num(reply.bytes, 16, 8)) else None
  }

  lemma {:induction false} LinkVerdict(k: F.Kernel, s: D.State, op: W.Opcode, nodeid: nat, body: seq<byte>)
    requires op == W.Link
    ensures R.VerdictOf(k, s, op, nodeid, body) != R.Unanswered
  {
  }

  lemma {:induction false} LinkCarried(k: F.Kernel, s: D.State, op: W.Opcode, nodeid: nat, body: seq<byte>,
                                       answer: seq<byte>)
    requires op == W.Link && R.Carries(k, s, op, nodeid, body, answer)
    ensures |body| >= 8 && |answer| >= 8 && Num(answer, 0, 8) == Num(body, 0, 8) && Num(body, 0, 8) in s.fs.inodes.byId
  {
    PowFacts();
  }

  /** A LINK that succeeds is answered with an entry for the linked node, which is a known one. */
  lemma {:induction false} LinkNames(x: Exchange, s: D.State, op: W.Opcode) returns (b: seq<byte>)
    requires |x.request| >= W.IN_HEADER_LEN && op == W.OpcodeFrom(Num(x.request, 4, 4)) && op == W.Link
    ensures ReplyTo(s, x) == D.Bytes(b) && |b| >= W.OUT_HEADER_LEN
    ensures NumI32(b, 4) == 0 ==>
              && |x.request| >= 48 && |b| >= 24 && Num(b, 16, 8) == Num(x.request, 40, 8)
              && Num(x.request, 40, 8) in s.fs.inodes.byId
  {
    var nodeid, body := Num(x.request, 16, 8), x.request[W.IN_HEADER_LEN..];
    LinkVerdict(x.k, s, op, nodeid, body);
    R.MeaningIs(Num(x.request, 4, 4));
    b := AnsweredWith(x, s, op, nodeid, body);
    LinkBytes(x.k, s, op, nodeid, x.request, b);
  }

  lemma {:induction false} LinkBytes(k: F.Kernel, s: D.State, op: W.Opcode, nodeid: nat, request: seq<byte>,
                                     b: seq<byte>)
    requires |request| >= W.IN_HEADER_LEN && |b| >= W.OUT_HEADER_LEN && op == W.Link
    requires NumI32(b, 4) == 0 ==> R.Carries(k, s, op, nodeid, request[W.IN_HEADER_LEN..], b[W.OUT_HEADER_LEN..])
    ensures NumI32(b, 4) == 0 ==>
              && |request| >= 48 && |b| >= 24 && Num(b, 16, 8) == Num(request, 40, 8)
              && Num(request, 40, 8) in s.fs.inodes.byId
  {
    if NumI32(b, 4) == 0 {
      var body, answer := request[W.IN_HEADER_LEN..], b[W.OUT_HEADER_LEN..];
      LinkCarried(k, s, op, nodeid, body, answer);
      assert body[0..8] == request[40..48] && b[16..24] == answer[0..8];
    }
  }

  lemma {:induction false} LinkCode(code: nat)
    ensures code == 13 <==> W.OpcodeFrom(code) == W.Link
  {
  }

  /** And it counts no reference to any node. */
  lemma {:induction false} LinkUncounted(x: Exchange, s: D.State, id: nat)
    requires |x.request| >= W.IN_HEADER_LEN && Num(x.request, 4, 4) == 13
    ensures Counts(After(s, x).fs, id) == Counts(s.fs, id)
    ensures ReplyTo(s, x).Bytes? && |ReplyTo(s, x).bytes| >= W.OUT_HEADER_LEN
    ensures NumI32(ReplyTo(s, x).bytes, 4) == 0 ==>
              |x.request| >= 48 && Linked(x.request, ReplyTo(s, x)) == Some(Num(x.request, 40, 8))
  {
    var op := W.OpcodeFrom(Num(x.request, 4, 4));
    LinkCode(Num(x.request, 4, 4));
    OthersKeepCounts(x.k, s, op, Num(x.request, 16, 8), x.request[W.IN_HEADER_LEN..], id);
    var b := LinkNames(x, s, op);
  }

  lemma {:induction false} LinkedIsTracked(x: Exchange, s: D.State, id: nat)
    requires Linked(x.request, ReplyTo(s, x)) == Some(id)
    ensures id in s.fs.inodes.byId
  {
    LinkCode(Num(x.request, 4, 4));
    var b := LinkNames(x, s, W.OpcodeFrom(Num(x.request, 4, 4)));
  }

  /** What one exchange adds for a client that counts LINK replies too, as FUSE has it. */
  function NetLinked(request: seq<byte>, reply: D.Reply, id: nat): (n: int) {
    Net(request, reply, id) + (if Linked(request, reply) == Some(id) then 1 else 0)
  }

  function GrantsAndLinks(id: nat): (n: Tally) {
    (request: seq<byte>, reply: D.Reply) => NetLinked(request, reply, id)
  }

  /** At every point the node is known exactly if the client holds a reference to it. */
  ghost predicate KnownWhileHeld(sv: Service, hold: Tally, s: D.State, xs: seq<Exchange>, id: nat, held: int)
    decreases |xs|
  {
    && (id in s.fs.inodes.byId <==> held > 0)
    && (xs == [] ||
        (var (s', r) := sv(s, xs[0]); KnownWhileHeld(sv, hold, s', xs[1..], id, held + hold(xs[0].request, r))))
  }

  /**
   At every point at which the client holds anything, it still holds a counted reference: the grants of
   LOOKUP, MKDIR, SYMLINK and CREATE exceed what it has given back. A client can tell from the bytes it
   has seen before it sends a FORGET.
   */
  ghost predicate Covered(sv: Service, grant: Tally, hold: Tally, s: D.State, xs: seq<Exchange>, granted: int,
                          held: int)
    decreases |xs|
  {
    && (held > 0 ==> granted > 0)
    && (xs == [] ||
        (var (s', r) := sv(s, xs[0]);
         Covered(sv, grant, hold, s', xs[1..], granted + grant(xs[0].request, r), held + hold(xs[0].request, r))))
  }

  /** A node that is gone is neither granted nor linked again, and only a known node is linked. */
  ghost predicate NeverReturns(sv: Service, grant: Tally, hold: Tally, s: D.State, x: Exchange, id: nat) {
    var (s', r) := sv(s, x);
    s'.fs.inodes.nextId <= TWO_64 ==>
      && grant(x.request, r) <= hold(x.request, r)
      && (Counts(s.fs, id) == 0 ==> grant(x.request, r) == hold(x.request, r))
      && (!Alive(s.fs, id) ==> grant(x.request, r) <= 0)
  }

  lemma {:induction false} SessionNeverReturns(s: D.State, x: Exchange, id: nat)
    requires id != I.ROOT_ID
    ensures NeverReturns(Session(), Grants(id), GrantsAndLinks(id), s, x, id)
  {
    KnownIsCounted(s.fs, id);
    if Linked(x.request, ReplyTo(s, x)) == Some(id) {
      LinkedIsTracked(x, s, id);
    }
    if After(s, x).fs.inodes.nextId <= TWO_64 && Granted(x.request, ReplyTo(s, x)) == Some(id) {
      GrantedIsAlive(x, s, id);
    }
  }

  /** What is kept in step along a session of a client that gives back no more than it was handed. */
  ghost predicate InStep(s: F.State, id: nat, granted: int, held: int) {
    && Counts(s, id) == Max(0, granted) && held >= 0 && held >= granted
    && (id >= s.inodes.nextId ==> granted == 0 && held == 0)
  }

  lemma {:induction false} StepInStep(s: F.State, s': F.State, id: nat, granted: int, held: int, g: int, h: int)
    requires id != I.ROOT_ID && InStep(s, id, granted, held) && held + h >= 0 && s.inodes.nextId <= s'.inodes.nextId
    requires Counts(s', id) == Max(0, Counts(s, id) + g)
    requires g <= h && (Counts(s, id) == 0 ==> g == h) && (!Alive(s, id) ==> g <= 0)
    ensures InStep(s', id, granted + g, held + h)
  {
    KnownIsCounted(s, id);
    KnownIsCounted(s', id);
  }

  lemma {:induction false} CoverageExact(sv: Service, grant: Tally, hold: Tally, s: D.State, xs: seq<Exchange>, id: nat,
                                         granted: int, held: int)
    requires forall s: D.State, x: Exchange :: KeepsCount(sv, grant, s, x, id)
    requires forall s: D.State, x: Exchange :: NeverReturns(sv, grant, hold, s, x, id)
    requires id != I.ROOT_ID && Final(sv, s, xs).fs.inodes.nextId <= TWO_64
    requires InStep(s.fs, id, granted, held) && Honest(sv, hold, s, xs, held)
    ensures KnownWhileHeld(sv, hold, s, xs, id, held) <==> Covered(sv, grant, hold, s, xs, granted, held)
    decreases |xs|
  {
    KnownIsCounted(s.fs, id);
    if xs != [] {
      var (s', r) := sv(s, xs[0]);
      var g, h := grant(xs[0].request, r), hold(xs[0].request, r);
      assert KeepsCount(sv, grant, s, xs[0], id) && NeverReturns(sv, grant, hold, s, xs[0], id);
      FinalNext(sv, grant, s', xs[1..], id);
      StepInStep(s.fs, s'.fs, id, granted, held, g, h);
      CoverageExact(sv, grant, hold, s', xs[1..], id, granted + g, held + h);
    }
  }

  /**
   LINK replies carry a node id without counting a reference. For a client that counts them, and never
   gives back more than it was handed, nodes are known exactly while held at every point of a session
   if and only if what it holds is covered by counted references at every point.
   */
  lemma {:induction false} LinksExact(s: D.State, xs: seq<Exchange>, id: nat)
    requires id != I.ROOT_ID && Final(Session(), s, xs).fs.inodes.nextId <= TWO_64
    requires Honest(Session(), GrantsAndLinks(id), s, xs, Counts(s.fs, id))
    ensures KnownWhileHeld(Session(), GrantsAndLinks(id), s, xs, id, Counts(s.fs, id))
            <==> Covered(Session(), Grants(id), GrantsAndLinks(id), s, xs, Counts(s.fs, id), Counts(s.fs, id))
  {
    forall s: D.State, x: Exchange
      ensures KeepsCount(Session(), Grants(id), s, x, id)
    {
      SessionKeepsCount(s, x, id);
    }
    forall s: D.State, x: Exchange
      ensures NeverReturns(Session(), Grants(id), GrantsAndLinks(id), s, x, id)
    {
      SessionNeverReturns(s, x, id);
    }
    KnownIsCounted(s.fs, id);
    CoverageExact(Session(), Grants(id), GrantsAndLinks(id), s, xs, id, Counts(s.fs, id), Counts(s.fs, id));
  }

  /** What goes wrong otherwise: a node is linked, the references counted before are given back, and it is gone. */
  lemma {:induction false} LinkedNodeLost(s: D.State, link: Exchange, forget: Exchange, id: nat)
    requires id != I.ROOT_ID && Linked(link.request, ReplyTo(s, link)) == Some(id)
    requires After(After(s, link), forget).fs.inodes.nextId <= TWO_64
    requires Forgotten(forget.request) == [(id, Counts(s.fs, id))]
    ensures Granted(forget.request, ReplyTo(After(s, link), forget)).None?
    ensures id !in After(After(s, link), forget).fs.inodes.byId
  {
    LinkUncounted(link, s, id);
    var s1 := After(s, link);
    ForgottenOnly(forget, s1, id, Counts(s.fs, id));
    ExchangeCounts(forget, s1, id);
    KnownIsCounted(After(s1, forget).fs, id);
  }

  lemma {:induction false} ForgottenOnly(x: Exchange, s: D.State, id: nat, c: nat)
    requires Forgotten(x.request) == [(id, c)]
    ensures Granted(x.request, ReplyTo(s, x)).None? && Linked(x.request, ReplyTo(s, x)).None?
    ensures Net(x.request, ReplyTo(s, x), id) == 0 - c
  {
    assert [(id, c)][1..] == [] && I.Total([], id) == 0;
  }

  // ---- Such a session exists: one file, looked up, linked and forgotten ----

  function Request(opcode: u32, nodeid: u64, body: seq<byte>): (b: seq<byte>)
    ensures |b| == W.IN_HEADER_LEN + |body|
  {
    Le(W.IN_HEADER_LEN + |body|, 4) + Le(opcode, 4) + Le(0, 8) + Le(nodeid, 8) + Le(0, 16) + body
  }

  lemma {:induction false} RequestFields(opcode: u32, nodeid: u64, body: seq<byte>)
    ensures var b := Request(opcode, nodeid, body);
            Num(b, 4, 4) == opcode && Num(b, 16, 8) == nodeid && b[W.IN_HEADER_LEN..] == body
  {
    PowFacts();
    var b := Request(opcode, nodeid, body);
    FromLeOfLe(opcode, 4);
    FromLeOfLe(nodeid, 8);
    assert b[4..8] == Le(opcode, 4) && b[16..24] == Le(nodeid, 8);
  }

  /** A kernel with no failures. */
  function Willing(): (k: F.Kernel) {
    F.Kernel((_: F.Sys) => None, (_: F.Sys) => 0, I.FileKey(0, 9), I.Regular, [], [], [], [])
  }

  /** A fresh share with one file, "a". */
  function OneFile(): (s: D.State) {
    var root := I.FileKey(0, 0);
    D.State(F.Raw(I.InitTable(root), F.Handles(map[], 1), F.Host(map[(root, [97]) := I.FileKey(0, 1)], map[])), map[])
  }

  lemma {:induction false} OneNul(b: seq<byte>, at: nat)
    requires at + 2 == |b| && b[at] != 0 && b[at + 1] == 0
    ensures FindNul(b, at) == Some(at + 1)
  {
  }

  /** The request has this opcode, node id and body. */
  predicate Asks(x: Exchange, code: nat, nodeid: nat, body: seq<byte>) {
    && |x.request| >= W.IN_HEADER_LEN && Num(x.request, 4, 4) == code && Num(x.request, 16, 8) == nodeid
    && x.request[W.IN_HEADER_LEN..] == body
  }

  /** A LOOKUP that finds node `id`. */
  predicate Finds(x: Exchange, s: D.State, body: seq<byte>, id: nat) {
    Asks(x, 1, I.ROOT_ID, body) && id < TWO_64 && F.Lookup(x.k, s.fs, I.ROOT_ID, D.TrimNul(body)).1 == Ok(id)
  }

  lemma {:induction false} FoundGrants(x: Exchange, s: D.State, op: W.Opcode, body: seq<byte>, id: nat)
    requires Finds(x, s, body, id) && op == W.Lookup
    ensures Granted(x.request, ReplyTo(s, x)) == Some(id)
    ensures After(s, x).fs == F.Lookup(x.k, s.fs, I.ROOT_ID, D.TrimNul(body)).0
  {
    OpcodesOf(Num(x.request, 4, 4));
    assert op == W.OpcodeFrom(Num(x.request, 4, 4));
    GrantIsResult(x, s, op, I.ROOT_ID, body);
  }

  /** A LINK of node `id` that succeeds. */
  predicate MakesLink(x: Exchange, s: D.State, body: seq<byte>, id: nat) {
    && Asks(x, 13, I.ROOT_ID, body) && |body| >= 8 && Num(body, 0, 8) == id && D.ParseName(body, 8).Some?
    && F.Link(x.k, s.fs, id, I.ROOT_ID, D.ParseName(body, 8).value).1.Ok?
  }

  lemma {:induction false} LinkSucceeds(k: F.Kernel, s: D.State, op: W.Opcode, nodeid: nat, body: seq<byte>)
    requires op == W.Link && |body| >= 8 && D.ParseName(body, 8).Some?
    requires F.Link(k, s.fs, Num(body, 0, 8), nodeid, D.ParseName(body, 8).value).1.Ok?
    ensures R.VerdictOf(k, s, op, nodeid, body) == R.Succeeded
  {
  }

  lemma {:induction false} LinkIsNamed(x: Exchange, s: D.State, op: W.Opcode, body: seq<byte>, id: nat)
    requires MakesLink(x, s, body, id) && op == W.OpcodeFrom(Num(x.request, 4, 4))
    ensures Linked(x.request, ReplyTo(s, x)) == Some(id)
  {
    LinkCode(Num(x.request, 4, 4));
    R.MeaningIs(Num(x.request, 4, 4));
    LinkSucceeds(x.k, s, op, I.ROOT_ID, body);
    SuccessNames(x, s, op, I.ROOT_ID, body);
  }

  lemma {:induction false} SuccessNames(x: Exchange, s: D.State, op: W.Opcode, nodeid: nat, body: seq<byte>)
    requires Asks(x, 13, nodeid, body) && |body| >= 8 && op == R.Meaning(Num(x.request, 4, 4)) && op == W.Link
    requires R.VerdictOf(x.k, s, op, nodeid, body) == R.Succeeded
    ensures Linked(x.request, ReplyTo(s, x)) == Some(Num(body, 0, 8))
  {
    assert x.request[40..48] == body[0..8];
    var b := AnsweredWith(x, s, op, nodeid, body);
    SuccessIs(x.k, s, op, nodeid, x.request, b);
  }

  lemma {:induction false} SuccessIs(k: F.Kernel, s: D.State, op: W.Opcode, nodeid: nat, request: seq<byte>,
                                     b: seq<byte>)
    requires |request| >= 48 && Num(request, 4, 4) == 13 && |b| >= W.OUT_HEADER_LEN && op == W.Link
    requires NumI32(b, 4) == 0 && R.Carries(k, s, op, nodeid, request[W.IN_HEADER_LEN..], b[W.OUT_HEADER_LEN..])
    ensures Linked(request, D.Bytes(b)) == Some(Num(request, 40, 8))
  {
    LinkBytes(k, s, op, nodeid, request, b);
  }

  /** One exchange more in front. */
  lemma {:induction false} OneMore(sv: Service, grant: Tally, hold: Tally, s: D.State, x: Exchange, rest: seq<Exchange>,
                                   granted: int, held: int, g: int, h: int)
    requires g == grant(x.request, sv(s, x).1) && h == hold(x.request, sv(s, x).1)
    ensures var xs, s1 := [x] + rest, sv(s, x).0;
            && Final(sv, s, xs) == Final(sv, s1, rest) && Sum(sv, hold, s, xs) == h + Sum(sv, hold, s1, rest)
            && (Honest(sv, hold, s, xs, held) <==> held + h >= 0 && Honest(sv, hold, s1, rest, held + h))
            && (Covered(sv, grant, hold, s, xs, granted, held)
               ==> Covered(sv, grant, hold, s1, rest, granted + g, held + h))
  {
    assert ([x] + rest)[1..] == rest;
  }

  /** What three exchanges add up to that grant, link, and give back one reference. */
  lemma {:induction false} GrantLinkForget(sv: Service, grant: Tally, hold: Tally, s: D.State, x1: Exchange,
                                           x2: Exchange, x3: Exchange)
    requires grant(x1.request, sv(s, x1).1) == hold(x1.request, sv(s, x1).1) == 1
    requires var s1 := sv(s, x1).0; grant(x2.request, sv(s1, x2).1) == 0 && hold(x2.request, sv(s1, x2).1) == 1
    requires var s2 := sv(sv(s, x1).0, x2).0; grant(x3.request, sv(s2, x3).1) == hold(x3.request, sv(s2, x3).1) == -1
    ensures var xs := [x1] + ([x2] + ([x3] + []));
            && Final(sv, s, xs) == sv(sv(sv(s, x1).0, x2).0, x3).0 && Sum(sv, hold, s, xs) == 1
            && Honest(sv, hold, s, xs, 0) && !Covered(sv, grant, hold, s, xs, 0, 0)
  {
    var s1 := sv(s, x1).0;
    var s2 := sv(s1, x2).0;
    OneMore(sv, grant, hold, s2, x3, [], 1, 2, -1, -1);
    OneMore(sv, grant, hold, s1, x2, [x3] + [], 1, 1, 0, 1);
    OneMore(sv, grant, hold, s, x1, [x2] + ([x3] + []), 0, 0, 1, 1);
  }

  /** Whatever the names: first LOOKUP of a node, LINK, and FORGET of one reference. */
  lemma {:induction false} LosesNode(s: D.State, x1: Exchange, x2: Exchange, x3: Exchange, b1: seq<byte>,
                                     b2: seq<byte>, id: nat)
    requires Finds(x1, s, b1, id) && id != I.ROOT_ID && id !in s.fs.inodes.byId
    requires MakesLink(x2, After(s, x1), b2, id) && Forgotten(x3.request) == [(id, 1)]
    requires After(After(After(s, x1), x2), x3).fs.inodes.nextId <= TWO_64
    ensures var xs := [x1] + ([x2] + ([x3] + []));
            && Final(Session(), s, xs) == After(After(After(s, x1), x2), x3)
            && Honest(Session(), GrantsAndLinks(id), s, xs, 0) && Sum(Session(), GrantsAndLinks(id), s, xs) == 1
            && id !in Final(Session(), s, xs).fs.inodes.byId
            && !Covered(Session(), Grants(id), GrantsAndLinks(id), s, xs, 0, 0)
  {
    var s1 := After(s, x1);
    var s2 := After(s1, x2);
    IdsGoUp(x2, s1);
    IdsGoUp(x3, s2);
    FirstGrant(x1, s, b1, id);
    LinkIsNamed(x2, s1, W.OpcodeFrom(Num(x2.request, 4, 4)), b2, id);
    ThenLost(s, x1, x2, x3, id);
  }

  lemma {:induction false} FirstGrant(x: Exchange, s: D.State, body: seq<byte>, id: nat)
    requires Finds(x, s, body, id) && id != I.ROOT_ID && id !in s.fs.inodes.byId
    requires After(s, x).fs.inodes.nextId <= TWO_64
    ensures Granted(x.request, ReplyTo(s, x)) == Some(id) && Counts(After(s, x).fs, id) == 1
  {
    FoundGrants(x, s, W.Lookup, body, id);
    GrantsOne(x, s, id);
    ExchangeCounts(x, s, id);
  }

  lemma {:induction false} ThenLost(s: D.State, x1: Exchange, x2: Exchange, x3: Exchange, id: nat)
    requires Granted(x1.request, ReplyTo(s, x1)) == Some(id) && Counts(After(s, x1).fs, id) == 1 && id != I.ROOT_ID
    requires Linked(x2.request, ReplyTo(After(s, x1), x2)) == Some(id) && Forgotten(x3.request) == [(id, 1)]
    requires After(After(After(s, x1), x2), x3).fs.inodes.nextId <= TWO_64
    ensures var xs := [x1] + ([x2] + ([x3] + []));
            && Final(Session(), s, xs) == After(After(After(s, x1), x2), x3)
            && Honest(Session(), GrantsAndLinks(id), s, xs, 0) && Sum(Session(), GrantsAndLinks(id), s, xs) == 1
            && id !in Final(Session(), s, xs).fs.inodes.byId
            && !Covered(Session(), Grants(id), GrantsAndLinks(id), s, xs, 0, 0)
  {
    var s1 := After(s, x1);
    var s2 := After(s1, x2);
    GrantsOne(x1, s, id);
    LinksOne(x2, s1, id);
    ForgottenOnly(x3, s2, id, 1);
    GivesBackOne(x3, s2, id);
    LinkedNodeLost(s1, x2, x3, id);
    GrantLinkForget(Session(), Grants(id), GrantsAndLinks(id), s, x1, x2, x3);
  }

  lemma {:induction false} GivesBackOne(x: Exchange, s: D.State, id: nat)
    requires Linked(x.request, ReplyTo(s, x)).None? && Net(x.request, ReplyTo(s, x), id) == -1
    ensures NetLinked(x.request, ReplyTo(s, x), id) == -1
  {
  }

  lemma {:induction false} GrantsOne(x: Exchange, s: D.State, id: nat)
    requires Granted(x.request, ReplyTo(s, x)) == Some(id)
    ensures Net(x.request, ReplyTo(s, x), id) == NetLinked(x.request, ReplyTo(s, x), id) == 1
  {
  }

  lemma {:induction false} LinksOne(x: Exchange, s: D.State, id: nat)
    requires Linked(x.request, ReplyTo(s, x)) == Some(id)
    ensures Net(x.request, ReplyTo(s, x), id) == 0 && NetLinked(x.request, ReplyTo(s, x), id) == 1
  {
  }

  /** LOOKUP "a", LINK it as "b", FORGET one reference, on a fresh share that has "a". */
  lemma {:induction false} Setting() returns (s: D.State, x1: Exchange, x2: Exchange, x3: Exchange, b1: seq<byte>,
                                   b2: seq<byte>)
    ensures Fresh(s) && Finds(x1, s, b1, 2) && Forgotten(x3.request) == [(2, 1)]
    ensures MakesLink(x2, s.(fs := F.Lookup(x1.k, s.fs, I.ROOT_ID, D.TrimNul(b1)).0), b2, 2)
    ensures F.Lookup(x1.k, s.fs, I.ROOT_ID, D.TrimNul(b1)).0.inodes.nextId == 3
  {
    s := OneFile();
    x1, b1 := LookRequest(s);
    x2, b2 := LinkRequest(s.(fs := F.Lookup(Willing(), s.fs, I.ROOT_ID, [97]).0));
    x3 := Exchange(Willing(), Request(2, 2, Le(1, 8)));
    ForgetFields();
  }

  lemma {:induction false} LookRequest(s: D.State) returns (x: Exchange, b: seq<byte>)
    requires s == OneFile()
    ensures x.k == Willing() && Finds(x, s, b, 2) && D.TrimNul(b) == [97]
    ensures var s' := F.Lookup(Willing(), s.fs, I.ROOT_ID, [97]).0;
            && I.ROOT_ID in s'.inodes.byId && 2 in s'.inodes.byId && s'.inodes.nextId == 3
            && (s'.inodes.byId[I.ROOT_ID].key, [98]) !in s'.host.tree
  {
    b := [97, 0];
    x := Exchange(Willing(), Request(1, I.ROOT_ID, b));
    RequestFields(1, I.ROOT_ID, b);
    OneNul(b, 0);
    assert D.TrimNul(b) == [97];
  }

  lemma {:induction false} LinkRequest(s: D.State) returns (x: Exchange, b: seq<byte>)
    requires I.ROOT_ID in s.fs.inodes.byId && 2 in s.fs.inodes.byId
    requires (s.fs.inodes.byId[I.ROOT_ID].key, [98]) !in s.fs.host.tree
    ensures MakesLink(x, s, b, 2)
  {
    b := Le(2, 8) + [98, 0];
    x := Exchange(Willing(), Request(13, I.ROOT_ID, b));
    RequestFields(13, I.ROOT_ID, b);
    OneNul(b, 8);
    PowFacts();
    FromLeOfLe(2, 8);
    assert b[0..8] == Le(2, 8) && b[8..9] == [98];
  }

  lemma {:induction false} ForgetFields()
    ensures Forgotten(Request(2, 2, Le(1, 8))) == [(2, 1)]
  {
    var r := Request(2, 2, Le(1, 8));
    RequestFields(2, 2, Le(1, 8));
    PowFacts();
    FromLeOfLe(1, 8);
    assert r[40..48] == r[W.IN_HEADER_LEN..];
  }

  predicate Fresh(s: D.State) {
    s.cache == map[] && s.fs.handles == F.Handles(map[], 1) && s.fs.inodes == I.InitTable(I.FileKey(0, 0))
  }

  /**
   A session that loses a node: on a fresh share a file is looked up and linked, and one of the two
   references handed out is given back. The client never gave back more than it was handed and holds
   one reference, but the node is unknown.
   */
  lemma {:induction false} LinkExample() returns (s: D.State, xs: seq<Exchange>)
    ensures Fresh(s) && Final(Session(), s, xs).fs.inodes.nextId <= TWO_64
    ensures Honest(Session(), GrantsAndLinks(2), s, xs, 0) && Sum(Session(), GrantsAndLinks(2), s, xs) == 1
    ensures 2 !in Final(Session(), s, xs).fs.inodes.byId
    ensures !KnownWhileHeld(Session(), GrantsAndLinks(2), s, xs, 2, 0)
  {
    var x1, x2, x3, b1, b2;
    s, x1, x2, x3, b1, b2 := Setting();
    xs := [x1] + ([x2] + ([x3] + []));
    NextStays(s, x1, x2, x3, b1, b2);
    LosesNode(s, x1, x2, x3, b1, b2, 2);
    LinksExact(s, xs, 2);
  }

  lemma {:induction false} NextStays(s: D.State, x1: Exchange, x2: Exchange, x3: Exchange, b1: seq<byte>, b2: seq<byte>)
    requires Finds(x1, s, b1, 2) && Forgotten(x3.request) == [(2, 1)]
    requires var s1 := s.(fs := F.Lookup(x1.k, s.fs, I.ROOT_ID, D.TrimNul(b1)).0);
             s1.fs.inodes.nextId == 3 && MakesLink(x2, s1, b2, 2)
    ensures MakesLink(x2, After(s, x1), b2, 2) && After(After(After(s, x1), x2), x3).fs.inodes.nextId == 3
  {
    FoundGrants(x1, s, W.Lookup, b1, 2);
    FoundKeepsCache(x1, s, W.Lookup, b1);
    LinkKeepsNext(x2, After(s, x1), b2);
    GiveBackKeepsNext(x3, After(After(s, x1), x2));
  }

  lemma {:induction false} FoundKeepsCache(x: Exchange, s: D.State, op: W.Opcode, body: seq<byte>)
    requires Asks(x, 1, I.ROOT_ID, body) && op == W.Lookup
    ensures After(s, x).cache == s.cache
  {
    assert op == W.OpcodeFrom(Num(x.request, 4, 4));
  }

  lemma {:induction false} LinkKeepsNext(x: Exchange, s: D.State, body: seq<byte>)
    requires Asks(x, 13, I.ROOT_ID, body)
    ensures After(s, x).fs.inodes.nextId == s.fs.inodes.nextId
  {
    LinkCode(Num(x.request, 4, 4));
    OthersKeepCounts(x.k, s, W.OpcodeFrom(Num(x.request, 4, 4)), I.ROOT_ID, body, 2);
  }

  lemma {:induction false} GiveBackKeepsNext(x: Exchange, s: D.State)
    requires Forgotten(x.request) != []
    ensures After(s, x).fs.inodes.nextId == s.fs.inodes.nextId
  {
    var op := W.OpcodeFrom(Num(x.request, 4, 4));
    OpcodesOf(Num(x.request, 4, 4));
    ForgetsKeepNext(x.k, s, op, Num(x.request, 16, 8), x.request[W.IN_HEADER_LEN..]);
  }
}
