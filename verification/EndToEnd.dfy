/** Whole runs of the service: who can open the envelopes it hands out. */
module EndToEnd {
  import opened Bytes
  import opened Ordered
  import opened Options
  import opened Crypto
  import opened Envelope
  import opened EnvelopeBuilder
  import opened Membership
  import opened Service
  import opened OkAnswers
  import opened FileFormat

  /** One request of a run with the random numbers drawn for it. */
  datatype Turn = Turn(request: Request, random: Random)

  /** The database after a run of requests, from the start of the server. */
  ghost function Serve(c: Suite, indexed: bool, turns: seq<Turn>): Db {
    if turns == [] then EMPTY
    else
      var last := turns[|turns| - 1];
      Handle(c, indexed, Serve(c, indexed, turns[..|turns| - 1]), last.request, last.random).0
  }

  ghost function LastResponse(c: Suite, indexed: bool, turns: seq<Turn>): Response
    requires turns != []
  {
    var last := turns[|turns| - 1];
    Handle(c, indexed, Serve(c, indexed, turns[..|turns| - 1]), last.request, last.random).1
  }

  /** The database operations that a run performs. */
  function OpsOf(c: Suite, turns: seq<Turn>): seq<Op> {
    if turns == [] then []
    else
      var last := turns[|turns| - 1];
      OpsOf(c, turns[..|turns| - 1]) +
      match Parse(c, last.request, last.random) case Do(op) => [op] case _ => []
  }

  /** A run of requests is a history of the database, so all that holds of histories holds of runs. */
  lemma {:induction false} ServeIsHistory(c: Suite, indexed: bool, turns: seq<Turn>)
    ensures Serve(c, indexed, turns) == Run(EMPTY, OpsOf(c, turns))
  {
    if turns != [] {
      var rest, last := turns[..|turns| - 1], turns[|turns| - 1];
      ServeIsHistory(c, indexed, rest);
      var before, ops := OpsOf(c, rest), OpsOf(c, turns);
      match Parse(c, last.request, last.random) {
        case Do(op) => assert ops[..|ops| - 1] == before;
        case _ => assert ops == before;
      }
    }
  }

  lemma RunsKeepMembersKnown(c: Suite, indexed: bool, turns: seq<Turn>)
    ensures MembersKnown(Serve(c, indexed, turns))
  {
    ServeIsHistory(c, indexed, turns);
    HistoriesKeepMembersKnown(OpsOf(c, turns));
  }

  /** In no run is a request answered "empty envelope". */
  lemma NeverEmptyEnvelope(c: Suite, indexed: bool, turns: seq<Turn>)
    requires turns != []
    ensures LastResponse(c, indexed, turns) != Negative(EmptyEnvelope)
  {
    var rest, last := turns[..|turns| - 1], turns[|turns| - 1];
    RunsKeepMembersKnown(c, indexed, rest);
    var db := Serve(c, indexed, rest);
    match Parse(c, last.request, last.random) {
      case MakeEnvelope(g, bucketKey) =>
        if g in db.groups && db.groups[g] != {} { GroupKeys(db, g); }
      case _ => NoEmptyEnvelopeElse(c, indexed, db, last.request, last.random);
    }
  }

  lemma NoEmptyEnvelopeElse(c: Suite, indexed: bool, db: Db, request: Request, random: Random)
    requires !Parse(c, request, random).MakeEnvelope?
    ensures Handle(c, indexed, db, request, random).1 != Negative(EmptyEnvelope)
  {
  }

  // ---------- The keys that users hold ----------

  /** The key that u was last answered with, unless a deletion has since reached the database under this
      very name. */
  ghost function HeldKey(c: Suite, indexed: bool, turns: seq<Turn>, u: Id): Option<Bytes> {
    if turns == [] then None
    else
      var last, response := turns[|turns| - 1], LastResponse(c, indexed, turns);
      var rest := HeldKey(c, indexed, turns[..|turns| - 1], u);
      match Parse(c, last.request, last.random)
      case Do(op) =>
        if op.CreateUser? && op.uid == u && response.Positive? && response.reply.UserKey?
        then Some(c.b64Decode(response.reply.b64))
        else if (op.DeleteUser? && op.uid == u) || op.DeleteAll? then None
        else rest
      case _ => rest
  }

  /** What one request does to the stored key of u. */
  lemma KeyAfter(c: Suite, indexed: bool, db: Db, turn: Turn, u: Id)
    requires Correct(c)
    ensures var (db', response) := Handle(c, indexed, db, turn.request, turn.random);
            match Parse(c, turn.request, turn.random)
            case Do(op) =>
              if op.CreateUser? && op.uid == u && response.Positive? && response.reply.UserKey?
              then u in db'.users && db'.users[u] == c.b64Decode(response.reply.b64) && |db'.users[u]| == 32
              else if (op.DeleteUser? && op.uid == u) || op.DeleteAll? then u !in db'.users
              else (u in db'.users <==> u in db.users) && (u in db.users ==> db'.users[u] == db.users[u])
            case _ => db' == db
  {
  }

  /** The server stores for u exactly the key that u was given, and it has 32 bytes. */
  lemma {:induction false} HeldKeyIsStored(c: Suite, indexed: bool, turns: seq<Turn>, u: Id)
    requires Correct(c)
    ensures var db := Serve(c, indexed, turns);
            HeldKey(c, indexed, turns, u) == if u in db.users then Some(db.users[u]) else None
    ensures var k := HeldKey(c, indexed, turns, u); k.Some? ==> |k.value| == 32
  {
    if turns != [] {
      var rest, last := turns[..|turns| - 1], turns[|turns| - 1];
      HeldKeyIsStored(c, indexed, rest, u);
      KeyAfter(c, indexed, Serve(c, indexed, rest), last, u);
    }
  }

  // ---------- Who opens an envelope ----------

  ghost predicate HeldByMember(c: Suite, indexed: bool, turns: seq<Turn>, g: Id, k: Bytes) {
    exists u :: Member(Serve(c, indexed, turns), g, u) && HeldKey(c, indexed, turns, u) == Some(k)
  }

  /** The keys of the group, in the order in which the server walks its members. */
  ghost function GroupKeyList(db: Db, g: Id): seq<Key>
    requires g in db.groups
  {
    KeysOf(db.users, Ascending(db.groups[g]))
  }

  lemma ListedIffHeldByMember(c: Suite, indexed: bool, turns: seq<Turn>, g: Id, k: Bytes)
    requires Correct(c)
    requires var db := Serve(c, indexed, turns); g in db.groups && db.groups[g] != {}
    ensures k in GroupKeyList(Serve(c, indexed, turns), g) <==> HeldByMember(c, indexed, turns, g, k)
  {
    var db := Serve(c, indexed, turns);
    RunsKeepMembersKnown(c, indexed, turns);
    forall u ensures HeldKey(c, indexed, turns, u) == if u in db.users then Some(db.users[u]) else None
             ensures u in db.users ==> |db.users[u]| == 32
    {
      HeldKeyIsStored(c, indexed, turns, u);
    }
    GroupKeys(db, g);
    ListedIffMemberKey(db, g, GroupKeyList(db, g), k);
    assert forall u :: u in db.users ==> Resize(db.users[u], 32) == db.users[u];
  }

  /** What the server answers to an envelope request, once the group has a member. */
  lemma EnvelopeAnsweredIn(c: Suite, indexed: bool, db: Db, turn: Turn, g: Id, bucketKey: Bytes)
    requires Parse(c, turn.request, turn.random) == MakeEnvelope(g, bucketKey)
    requires MembersKnown(db) && g in db.groups && db.groups[g] != {}
    ensures Handle(c, indexed, db, turn.request, turn.random).1 ==
            Positive(Ciphertext(c.b64Encode(EnvelopeFor(c, indexed, GroupKeyList(db, g), bucketKey, turn.random))))
  {
    GroupKeys(db, g);
    var answer := Apply(db, GetKeys(g)).1;
    assert answer == Keys(GroupKeyList(db, g)) && answer.keys != [];
  }

  lemma EnvelopeAnswered(c: Suite, indexed: bool, turns: seq<Turn>, turn: Turn, g: Id, bucketKey: Bytes)
    requires Parse(c, turn.request, turn.random) == MakeEnvelope(g, bucketKey)
    requires var db := Serve(c, indexed, turns); g in db.groups && db.groups[g] != {}
    ensures var db := Serve(c, indexed, turns);
            Handle(c, indexed, db, turn.request, turn.random).1 ==
            Positive(Ciphertext(c.b64Encode(EnvelopeFor(c, indexed, GroupKeyList(db, g), bucketKey, turn.random))))
  {
    RunsKeepMembersKnown(c, indexed, turns);
    EnvelopeAnsweredIn(c, indexed, Serve(c, indexed, turns), turn, g, bucketKey);
  }

  /** After any run, the indexed envelope of a group opens with exactly the keys that its current members
      were given, save for a member who is shadowed by a digest collision; and it opens to the bucket key
      of the request, cut or filled to 32 bytes. */
  lemma IndexedEnvelopeOpensIff(c: Suite, turns: seq<Turn>, turn: Turn, g: Id, bucketKey: Bytes, k: Bytes)
    requires Parse(c, turn.request, turn.random) == MakeEnvelope(g, bucketKey)
    requires var db := Serve(c, true, turns);
             && g in db.groups && db.groups[g] != {}
             && OthersRefuse(c, GroupKeyList(db, g), Resize(bucketKey, 32), turn.random.ivs, k)
    ensures var db := Serve(c, true, turns);
            var response := Handle(c, true, db, turn.request, turn.random).1;
            && response.Positive? && response.reply.Ciphertext?
            && var r := IndexedOpen(c, c.b64Decode(response.reply.b64), k);
               && (r.Ok? <==>
                   HeldByMember(c, true, turns, g, k) && !Shadowed(c, turn.random.nonce, GroupKeyList(db, g), k))
               && (r.Ok? ==> r == Ok(Resize(bucketKey, 32)))
  {
    var db := Serve(c, true, turns);
    EnvelopeAnswered(c, true, turns, turn, g, bucketKey);
    ListedIffHeldByMember(c, true, turns, g, k);
    IndexedOpensIff(c, turn.random.nonce, GroupKeyList(db, g), Resize(bucketKey, 32), turn.random.ivs, k);
  }

  /** After any run, the linear envelope of a group opens with exactly the keys of its current members. */
  lemma LinearEnvelopeOpensIff(c: Suite, turns: seq<Turn>, turn: Turn, g: Id, bucketKey: Bytes, k: Bytes)
    requires Parse(c, turn.request, turn.random) == MakeEnvelope(g, bucketKey)
    requires var db := Serve(c, false, turns);
             && g in db.groups && db.groups[g] != {}
             && OthersRefuse(c, GroupKeyList(db, g), Resize(bucketKey, 32), turn.random.ivs, k)
    ensures var db := Serve(c, false, turns);
            var response := Handle(c, false, db, turn.request, turn.random).1;
            && response.Positive? && response.reply.Ciphertext?
            && var r := LinearOpen(c, c.b64Decode(response.reply.b64), k);
               && (r.Ok? <==> HeldByMember(c, false, turns, g, k))
               && (r.Ok? ==> r == Ok(Resize(bucketKey, 32)))
  {
    var db := Serve(c, false, turns);
    EnvelopeAnswered(c, false, turns, turn, g, bucketKey);
    ListedIffHeldByMember(c, false, turns, g, k);
    LinearOpensIff(c, GroupKeyList(db, g), Resize(bucketKey, 32), turn.random.ivs, k);
  }

  /** The opener is locked out of an indexed envelope by a digest collision. */
  ghost predicate LockedOut(c: Suite, indexed: bool, nonce: Iv, keys: seq<Key>, k: Bytes) {
    indexed && Shadowed(c, nonce, keys, k)
  }

  /** Both modes in one. */
  lemma EnvelopeOpensIff(c: Suite, indexed: bool, turns: seq<Turn>, turn: Turn, g: Id, bucketKey: Bytes, k: Bytes)
    requires Parse(c, turn.request, turn.random) == MakeEnvelope(g, bucketKey)
    requires var db := Serve(c, indexed, turns);
             && g in db.groups && db.groups[g] != {}
             && OthersRefuse(c, GroupKeyList(db, g), Resize(bucketKey, 32), turn.random.ivs, k)
    ensures var db := Serve(c, indexed, turns);
            var response := Handle(c, indexed, db, turn.request, turn.random).1;
            && response.Positive? && response.reply.Ciphertext?
            && var r := Open(c, indexed, c.b64Decode(response.reply.b64), k);
               && (r.Ok? <==> && HeldByMember(c, indexed, turns, g, k)
                              && !LockedOut(c, indexed, turn.random.nonce, GroupKeyList(db, g), k))
               && (r.Ok? ==> r == Ok(Resize(bucketKey, 32)))
  {
    if indexed { IndexedEnvelopeOpensIff(c, turns, turn, g, bucketKey, k); }
    else { LinearEnvelopeOpensIff(c, turns, turn, g, bucketKey, k); }
  }

  /** A member's own record opens, when no other key of the group shares its digest. */
  lemma OwnRecordOpens(c: Suite, nonce: Iv, keys: seq<Key>, bucket: Key, ivs: Ivs, k: Bytes)
    requires Correct(c) && k in keys && NoCollision(c, nonce, set x | x in keys)
    ensures IndexedOpen(c, IndexedEnvelope(c, nonce, keys, bucket, ivs), k) == Ok(bucket)
  {
    assert Resize(k, KEY_BYTES) == k;
    IndexedOpenMeaning(c, nonce, keys, bucket, ivs, k);
    var i := LastWith(c, nonce, keys, Digest(c, nonce, k)).value;
    assert keys[i] == k;
    SealThenOpen(c, keys[i], bucket, ivs(i), k);
  }

  /** Every member opens: with no digest collision among the group's keys, the key given to any current
      member opens the indexed envelope. */
  lemma EveryMemberOpens(c: Suite, turns: seq<Turn>, turn: Turn, g: Id, bucketKey: Bytes, u: Id)
    requires Parse(c, turn.request, turn.random) == MakeEnvelope(g, bucketKey)
    requires var db := Serve(c, true, turns);
             Correct(c) && Member(db, g, u) && NoCollision(c, turn.random.nonce, set k | k in GroupKeyList(db, g))
    ensures var response := Handle(c, true, Serve(c, true, turns), turn.request, turn.random).1;
            && response.Positive? && response.reply.Ciphertext? && HeldKey(c, true, turns, u).Some?
            && IndexedOpen(c, c.b64Decode(response.reply.b64), HeldKey(c, true, turns, u).value)
               == Ok(Resize(bucketKey, 32))
  {
    var db := Serve(c, true, turns);
    RunsKeepMembersKnown(c, true, turns);
    HeldKeyIsStored(c, true, turns, u);
    var k := HeldKey(c, true, turns, u).value;
    ListedIffHeldByMember(c, true, turns, g, k);
    EnvelopeAnswered(c, true, turns, turn, g, bucketKey);
    OwnRecordOpens(c, turn.random.nonce, GroupKeyList(db, g), Resize(bucketKey, 32), turn.random.ivs, k);
  }

  /** Revocation: once the database has removed u from g, or deleted u, and not added u again, the key u was
      given opens no envelope of g, unless a remaining member was given the same key. */
  lemma RevokedCannotOpen(c: Suite, indexed: bool, turns: seq<Turn>, turn: Turn, g: Id, bucketKey: Bytes, u: Id,
                          k: Bytes)
    requires Parse(c, turn.request, turn.random) == MakeEnvelope(g, bucketKey)
    requires var db := Serve(c, indexed, turns);
             && g in db.groups && db.groups[g] != {}
             && OthersRefuse(c, GroupKeyList(db, g), Resize(bucketKey, 32), turn.random.ivs, k)
    requires LastTouch(OpsOf(c, turns), g, u) == Some(false)
    requires forall v :: v != u && Member(Serve(c, indexed, turns), g, v) ==> HeldKey(c, indexed, turns, v) != Some(k)
    ensures var response := Handle(c, indexed, Serve(c, indexed, turns), turn.request, turn.random).1;
            && response.Positive? && response.reply.Ciphertext?
            && Open(c, indexed, c.b64Decode(response.reply.b64), k).Err?
  {
    ServeIsHistory(c, indexed, turns);
    MembershipIsLastTouch(OpsOf(c, turns), g, u);
    EnvelopeOpensIff(c, indexed, turns, turn, g, bucketKey, k);
  }

  // ---------- Revocation by deletion ----------

  /** A deletion that names u. */
  predicate Deletes(turn: Turn, u: Id) {
    turn.request.verb == DELETE && turn.request.path == AccessUser && JsonStr(turn.request.body, UserId) == Got(u)
  }

  /** What a deletion naming u leaves of u: with a zero byte in the name, everything. */
  lemma AfterDeletion(c: Suite, indexed: bool, turns: seq<Turn>, deletion: Turn, g: Id, u: Id)
    requires Deletes(deletion, u)
    ensures var after := turns + [deletion];
            && (Member(Serve(c, indexed, after), g, u) <==> 0 in u && Member(Serve(c, indexed, turns), g, u))
            && HeldKey(c, indexed, after, u) == if 0 in u then HeldKey(c, indexed, turns, u) else None
  {
    var after := turns + [deletion];
    assert after[..|after| - 1] == turns;
    DeletionRevokesIff(c, indexed, Serve(c, indexed, turns), deletion.request.body, deletion.random, g, u);
    assert deletion.request == Request(DELETE, AccessUser, deletion.request.body);
  }

  /** Exactly when a deletion revokes: directly after a deletion that names u, the key that u held opens an
      envelope of g if and only if u was a member, the name has a zero byte, and u is not locked out. */
  lemma DeletionRevokesKeyIff(c: Suite, indexed: bool, turns: seq<Turn>, deletion: Turn, turn: Turn, g: Id,
                              bucketKey: Bytes, u: Id, k: Bytes)
    requires Deletes(deletion, u) && HeldKey(c, indexed, turns, u) == Some(k)
    requires Parse(c, turn.request, turn.random) == MakeEnvelope(g, bucketKey)
    requires var db := Serve(c, indexed, turns + [deletion]);
             && g in db.groups && db.groups[g] != {}
             && OthersRefuse(c, GroupKeyList(db, g), Resize(bucketKey, 32), turn.random.ivs, k)
             && forall v :: v != u && Member(db, g, v) ==> HeldKey(c, indexed, turns + [deletion], v) != Some(k)
    ensures var response := Handle(c, indexed, Serve(c, indexed, turns + [deletion]), turn.request, turn.random).1;
            && response.Positive? && response.reply.Ciphertext?
            && (Open(c, indexed, c.b64Decode(response.reply.b64), k).Ok? <==>
                && 0 in u && Member(Serve(c, indexed, turns), g, u)
                && !LockedOut(c, indexed, turn.random.nonce, GroupKeyList(Serve(c, indexed, turns + [deletion]), g), k))
  {
    AfterDeletion(c, indexed, turns, deletion, g, u);
    EnvelopeOpensIff(c, indexed, turns + [deletion], turn, g, bucketKey, k);
  }

  /** A run in which a user is created, put into a group and deleted, all answered ok, and then is still a
      member and still holds the key. */
  lemma CutNameSurvivesDeletion(c: Suite, indexed: bool, g: Id, randoms: seq<Random>)
    requires Correct(c) && |randoms| == 3
    ensures var u: Id := [97, 0, 98];
            var body := Object(map[UserId := Text(u), GroupName := Text(g)]);
            var run := [Turn(Request(POST, AccessUser, body), randoms[0]),
                        Turn(Request(POST, AccessGroup, body), randoms[1]),
                        Turn(Request(DELETE, AccessUser, body), randoms[2])];
            && Member(Serve(c, indexed, run), g, u) && HeldKey(c, indexed, run, u) == Some(randoms[0].key)
            && LastResponse(c, indexed, run) == Positive(Plain)
  {
    var u: Id := [97, 0, 98];
    var body := Object(map[UserId := Text(u), GroupName := Text(g)]);
    var create := Turn(Request(POST, AccessUser, body), randoms[0]);
    var group := Turn(Request(POST, AccessGroup, body), randoms[1]);
    var deletion := Turn(Request(DELETE, AccessUser, body), randoms[2]);
    CreatedAndGrouped(c, indexed, g, u, create, group);
    assert [create, group] + [deletion] == [create, group, deletion];
    assert 0 in u by { assert u[1] == 0; }
    AfterDeletion(c, indexed, [create, group], deletion, g, u);
  }

  lemma CreatedAndGrouped(c: Suite, indexed: bool, g: Id, u: Id, create: Turn, group: Turn)
    requires Correct(c) && create.request.verb == POST && create.request.path == AccessUser
    requires group.request == Request(POST, AccessGroup, create.request.body)
    requires JsonStr(create.request.body, UserId) == Got(u) && JsonStr(create.request.body, GroupName) == Got(g)
    ensures Member(Serve(c, indexed, [create, group]), g, u)
    ensures HeldKey(c, indexed, [create, group], u) == Some(create.random.key)
  {
    var first, both := [create], [create, group];
    assert first[..0] == [] && both[..1] == first;
    assert Serve(c, indexed, first) == Db(map[], map[u := create.random.key]);
    assert HeldKey(c, indexed, first, u) == Some(create.random.key);
  }
}
