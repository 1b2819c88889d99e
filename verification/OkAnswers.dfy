/** What an answer "ok" stands for: which requests it can be relied on for, and what it then promises. */
module OkAnswers {
  import opened Bytes
  import opened Ordered
  import opened Options
  import opened Crypto
  import opened Membership
  import opened Operations
  import opened Service

  /** What a client can want from the service. */
  datatype Demand =
    | Probe
    | NewUser(uid: Id)
    | NewGroup(gname: Id, uid: Id)
    | Add(gname: Id, uid: Id)
    | Remove(gname: Id, uid: Id)
    | DropUser(uid: Id)
    | DropAll
    | Ask(gname: Id, uid: Id)
    | Envelope(gname: Id, bucketKey: Bytes)

  ghost predicate OthersUnchanged(db: Db, db': Db, g: Id, u: Id) {
    forall g', u' :: (g', u') != (g, u) ==> (Member(db', g', u') <==> Member(db, g', u'))
  }

  /** u is gone from the users and from every group, and everything else is as it was. */
  ghost predicate RemovesExactly(db: Db, db': Db, u: Id) {
    && u !in db'.users && (forall g :: !Member(db', g, u)) && db'.groups.Keys == db.groups.Keys
    && (forall v :: v != u ==> (v in db'.users <==> v in db.users) && (v in db.users ==> db'.users[v] == db.users[v]))
    && (forall g, v :: v != u ==> (Member(db', g, v) <==> Member(db, g, v)))
  }

  /** A demand is met by this change of the database and this reply. */
  ghost predicate Met(c: Suite, indexed: bool, random: Random, demand: Demand, db: Db, db': Db, reply: Reply) {
    match demand
    case Probe => db' == db
    case NewUser(u) =>
      && u !in db.users && db'.users == db.users[u := random.key] && db'.groups == db.groups
      && reply == UserKey(c.b64Encode(random.key))
    case NewGroup(g, u) =>
      g !in db.groups && Member(db', g, u) && OthersUnchanged(db, db', g, u) && db'.users == db.users
    case Add(g, u) =>
      && Member(db', g, u) && OthersUnchanged(db, db', g, u) && db'.users == db.users
      && (reply == Info <==> Member(db, g, u))
    case Remove(g, u) =>
      Member(db, g, u) && !Member(db', g, u) && OthersUnchanged(db, db', g, u) && db'.users == db.users
    case DropUser(u) => RemovesExactly(db, db', u)
    case DropAll => db' == EMPTY
    case Ask(g, u) => db' == db && reply == BelongsReply(Member(db, g, u))
    case Envelope(g, bucketKey) =>
      && db' == db && g in db.groups
      && var keys := KeysOf(db.users, Ascending(db.groups[g]));
         keys != [] && reply == Ciphertext(c.b64Encode(EnvelopeFor(c, indexed, keys, bucketKey, random)))
  }

  // ---------- Requests that name what they want ----------

  /** An add or a removal answered ok makes or ends that one membership. */
  lemma MembershipOkMeans(c: Suite, indexed: bool, db: Db, body: Body, random: Random, g: Id, u: Id)
    requires JsonStr(body, GroupName) == Got(g) && JsonStr(body, UserId) == Got(u)
    ensures var (db', r) := Handle(c, indexed, db, Request(PUT, AccessUsergroup, body), random);
            r.Positive? ==> Met(c, indexed, random, Add(g, u), db, db', r.reply)
    ensures var (db', r) := Handle(c, indexed, db, Request(DELETE, AccessUsergroup, body), random);
            r.Positive? ==> Met(c, indexed, random, Remove(g, u), db, db', r.reply)
  {
    AddOkMeans(c, indexed, db, body, random, g, u);
  }

  lemma AddOkMeans(c: Suite, indexed: bool, db: Db, body: Body, random: Random, g: Id, u: Id)
    requires JsonStr(body, GroupName) == Got(g) && JsonStr(body, UserId) == Got(u)
    ensures var (db', r) := Handle(c, indexed, db, Request(PUT, AccessUsergroup, body), random);
            r.Positive? ==> Met(c, indexed, random, Add(g, u), db, db', r.reply)
  {
  }

  /** Creating a group makes its first member, and the membership question is answered truthfully. */
  lemma GroupOkMeans(c: Suite, indexed: bool, db: Db, body: Body, random: Random, g: Id, u: Id)
    requires JsonStr(body, GroupName) == Got(g) && JsonStr(body, UserId) == Got(u)
    ensures var (db', r) := Handle(c, indexed, db, Request(POST, AccessGroup, body), random);
            r.Positive? ==> Met(c, indexed, random, NewGroup(g, u), db, db', r.reply)
    ensures var (db', r) := Handle(c, indexed, db, Request(POST, VerifierUsergroup, body), random);
            r.Positive? ==> Met(c, indexed, random, Ask(g, u), db, db', r.reply)
  {
    AskOkMeans(c, indexed, db, body, random, g, u);
  }

  lemma AskOkMeans(c: Suite, indexed: bool, db: Db, body: Body, random: Random, g: Id, u: Id)
    requires JsonStr(body, GroupName) == Got(g) && JsonStr(body, UserId) == Got(u)
    ensures var (db', r) := Handle(c, indexed, db, Request(POST, VerifierUsergroup, body), random);
            r.Positive? ==> Met(c, indexed, random, Ask(g, u), db, db', r.reply)
  {
  }

  /** A new user gets the key that is stored; a deletion is always answered ok and removes exactly the user
      whose name is the given one up to its first zero byte; "all" leaves nothing, whatever the body. */
  lemma UserOkMeans(c: Suite, indexed: bool, db: Db, body: Body, random: Random, u: Id)
    requires JsonStr(body, UserId) == Got(u)
    ensures var (db', r) := Handle(c, indexed, db, Request(POST, AccessUser, body), random);
            r.Positive? ==> Met(c, indexed, random, NewUser(u), db, db', r.reply)
    ensures var (db', r) := Handle(c, indexed, db, Request(DELETE, AccessUser, body), random);
            r == Positive(Plain) && Met(c, indexed, random, DropUser(CString(u)), db, db', r.reply)
    ensures forall any :: Handle(c, indexed, db, Request(DELETE, AccessAll, any), random) == (EMPTY, Positive(Plain))
  {
    DeleteRemovesExactly(db, CString(u));
    UserRequestsReach(c, indexed, db, body, random, u);
  }

  lemma DeleteRemovesExactly(db: Db, u: Id)
    ensures RemovesExactly(db, Apply(db, DeleteUser(u)).0, u)
  {
  }

  lemma UserRequestsReach(c: Suite, indexed: bool, db: Db, body: Body, random: Random, u: Id)
    requires JsonStr(body, UserId) == Got(u)
    ensures var op := CreateUser(u, random.key);
            Handle(c, indexed, db, Request(POST, AccessUser, body), random) ==
            (Apply(db, op).0, Respond(c, op, Apply(db, op).1))
    ensures Handle(c, indexed, db, Request(DELETE, AccessUser, body), random) ==
            (Apply(db, DeleteUser(CString(u))).0, Positive(Plain))
    ensures forall any :: Handle(c, indexed, db, Request(DELETE, AccessAll, any), random) == (EMPTY, Positive(Plain))
  {
  }

  lemma EnvelopeOkMeans(c: Suite, indexed: bool, db: Db, body: Body, random: Random, g: Id, b: Bytes)
    requires JsonStr(body, GroupId) == Got(g) && JsonStr(body, BucketKey) == Got(b)
    ensures var (db', r) := Handle(c, indexed, db, Request(POST, VerifierEnvelope, body), random);
            r.Positive? ==> Met(c, indexed, random, Envelope(g, c.b64Decode(b)), db, db', r.reply)
  {
  }

  // ---------- Deleting by name ----------

  ghost predicate Occurs(db: Db, u: Id) {
    u in db.users || exists g :: Member(db, g, u)
  }

  lemma RemovedOnce(db: Db, db': Db, u: Id, v: Id)
    requires u != v && RemovesExactly(db, db', v)
    ensures RemovesExactly(db, db', u) <==> !Occurs(db, u) && !Occurs(db, v)
  {
    if RemovesExactly(db, db', u) {
      assert forall g :: Member(db', g, u) <==> Member(db, g, u);
      assert forall g :: Member(db', g, v) <==> Member(db, g, v);
    }
  }

  /** Exactly when a deletion request removes the user it names and nobody else: the name has no zero byte,
      or there is neither a user of that name nor one of the name cut at its first zero byte. */
  lemma DeletionExactIff(c: Suite, indexed: bool, db: Db, body: Body, random: Random, u: Id)
    requires JsonStr(body, UserId) == Got(u)
    ensures var db' := Handle(c, indexed, db, Request(DELETE, AccessUser, body), random).0;
            RemovesExactly(db, db', u) <==> 0 !in u || (!Occurs(db, u) && !Occurs(db, CString(u)))
  {
    UserOkMeans(c, indexed, db, body, random, u);
    var db' := Handle(c, indexed, db, Request(DELETE, AccessUser, body), random).0;
    if 0 in u { RemovedOnce(db, db', u, CString(u)); }
  }

  /** In every database exactly for the names without a zero byte. */
  lemma DeletionAlwaysExactIff(c: Suite, indexed: bool, body: Body, random: Random, u: Id)
    requires JsonStr(body, UserId) == Got(u)
    ensures (forall db :: RemovesExactly(db, Handle(c, indexed, db, Request(DELETE, AccessUser, body), random).0, u))
            <==> 0 !in u
  {
    if 0 !in u {
      forall db ensures RemovesExactly(db, Handle(c, indexed, db, Request(DELETE, AccessUser, body), random).0, u) {
        DeletionExactIff(c, indexed, db, body, random, u);
      }
    } else {
      var db := Db(map[], map[u := []]);
      assert Occurs(db, u);
      DeletionExactIff(c, indexed, db, body, random, u);
    }
  }

  /** Exactly when a deletion takes the named user out of all groups. */
  lemma DeletionRevokesIff(c: Suite, indexed: bool, db: Db, body: Body, random: Random, g: Id, u: Id)
    requires JsonStr(body, UserId) == Got(u)
    ensures var db' := Handle(c, indexed, db, Request(DELETE, AccessUser, body), random).0;
            !Member(db', g, u) <==> 0 !in u || !Member(db, g, u)
  {
    UserOkMeans(c, indexed, db, body, random, u);
  }

  /** Asked to delete "a\0b", the service answers ok, keeps "a\0b" in its group and deletes "a". */
  lemma CutNameDeletesAnother(c: Suite, indexed: bool, random: Random, key: Bytes, key': Bytes, g: Id)
    ensures var a: Id, ab: Id := [97], [97, 0, 98];
            var db := Db(map[g := {a, ab}], map[a := key, ab := key']);
            Handle(c, indexed, db, Request(DELETE, AccessUser, Object(map[UserId := Text(ab)])), random)
            == (Db(map[g := {ab}], map[ab := key']), Positive(Plain))
  {
    var a: Id, ab: Id := [97], [97, 0, 98];
    var db := Db(map[g := {a, ab}], map[a := key, ab := key']);
    assert CString(ab) == a by { assert ab[1] == 0; }
    assert {a, ab} - {a} == {ab};
    assert WithoutUser(db.groups, a) == map[g := {ab}];
    assert db.users - {a} == map[ab := key'];
  }

  // ---------- When "ok" means done ----------

  /** The demands that a verb and a path can stand for. */
  predicate Fits(verb: Verb, path: Path, demand: Demand) {
    match (verb, path)
    case (GET, Ping) => demand.Probe?
    case (PUT, AccessUsergroup) => demand.Add?
    case (POST, AccessUser) => demand.NewUser?
    case (POST, AccessGroup) => demand.NewGroup?
    case (POST, VerifierEnvelope) => demand.Envelope?
    case (POST, VerifierUsergroup) => demand.Ask?
    case (DELETE, AccessUsergroup) => demand.Remove?
    case (DELETE, AccessUser) => demand.DropUser?
    case (DELETE, AccessAll) => demand.DropAll?
    case _ => false
  }

  /** Whenever the request is answered ok, the demand has been met. */
  ghost predicate OkMeans(c: Suite, indexed: bool, request: Request, demand: Demand) {
    forall db, random ::
      var (db', r) := Handle(c, indexed, db, request, random);
      r.Positive? ==> Met(c, indexed, random, demand, db, db', r.reply)
  }

  ghost predicate SometimesOk(c: Suite, indexed: bool, request: Request) {
    exists db, random :: Handle(c, indexed, db, request, random).1.Positive?
  }

  /** The fields that a path reads, in the order in which it reads them. */
  function FieldsRead(verb: Verb, path: Path): seq<Name> {
    match (verb, path)
    case (PUT, AccessUsergroup) => [GroupName, UserId]
    case (POST, AccessUser) => [UserId]
    case (POST, AccessGroup) => [GroupName, UserId]
    case (POST, VerifierEnvelope) => [BucketKey, GroupId]
    case (POST, VerifierUsergroup) => [GroupName, UserId]
    case (DELETE, AccessUsergroup) => [GroupName, UserId]
    case (DELETE, AccessUser) => [UserId]
    case _ => []
  }

  predicate IsText(body: Body, name: Name) {
    body.Object? && name in body.fields && body.fields[name].Text?
  }

  /** A known verb, and texts in all fields that are read. */
  predicate WellFormed(request: Request) {
    && request.verb != OtherVerb
    && forall name :: name in FieldsRead(request.verb, request.path) ==> IsText(request.body, name)
  }

  function TextAt(body: Body, name: Name): (t: Bytes)
    ensures IsText(body, name) ==> JsonStr(body, name) == Got(t)
  {
    if IsText(body, name) then body.fields[name].value else []
  }

  /** An ok without the demand: answered to a request that is not well-formed, it changes nothing. */
  lemma OkWithoutEffect(c: Suite, indexed: bool, db: Db, request: Request, random: Random)
    requires !WellFormed(request) && Handle(c, indexed, db, request, random).1.Positive?
    ensures forall db, random :: Handle(c, indexed, db, request, random) == (db, Positive(Plain))
  {
    if request.verb != OtherVerb {
      SomeFirstUnreadable(request);
      var i: nat :| FirstUnreadable(request, i);
      UnreadableAnswer(c, indexed, db, request, random, i);
      forall db, random ensures Handle(c, indexed, db, request, random) == (db, Positive(Plain)) {
        UnreadableAnswer(c, indexed, db, request, random, i);
      }
    }
  }

  /** What a well-formed request names. */
  function Wanted(c: Suite, request: Request): Demand {
    var body := request.body;
    match (request.verb, request.path)
    case (PUT, AccessUsergroup) => Add(TextAt(body, GroupName), TextAt(body, UserId))
    case (POST, AccessUser) => NewUser(TextAt(body, UserId))
    case (POST, AccessGroup) => NewGroup(TextAt(body, GroupName), TextAt(body, UserId))
    case (POST, VerifierEnvelope) => Envelope(TextAt(body, GroupId), c.b64Decode(TextAt(body, BucketKey)))
    case (POST, VerifierUsergroup) => Ask(TextAt(body, GroupName), TextAt(body, UserId))
    case (DELETE, AccessUsergroup) => Remove(TextAt(body, GroupName), TextAt(body, UserId))
    case (DELETE, AccessUser) => DropUser(CString(TextAt(body, UserId)))
    case (DELETE, AccessAll) => DropAll
    case _ => Probe
  }

  /** What a well-formed request names is what an ok promises, but for the cut name of a deletion. */
  lemma OkMeansWanted(c: Suite, indexed: bool, request: Request)
    requires WellFormed(request)
    ensures OkMeans(c, indexed, request, Wanted(c, request))
  {
    forall db, random
      ensures var (db', r) := Handle(c, indexed, db, request, random);
              r.Positive? ==> Met(c, indexed, random, Wanted(c, request), db, db', r.reply)
    {
      WantedIsMet(c, indexed, db, request, random);
    }
  }

  lemma WantedIsMet(c: Suite, indexed: bool, db: Db, request: Request, random: Random)
    requires WellFormed(request)
    ensures var (db', r) := Handle(c, indexed, db, request, random);
            r.Positive? ==> Met(c, indexed, random, Wanted(c, request), db, db', r.reply)
  {
    var Request(verb, path, body) := request;
    match (verb, path) {
      case (PUT, AccessUsergroup) =>
        MembershipOkMeans(c, indexed, db, body, random, TextAt(body, GroupName), TextAt(body, UserId));
      case (DELETE, AccessUsergroup) =>
        MembershipOkMeans(c, indexed, db, body, random, TextAt(body, GroupName), TextAt(body, UserId));
      case (POST, AccessGroup) =>
        GroupOkMeans(c, indexed, db, body, random, TextAt(body, GroupName), TextAt(body, UserId));
      case (POST, VerifierUsergroup) =>
        GroupOkMeans(c, indexed, db, body, random, TextAt(body, GroupName), TextAt(body, UserId));
      case (POST, AccessUser) => UserOkMeans(c, indexed, db, body, random, TextAt(body, UserId));
      case (DELETE, AccessUser) => UserOkMeans(c, indexed, db, body, random, TextAt(body, UserId));
      case (POST, VerifierEnvelope) =>
        EnvelopeOkMeans(c, indexed, db, body, random, TextAt(body, GroupId), TextAt(body, BucketKey));
      case _ =>
    }
  }

  /** No demand that reads a field is met in every database by leaving everything alone. */
  lemma NothingDoneIsNotMet(c: Suite, indexed: bool, random: Random, demand: Demand)
    requires !demand.Probe? && !demand.DropAll?
    ensures exists db :: !Met(c, indexed, random, demand, db, db, Plain)
  {
    var db := if demand.DropUser? then Db(map[], map[demand.uid := []]) else EMPTY;
    assert !Met(c, indexed, random, demand, db, db, Plain);
  }

  /** Over every verb, path and body that is ever answered ok: there is something that the ok can be relied
      on for if and only if the verb is known and every field that is read is a text. Otherwise the ok never
      comes with any change. */
  lemma OkMeansDoneIff(c: Suite, indexed: bool, request: Request)
    requires SometimesOk(c, indexed, request)
    ensures (exists demand :: Fits(request.verb, request.path, demand) && OkMeans(c, indexed, request, demand))
            <==> WellFormed(request)
    ensures !WellFormed(request) ==>
              forall db, random :: Handle(c, indexed, db, request, random) == (db, Positive(Plain))
  {
    var db0, random :| Handle(c, indexed, db0, request, random).1.Positive?;
    if WellFormed(request) {
      OkMeansWanted(c, indexed, request);
      assert Fits(request.verb, request.path, Wanted(c, request));
    } else {
      OkWithoutEffect(c, indexed, db0, request, random);
      forall demand | Fits(request.verb, request.path, demand) ensures !OkMeans(c, indexed, request, demand) {
        NothingDoneIsNotMet(c, indexed, random, demand);
        var db :| !Met(c, indexed, random, demand, db, db, Plain);
        assert Handle(c, indexed, db, request, random) == (db, Positive(Plain));
      }
    }
  }

  /** A user_id that is a number, say: the addition is answered ok and nobody is added. */
  lemma NumberAnsweredOk(c: Suite, indexed: bool, db: Db, random: Random, g: Id)
    ensures var body := Object(map[GroupName := Text(g), UserId := NotText]);
            Handle(c, indexed, db, Request(PUT, AccessUsergroup, body), random) == (db, Positive(Plain))
  {
  }

  /** An unknown verb: answered ok whatever it asks for. */
  lemma UnknownVerbAnsweredOk(c: Suite, indexed: bool, db: Db, random: Random, path: Path, body: Body)
    ensures Handle(c, indexed, db, Request(OtherVerb, path, body), random) == (db, Positive(Plain))
  {
  }

  // ---------- Which requests get an error ----------

  /** Field number i is the first one read that is not a text. */
  ghost predicate FirstUnreadable(request: Request, i: nat) {
    var fields := FieldsRead(request.verb, request.path);
    && i < |fields| && !IsText(request.body, fields[i])
    && forall j :: 0 <= j < i ==> IsText(request.body, fields[j])
  }

  lemma SomeFirstUnreadable(request: Request)
    requires !WellFormed(request) && request.verb != OtherVerb
    ensures exists i: nat :: FirstUnreadable(request, i)
  {
    var fields := FieldsRead(request.verb, request.path);
    assert |fields| <= 2;
    if !IsText(request.body, fields[0]) { assert FirstUnreadable(request, 0); }
    else { assert FirstUnreadable(request, 1); }
  }

  /** A request of a known verb whose fields cannot all be read: an unparsable body and a missing field are
      errors, a field or a body of another type is answered ok. */
  lemma UnreadableAnswer(c: Suite, indexed: bool, db: Db, request: Request, random: Random, i: nat)
    requires request.verb != OtherVerb && FirstUnreadable(request, i)
    ensures var body, name := request.body, FieldsRead(request.verb, request.path)[i];
            Handle(c, indexed, db, request, random) ==
            (db, if body.Unparsable? then Negative(ParseFault)
                 else if body.Object? && name !in body.fields then Negative(MissingField)
                 else Positive(Plain))
  {
    var fields := FieldsRead(request.verb, request.path);
    assert i == 0 || (i == 1 && IsText(request.body, fields[0]));
  }

  /** So a request that is not well-formed is answered ok if and only if its verb is unknown, its body is JSON but
      no object, or the first field that cannot be read is there with another type. */
  lemma IllFormedOkIff(c: Suite, indexed: bool, db: Db, request: Request, random: Random)
    requires !WellFormed(request)
    ensures Handle(c, indexed, db, request, random).1.Positive? <==>
              request.verb == OtherVerb || request.body.NotAnObject? || FirstHasOtherType(request)
  {
    if request.verb != OtherVerb {
      SomeFirstUnreadable(request);
      var i: nat :| FirstUnreadable(request, i);
      UnreadableAnswer(c, indexed, db, request, random, i);
      if FirstHasOtherType(request) {
        var j: nat :| FirstUnreadable(request, j) && FieldsRead(request.verb, request.path)[j] in request.body.fields;
        FirstIsUnique(request, i, j);
      }
    }
  }

  ghost predicate FirstHasOtherType(request: Request) {
    request.body.Object? &&
    exists i: nat :: FirstUnreadable(request, i) && FieldsRead(request.verb, request.path)[i] in request.body.fields
  }

  lemma FirstIsUnique(request: Request, i: nat, j: nat)
    requires FirstUnreadable(request, i) && FirstUnreadable(request, j)
    ensures i == j
  {
  }

  /** A known verb on a path that it does not serve is always an error. */
  lemma UnknownPathAnswer(c: Suite, indexed: bool, db: Db, request: Request, random: Random)
    requires request.verb != OtherVerb && forall demand :: !Fits(request.verb, request.path, demand)
    ensures Handle(c, indexed, db, request, random) ==
            (db, Negative(if request.verb == POST && request.body.Unparsable? then ParseFault else UnknownCommand))
  {
    assert !Fits(request.verb, request.path, Probe) && !Fits(request.verb, request.path, DropAll);
    assert !Fits(request.verb, request.path, NewUser([])) && !Fits(request.verb, request.path, DropUser([]));
    assert !Fits(request.verb, request.path, NewGroup([], [])) && !Fits(request.verb, request.path, Ask([], []));
    assert !Fits(request.verb, request.path, Add([], [])) && !Fits(request.verb, request.path, Remove([], []));
    assert !Fits(request.verb, request.path, Envelope([], []));
  }

  /** What stands against a demand, judged from the database before the request. */
  function Objection(db: Db, demand: Demand): Option<Reason> {
    match demand
    case NewUser(u) => if u in db.users then Some(ExistingUser) else None
    case NewGroup(g, u) =>
      if g in db.groups then Some(ExistingGroup) else if u !in db.users then Some(UnknownUser) else None
    case Add(g, u) =>
      if g !in db.groups then Some(UnknownGroup) else if u !in db.users then Some(UnknownUser) else None
    case Remove(g, u) =>
      if g !in db.groups then Some(UnknownGroup) else if u !in db.users then Some(UnknownUser)
      else if u !in db.groups[g] then Some(NotAMember) else None
    case Ask(g, u) => if g !in db.groups then Some(UnknownGroup) else None
    case Envelope(g, _) =>
      if g !in db.groups then Some(UnknownGroup) else if db.groups[g] == {} then Some(EmptyGroup) else None
    case _ => None
  }

  /** A well-formed request is answered ok if and only if nothing stands against what it wants; otherwise the
      answer is the error that does. */
  lemma WellFormedOkIff(c: Suite, indexed: bool, db: Db, request: Request, random: Random)
    requires WellFormed(request) && Fits(request.verb, request.path, Wanted(c, request)) && MembersKnown(db)
    ensures var r, objection := Handle(c, indexed, db, request, random).1, Objection(db, Wanted(c, request));
            if objection == None then r.Positive? else r == Negative(Rejected(objection.value))
  {
    if request.path == VerifierEnvelope { EnvelopeOkIff(c, indexed, db, request, random); }
    else if request.verb == POST { CreationOkIff(c, indexed, db, request, random); }
    else { ChangeOkIff(c, indexed, db, request, random); }
  }

  lemma EnvelopeOkIff(c: Suite, indexed: bool, db: Db, request: Request, random: Random)
    requires WellFormed(request) && request.verb == POST && request.path == VerifierEnvelope && MembersKnown(db)
    ensures var r, objection := Handle(c, indexed, db, request, random).1, Objection(db, Wanted(c, request));
            if objection == None then r.Positive? else r == Negative(Rejected(objection.value))
  {
    var fields, g := FieldsRead(POST, VerifierEnvelope), TextAt(request.body, GroupId);
    assert fields[0] == BucketKey && fields[1] == GroupId;
    if g in db.groups && db.groups[g] != {} { GroupKeys(db, g); }
  }

  /** The answer "empty envelope" is given exactly for a group with members none of whom is known. */
  lemma EmptyEnvelopeIff(c: Suite, indexed: bool, db: Db, body: Body, random: Random, g: Id, b: Bytes)
    requires JsonStr(body, GroupId) == Got(g) && JsonStr(body, BucketKey) == Got(b)
    ensures Handle(c, indexed, db, Request(POST, VerifierEnvelope, body), random) == (db, Negative(EmptyEnvelope))
            <==> g in db.groups && db.groups[g] != {} && forall u :: Member(db, g, u) ==> u !in db.users
  {
    EmptyListingIff(db, g);
  }

  lemma CreationOkIff(c: Suite, indexed: bool, db: Db, request: Request, random: Random)
    requires WellFormed(request) && request.verb == POST && request.path != VerifierEnvelope
    requires Fits(request.verb, request.path, Wanted(c, request))
    ensures var r, objection := Handle(c, indexed, db, request, random).1, Objection(db, Wanted(c, request));
            if objection == None then r.Positive? else r == Negative(Rejected(objection.value))
  {
    var fields := FieldsRead(request.verb, request.path);
    assert IsText(request.body, fields[0]) && (|fields| == 2 ==> IsText(request.body, fields[1]));
  }

  lemma ChangeOkIff(c: Suite, indexed: bool, db: Db, request: Request, random: Random)
    requires WellFormed(request) && request.verb != POST && Fits(request.verb, request.path, Wanted(c, request))
    ensures var r, objection := Handle(c, indexed, db, request, random).1, Objection(db, Wanted(c, request));
            if objection == None then r.Positive? else r == Negative(Rejected(objection.value))
  {
    var fields := FieldsRead(request.verb, request.path);
    assert forall i :: 0 <= i < |fields| ==> IsText(request.body, fields[i]);
    assert |fields| == 2 ==> fields == [GroupName, UserId];
  }
}
