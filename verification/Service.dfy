/** The request handler (`AnonymBE::process_input`) over the in-memory database, from parsed requests
    to answers. */
module Service {
  import opened Bytes
  import opened Crypto
  import opened EnvelopeBuilder
  import opened Membership

  datatype Verb = GET | PUT | POST | DELETE | OtherVerb

  /** The paths that a branch does something for; every other path is OtherPath. */
  datatype Path =
    | Ping | AccessUsergroup | AccessUser | AccessGroup | AccessAll | VerifierEnvelope | VerifierUsergroup
    | OtherPath

  datatype Name = UserId | GroupName | GroupId | BucketKey

  datatype Field = Text(value: Bytes) | NotText

  /** What `json::parse` makes of the request body. */
  datatype Body = Unparsable | NotAnObject | Object(fields: map<Name, Field>)

  datatype Request = Request(verb: Verb, path: Path, body: Body)

  /** The random numbers one request may consume. */
  datatype Random = Random(key: Key, nonce: Iv, ivs: Ivs)

  datatype Detail = UnknownCommand | EmptyEnvelope | ParseFault | MissingField | Rejected(reason: Reason)

  /** What has been put into the JSON answer besides its result. */
  datatype Reply =
    | Plain | UserKey(b64: Bytes) | Ciphertext(b64: Bytes) | BelongsReply(yes: bool) | Info | Note(detail: Detail)

  /** `"result": "ok"` or `"result": "error"`. */
  datatype Response = Positive(reply: Reply) | Negative(detail: Detail)

  // ---------- Reading the request ----------

  datatype Exception =
    | ParseError                       // json::parse
    | OutOfRange                       // a missing field
    | TypeError                        // a field or a body of another type: only std::exception catches it
    | InvalidArgument(reason: Reason)
    | LogicError

  /** `json_str`: the text of a field, or an exception. */
  datatype Read = Got(text: Bytes) | Thrown(e: Exception)

  function JsonStr(body: Body, name: Name): Read {
    match body
    case Unparsable => Thrown(ParseError)
    case NotAnObject => Thrown(TypeError)
    case Object(fields) =>
      if name !in fields then Thrown(OutOfRange)
      else match fields[name]
        case NotText => Thrown(TypeError)
        case Text(value) => Got(value)
  }

  /** The answer that an exception leads to: a warning and a type error are answered with ok. */
  function Caught(e: Exception): Response {
    match e
    case ParseError => Negative(ParseFault)
    case OutOfRange => Negative(MissingField)
    case TypeError => Positive(Plain)
    case InvalidArgument(reason) => Negative(Rejected(reason))
    case LogicError => Positive(Info)
  }

  /** What a request asks of the database, or its immediate answer. */
  datatype Intent = Do(op: Op) | MakeEnvelope(gname: Id, bucketKey: Bytes) | AnswerWith(response: Response)

  function OfUser(body: Body, make: Id -> Op): Intent {
    match JsonStr(body, UserId)
    case Thrown(e) => AnswerWith(Caught(e))
    case Got(u) => Do(make(u))
  }

  function OfMember(body: Body, make: (Id, Id) -> Op): Intent {
    match JsonStr(body, GroupName)
    case Thrown(e) => AnswerWith(Caught(e))
    case Got(g) => OfUser(body, u => make(g, u))
  }

  function OfEnvelope(c: Suite, body: Body): Intent {
    match JsonStr(body, BucketKey)
    case Thrown(e) => AnswerWith(Caught(e))
    case Got(b) =>
      match JsonStr(body, GroupId)
      case Thrown(e) => AnswerWith(Caught(e))
      case Got(g) => MakeEnvelope(g, c.b64Decode(b))
  }

  /** What a request means. The name in a deletion passes through a C string, all other names do not. */
  function Parse(c: Suite, request: Request, random: Random): Intent {
    var body := request.body;
    match (request.verb, request.path)
    case (GET, Ping) => AnswerWith(Positive(Plain))
    case (PUT, AccessUsergroup) => OfMember(body, (g, u) => AddMember(g, u))
    case (POST, AccessUser) => OfUser(body, u => CreateUser(u, random.key))
    case (POST, AccessGroup) => OfMember(body, (g, u) => CreateGroup(g, u))
    case (POST, VerifierEnvelope) => OfEnvelope(c, body)
    case (POST, VerifierUsergroup) => OfMember(body, (g, u) => IsMember(g, u))
    case (DELETE, AccessUsergroup) => OfMember(body, (g, u) => RemoveMember(g, u))
    case (DELETE, AccessUser) => OfUser(body, u => DeleteUser(CString(u)))
    case (DELETE, AccessAll) => Do(DeleteAll)
    case (OtherVerb, _) => AnswerWith(Positive(Plain))
    case (POST, _) => AnswerWith(Negative(if body == Unparsable then ParseFault else UnknownCommand))
    case _ => AnswerWith(Negative(UnknownCommand))
  }

  // ---------- Answering ----------

  function Respond(c: Suite, op: Op, answer: Answer): Response {
    match answer
    case Done => Positive(if op.CreateUser? then UserKey(c.b64Encode(op.key)) else Plain)
    case Belongs(yes) => Positive(BelongsReply(yes))
    case Keys(_) => Positive(Plain)
    case Refused(reason) => Negative(Rejected(reason))
    case AlreadyMember => Positive(Info)
  }

  function EnvelopeFor(c: Suite, indexed: bool, keys: seq<Key>, bucketKey: Bytes, random: Random): Bytes {
    if indexed then IndexedEnvelope(c, random.nonce, keys, Resize(bucketKey, 32), random.ivs)
    else LinearEnvelope(c, keys, Resize(bucketKey, 32), random.ivs)
  }

  function RespondEnvelope(c: Suite, indexed: bool, answer: Answer, bucketKey: Bytes, random: Random): Response {
    match answer
    case Keys(keys) =>
      if keys == [] then Negative(EmptyEnvelope)
      else Positive(Ciphertext(c.b64Encode(EnvelopeFor(c, indexed, keys, bucketKey, random))))
    case Refused(reason) => Negative(Rejected(reason))
    case _ => Positive(Plain)
  }

  ghost function Carry(c: Suite, indexed: bool, db: Db, intent: Intent, random: Random): (Db, Response) {
    match intent
    case AnswerWith(r) => (db, r)
    case Do(op) =>
      var (db', answer) := Apply(db, op);
      (db', Respond(c, op, answer))
    case MakeEnvelope(g, bucketKey) => (db, RespondEnvelope(c, indexed, Apply(db, GetKeys(g)).1, bucketKey, random))
  }

  /** The handler as a function: new database and answer. */
  ghost function Handle(c: Suite, indexed: bool, db: Db, request: Request, random: Random): (Db, Response) {
    Carry(c, indexed, db, Parse(c, request, random), random)
  }

  // ---------- The handler in place ----------

  datatype Code = NoError | BadRequest

  /** How a handler of one verb ends. */
  datatype Outcome = Returned(code: Code) | Threw(e: Exception)

  function OutcomeOf(answer: Answer): Outcome {
    match answer
    case Refused(reason) => Threw(InvalidArgument(reason))
    case AlreadyMember => Threw(LogicError)
    case _ => Returned(NoError)
  }

  /** The answer to a request whose handler ended so, having put `response` into the answer. */
  function Conclude(outcome: Outcome, response: Reply): Response {
    match outcome
    case Returned(NoError) => Positive(response)
    case Returned(BadRequest) => Negative(if response.Note? then response.detail else UnknownCommand)
    case Threw(e) => if e == TypeError then Positive(response) else Caught(e)
  }

  class AnonymBE {
    const c: Suite
    const database: MemDatabase
    var init: bool
    var indexed: bool

    constructor (c: Suite, indexed: bool)
      ensures this.c == c && this.indexed == indexed && !init
      ensures fresh(database) && database.View() == EMPTY
    {
      this.c, this.indexed, this.init := c, indexed, false;
      database := new MemDatabase();
    }

    /** generate_envelope. */
    method GenerateEnvelope(body: Body, random: Random) returns (outcome: Outcome, response: Reply)
      ensures Conclude(outcome, response) ==
              match OfEnvelope(c, body)
              case MakeEnvelope(g, bucketKey) =>
                RespondEnvelope(c, indexed, Apply(database.View(), GetKeys(g)).1, bucketKey, random)
              case AnswerWith(r) => r
              case Do(_) => Positive(Plain)
    {
      response := Plain;
      var b := JsonStr(body, BucketKey);
      if b.Thrown? { return Threw(b.e), response; }
      var bucketKey := c.b64Decode(b.text);
      var g := JsonStr(body, GroupId);
      if g.Thrown? { return Threw(g.e), response; }
      outcome, response := SealForGroup(g.text, bucketKey, random);
    }

    method SealForGroup(gname: Id, bucketKey: Bytes, random: Random) returns (outcome: Outcome, response: Reply)
      ensures Conclude(outcome, response) ==
              RespondEnvelope(c, indexed, Apply(database.View(), GetKeys(gname)).1, bucketKey, random)
    {
      response := Plain;
      var answer := database.GetKeys(gname);
      if !answer.Keys? { return OutcomeOf(answer), response; }
      if answer.keys == [] {
        response := Note(EmptyEnvelope);
        return Returned(BadRequest), response;
      }
      var ctext;
      if indexed { ctext := GenerateIndexed(c, answer.keys, Resize(bucketKey, 32), random.nonce, random.ivs); }
      else { ctext := GenerateLinear(c, answer.keys, Resize(bucketKey, 32), random.ivs); }
      response := Ciphertext(c.b64Encode(ctext));
      outcome := Returned(NoError);
    }

    /** create_user: the key is put into the answer once the database has taken the user. */
    method CreateUser(body: Body, random: Random) returns (outcome: Outcome, response: Reply)
      modifies database
      ensures (database.View(), Conclude(outcome, response)) ==
              Carry(c, indexed, old(database.View()), OfUser(body, u => Op.CreateUser(u, random.key)), random)
    {
      response := Plain;
      var u := JsonStr(body, UserId);
      if u.Thrown? { return Threw(u.e), response; }
      var answer := database.CreateUser(u.text, random.key);
      outcome := OutcomeOf(answer);
      if outcome.Threw? { return; }
      response := UserKey(c.b64Encode(random.key));
    }

    method ProcessGet(request: Request) returns (outcome: Outcome)
      requires request.verb == GET
      ensures forall random :: Parse(c, request, random) == AnswerWith(Conclude(outcome, Plain))
    {
      outcome := Returned(if request.path == Ping then NoError else BadRequest);
    }

    method ProcessPut(request: Request, ghost random: Random) returns (outcome: Outcome)
      requires request.verb == PUT
      modifies database
      ensures (database.View(), Conclude(outcome, Plain)) ==
              Handle(c, indexed, old(database.View()), request, random)
    {
      if request.path != AccessUsergroup { return Returned(BadRequest); }
      var g := JsonStr(request.body, GroupName);
      if g.Thrown? { return Threw(g.e); }
      var u := JsonStr(request.body, UserId);
      if u.Thrown? { return Threw(u.e); }
      var answer := database.AddMember(g.text, u.text);
      outcome := OutcomeOf(answer);
    }

    method ProcessPost(request: Request, random: Random) returns (outcome: Outcome, response: Reply)
      requires request.verb == POST
      modifies database
      ensures (database.View(), Conclude(outcome, response)) ==
              Handle(c, indexed, old(database.View()), request, random)
    {
      response := Plain;
      if request.body == Unparsable { return Threw(ParseError), response; }
      match request.path {
        case AccessUser => outcome, response := CreateUser(request.body, random);
        case VerifierEnvelope => outcome, response := GenerateEnvelope(request.body, random);
        case AccessGroup =>
          var g := JsonStr(request.body, GroupName);
          if g.Thrown? { return Threw(g.e), response; }
          var u := JsonStr(request.body, UserId);
          if u.Thrown? { return Threw(u.e), response; }
          var answer := database.CreateGroup(g.text, u.text);
          outcome := OutcomeOf(answer);
        case VerifierUsergroup =>
          var g := JsonStr(request.body, GroupName);
          if g.Thrown? { return Threw(g.e), response; }
          var u := JsonStr(request.body, UserId);
          if u.Thrown? { return Threw(u.e), response; }
          var answer := database.IsMember(g.text, u.text);
          outcome := OutcomeOf(answer);
          if answer.Belongs? { response := BelongsReply(answer.yes); }
        case _ => outcome := Returned(BadRequest);
      }
    }

    method ProcessDelete(request: Request, ghost random: Random) returns (outcome: Outcome)
      requires request.verb == DELETE
      modifies database
      ensures (database.View(), Conclude(outcome, Plain)) ==
              Handle(c, indexed, old(database.View()), request, random)
    {
      match request.path {
        case AccessUsergroup =>
          var g := JsonStr(request.body, GroupName);
          if g.Thrown? { return Threw(g.e); }
          var u := JsonStr(request.body, UserId);
          if u.Thrown? { return Threw(u.e); }
          var answer := database.RemoveMember(g.text, u.text);
          outcome := OutcomeOf(answer);
        case AccessUser =>
          var u := JsonStr(request.body, UserId);
          if u.Thrown? { return Threw(u.e); }
          database.DeleteUser(CString(u.text));
          outcome := Returned(NoError);
        case AccessAll =>
          database.DeleteAll();
          outcome := Returned(NoError);
        case _ => outcome := Returned(BadRequest);
      }
    }

    /** process_input: the verbs, the handlers of their exceptions, and the answer. */
    method ProcessInput(request: Request, random: Random) returns (r: Response)
      modifies this`init, database
      ensures (database.View(), r) == Handle(c, indexed, old(database.View()), request, random)
      ensures init
    {
      init := true;
      var outcome, response := Returned(NoError), Plain;
      match request.verb {
        case GET => outcome := ProcessGet(request);
        case PUT => outcome := ProcessPut(request, random);
        case POST => outcome, response := ProcessPost(request, random);
        case DELETE => outcome := ProcessDelete(request, random);
        case OtherVerb =>
      }
      r := Answer(outcome, response);
    }

    method Answer(outcome: Outcome, entries: Reply) returns (r: Response)
      ensures r == Conclude(outcome, entries)
    {
      var error, extra, response := NoError, UnknownCommand, entries;
      match outcome {
        case Returned(code) =>
          error := code;
          if error == BadRequest && response.Note? { extra := response.detail; }
        case Threw(OutOfRange) => extra := MissingField; error := BadRequest;
        case Threw(ParseError) => extra := ParseFault; error := BadRequest;
        case Threw(InvalidArgument(reason)) => extra := Rejected(reason); error := BadRequest;
        case Threw(LogicError) => response := Info;
        case Threw(TypeError) => // only logged
      }
      r := if error == NoError then Positive(response) else Negative(extra);
    }
  }

  // ---------- Single requests ----------

  /** An error answer changes nothing, and neither does an "already a member" note. */
  lemma ErrorChangesNothing(c: Suite, indexed: bool, db: Db, request: Request, random: Random)
    ensures var (db', r) := Handle(c, indexed, db, request, random);
            r.Negative? || r == Positive(Info) ==> db' == db
  {
    match Parse(c, request, random) {
      case Do(op) => var (db', answer) := Apply(db, op);
      case _ =>
    }
  }

  /** Adding a member again is answered with ok and a note. */
  lemma ReAddIsNoted(c: Suite, indexed: bool, db: Db, request: Request, random: Random, g: Id, u: Id)
    requires MembersKnown(db) && Member(db, g, u)
    requires Parse(c, request, random) == Do(AddMember(g, u))
    ensures Handle(c, indexed, db, request, random) == (db, Positive(Info))
  {
  }
}
