/** The in-memory user and group database (memory_database.cpp): its sequential meaning as a
    function on states, the class that works in place, and what holds after every history. */
module Membership {
  import opened Bytes
  import opened Ordered
  import opened Options
  import opened Crypto

  /** User and group names are `std::string`s. */
  type Id = Bytes

  datatype Db = Db(groups: map<Id, set<Id>>, users: map<Id, Bytes>)

  const EMPTY := Db(map[], map[])

  datatype Op =
    | CreateUser(uid: Id, key: Bytes)
    | CreateGroup(gname: Id, uid: Id)
    | AddMember(gname: Id, uid: Id)
    | RemoveMember(gname: Id, uid: Id)
    | DeleteUser(uid: Id)
    | DeleteAll
    | IsMember(gname: Id, uid: Id)
    | GetKeys(gname: Id)

  /** The `std::invalid_argument` exceptions, one per `throw`. */
  datatype Reason =
    | UnknownGroup | UnknownUser | ExistingUser | ExistingGroup | NotAMember | EmptyGroup
    | ShouldNotEverHappen

  datatype Answer =
    | Done
    | Belongs(yes: bool)
    | Keys(keys: seq<Key>)
    | Refused(reason: Reason)  // std::invalid_argument
    | AlreadyMember            // std::logic_error

  /** The stored keys of the known ones among `uids`, zero-filled or cut to 32 bytes. */
  function KeysOf(users: map<Id, Bytes>, uids: seq<Id>): seq<Key> {
    if uids == [] then []
    else if uids[0] in users then [Resize(users[uids[0]], 32)] + KeysOf(users, uids[1..])
    else KeysOf(users, uids[1..])
  }

  function WithoutUser(groups: map<Id, set<Id>>, uid: Id): map<Id, set<Id>> {
    map g | g in groups :: groups[g] - {uid}
  }

  /** The sequential meaning of each database method: the new state and the answer. */
  ghost function Apply(db: Db, op: Op): (Db, Answer) {
    match op
    case CreateUser(u, key) =>
      if u in db.users then (db, Refused(ExistingUser)) else (db.(users := db.users[u := key]), Done)
    case CreateGroup(g, u) =>
      if g in db.groups then (db, Refused(ExistingGroup))
      else if u !in db.users then (db, Refused(UnknownUser))
      else (db.(groups := db.groups[g := {u}]), Done)
    case AddMember(g, u) =>
      if g !in db.groups then (db, Refused(UnknownGroup))
      else if u !in db.users then (db, Refused(UnknownUser))
      else if u in db.groups[g] then (db, AlreadyMember)
      else (db.(groups := db.groups[g := db.groups[g] + {u}]), Done)
    case RemoveMember(g, u) =>
      if g !in db.groups then (db, Refused(UnknownGroup))
      else if u !in db.users then (db, Refused(UnknownUser))
      else if u !in db.groups[g] then (db, Refused(NotAMember))
      else (db.(groups := db.groups[g := db.groups[g] - {u}]), Done)
    case DeleteUser(u) => (Db(WithoutUser(db.groups, u), db.users - {u}), Done)
    case DeleteAll => (EMPTY, Done)
    case IsMember(g, u) =>
      if g !in db.groups then (db, Refused(UnknownGroup)) else (db, Belongs(u in db.groups[g]))
    case GetKeys(g) =>
      if g !in db.groups then (db, Refused(UnknownGroup))
      else if db.groups[g] == {} then (db, Refused(EmptyGroup))
      else (db, Keys(KeysOf(db.users, Ascending(db.groups[g]))))
  }

  /** Every group member is a known user. */
  ghost predicate MembersKnown(db: Db) {
    forall g, u :: g in db.groups && u in db.groups[g] ==> u in db.users
  }

  lemma ApplyKeepsMembersKnown(db: Db, op: Op)
    requires MembersKnown(db)
    ensures MembersKnown(Apply(db, op).0)
  {
  }

  // ---------- The class ----------

  /** The user has been erased from all groups but those in `todo`. */
  ghost predicate PartlyErased(before: map<Id, set<Id>>, now: map<Id, set<Id>>, todo: set<Id>, uid: Id) {
    now.Keys == before.Keys && forall g :: g in now ==> now[g] == if g in todo then before[g] else before[g] - {uid}
  }

  lemma PartlyErasedStep(before: map<Id, set<Id>>, now: map<Id, set<Id>>, todo: set<Id>, uid: Id, g: Id)
    requires PartlyErased(before, now, todo, uid) && g in todo && g in now
    ensures PartlyErased(before, now[g := now[g] - {uid}], todo - {g}, uid)
  {
  }

  lemma PartlyErasedDone(before: map<Id, set<Id>>, now: map<Id, set<Id>>, uid: Id)
    requires PartlyErased(before, now, {}, uid)
    ensures now == WithoutUser(before, uid)
  {
  }

  class MemDatabase {
    var groups: map<Id, set<Id>>
    var users: map<Id, Bytes>

    ghost function View(): Db
      reads this
    {
      Db(groups, users)
    }

    constructor ()
      ensures View() == EMPTY
    {
      groups, users := map[], map[];
    }

    method CreateUser(uid: Id, key: Bytes) returns (a: Answer)
      modifies this
      ensures (View(), a) == Apply(old(View()), Op.CreateUser(uid, key))
    {
      if uid in users { return Refused(ExistingUser); }
      users := users[uid := key];
      a := Done;
    }

    method CreateGroup(gname: Id, uid: Id) returns (a: Answer)
      modifies this
      ensures (View(), a) == Apply(old(View()), Op.CreateGroup(gname, uid))
    {
      if gname in groups { return Refused(ExistingGroup); }
      if uid !in users { return Refused(UnknownUser); }
      groups := groups[gname := {uid}];
      a := Done;
    }

    method AddMember(gname: Id, uid: Id) returns (a: Answer)
      modifies this
      ensures (View(), a) == Apply(old(View()), Op.AddMember(gname, uid))
    {
      if gname !in groups { return Refused(UnknownGroup); }
      if uid !in users { return Refused(UnknownUser); }
      var inserted := uid !in groups[gname];
      groups := groups[gname := groups[gname] + {uid}];
      if inserted { return Done; }
      assert groups == old(groups) by { assert groups[gname] == old(groups)[gname]; }
      a := AlreadyMember;
    }

    /** The last branch cannot be reached: what was just found is erased. */
    method RemoveMember(gname: Id, uid: Id) returns (a: Answer)
      modifies this
      ensures (View(), a) == Apply(old(View()), Op.RemoveMember(gname, uid))
      ensures a != Refused(ShouldNotEverHappen)
    {
      if gname !in groups { return Refused(UnknownGroup); }
      if uid !in users { return Refused(UnknownUser); }
      if uid !in groups[gname] { return Refused(NotAMember); }
      var erased := if uid in groups[gname] then 1 else 0;
      groups := groups[gname := groups[gname] - {uid}];
      a := if erased == 0 then Refused(ShouldNotEverHappen) else Done;
    }

    /** Erase the user from one group after the other, then from the users. */
    method DeleteUser(uid: Id)
      modifies this
      ensures View() == Apply(old(View()), Op.DeleteUser(uid)).0
    {
      var todo := groups.Keys;
      while todo != {}
        invariant users == old(users) && todo <= groups.Keys && PartlyErased(old(groups), groups, todo, uid)
        decreases |todo|
      {
        var g :| g in todo;
        PartlyErasedStep(old(groups), groups, todo, uid, g);
        groups := groups[g := groups[g] - {uid}];
        todo := todo - {g};
      }
      PartlyErasedDone(old(groups), groups, uid);
      users := users - {uid};
    }

    method DeleteAll()
      modifies this
      ensures View() == EMPTY
    {
      users := map[];
      groups := map[];
    }

    method IsMember(gname: Id, uid: Id) returns (a: Answer)
      ensures (View(), a) == Apply(View(), Op.IsMember(gname, uid))
    {
      a := if gname in groups then Belongs(uid in groups[gname]) else Refused(UnknownGroup);
    }

    /** Walk the members in order and collect the keys of those who are known. */
    method GetKeys(gname: Id) returns (a: Answer)
      ensures (View(), a) == Apply(View(), Op.GetKeys(gname))
    {
      if gname !in groups { return Refused(UnknownGroup); }
      if groups[gname] == {} { return Refused(EmptyGroup); }
      var ret := CollectKeys(users, groups[gname]);
      a := Keys(ret);
    }
  }

  /** The loop of `get_keys_of_group`. */
  method CollectKeys(users: map<Id, Bytes>, members: set<Id>) returns (ret: seq<Key>)
    ensures ret == KeysOf(users, Ascending(members))
  {
    ret := [];
    var todo := members;
    ghost var rest := KeysOf(users, Ascending(members));
    while todo != {}
      invariant rest == KeysOf(users, Ascending(todo))
      invariant ret + rest == KeysOf(users, Ascending(members))
      decreases |todo|
    {
      var uid := TakeLeast(todo);
      KeysOfStep(users, todo, uid);
      todo := todo - {uid};
      rest := KeysOf(users, Ascending(todo));
      if uid in users {
        ret := AppendKey(ret, users[uid], rest);
      }
    }
  }

  method TakeLeast(s: set<Id>) returns (x: Id)
    requires s != {}
    ensures IsLeast(x, s)
  {
    LeastExists(s);
    x :| x in s && forall y :: y in s && y != x ==> Less(x, y);
  }

  method AppendKey(ret: seq<Key>, stored: Bytes, ghost rest: seq<Key>) returns (r: seq<Key>)
    ensures r == ret + [Resize(stored, 32)]
    ensures r + rest == ret + ([Resize(stored, 32)] + rest)
  {
    var key: Key := Resize(stored, 32);
    r := ret + [key];
  }

  lemma AscendingHead(s: set<Id>, x: Id)
    requires IsLeast(x, s)
    ensures Ascending(s) == [x] + Ascending(s - {x})
  {
    LeastExists(s);
    var y :| IsLeast(y, s) && Ascending(s) == [y] + Ascending(s - {y});
    LeastUnique(x, y, s);
  }

  lemma KeysOfStep(users: map<Id, Bytes>, s: set<Id>, x: Id)
    requires IsLeast(x, s)
    ensures var rest := KeysOf(users, Ascending(s - {x}));
            KeysOf(users, Ascending(s)) == if x in users then [Resize(users[x], 32)] + rest else rest
  {
    AscendingHead(s, x);
    assert Ascending(s)[1..] == Ascending(s - {x});
  }

  // ---------- Histories ----------

  ghost function Run(db: Db, ops: seq<Op>): Db {
    if ops == [] then db else Apply(Run(db, ops[..|ops| - 1]), ops[|ops| - 1]).0
  }

  /** The answer to the last request of a history. */
  ghost function LastAnswer(ops: seq<Op>): Answer
    requires ops != []
  {
    Apply(Run(EMPTY, ops[..|ops| - 1]), ops[|ops| - 1]).1
  }

  lemma {:induction false} HistoriesKeepMembersKnown(ops: seq<Op>)
    ensures MembersKnown(Run(EMPTY, ops))
  {
    if ops != [] {
      HistoriesKeepMembersKnown(ops[..|ops| - 1]);
      ApplyKeepsMembersKnown(Run(EMPTY, ops[..|ops| - 1]), ops[|ops| - 1]);
    }
  }

  ghost predicate Member(db: Db, g: Id, u: Id) {
    g in db.groups && u in db.groups[g]
  }

  /** How an answered request touches a membership: in, out, or not at all. */
  function Touch(op: Op, answer: Answer, g: Id, u: Id): Option<bool> {
    if answer != Done then None
    else match op
      case CreateGroup(g', u') => if g' == g && u' == u then Some(true) else None
      case AddMember(g', u') => if g' == g && u' == u then Some(true) else None
      case RemoveMember(g', u') => if g' == g && u' == u then Some(false) else None
      case DeleteUser(u') => if u' == u then Some(false) else None
      case DeleteAll => Some(false)
      case _ => None
  }

  ghost function LastTouch(ops: seq<Op>, g: Id, u: Id): Option<bool> {
    if ops == [] then None
    else
      var t := Touch(ops[|ops| - 1], LastAnswer(ops), g, u);
      if t.Some? then t else LastTouch(ops[..|ops| - 1], g, u)
  }

  /** After any history, u belongs to g iff the last effective request that touched the pair was a
      create or an add. */
  lemma {:induction false} MembershipIsLastTouch(ops: seq<Op>, g: Id, u: Id)
    ensures Member(Run(EMPTY, ops), g, u) <==> LastTouch(ops, g, u) == Some(true)
  {
    if ops != [] {
      MembershipIsLastTouch(ops[..|ops| - 1], g, u);
      TouchDecides(Run(EMPTY, ops[..|ops| - 1]), ops[|ops| - 1], g, u);
    }
  }

  /** An operation touches a membership if it makes or ends it, and leaves it alone otherwise. */
  lemma TouchDecides(db: Db, op: Op, g: Id, u: Id)
    ensures var (db', answer) := Apply(db, op);
            match Touch(op, answer, g, u)
            case None => Member(db', g, u) <==> Member(db, g, u)
            case Some(joins) => Member(db', g, u) <==> joins
  {
  }

  /** Nothing survives the deletion of a user: whoever is created again under the name belongs to a
      group only if added to it since. */
  lemma {:induction false} DeletedUserStartsAfresh(ops: seq<Op>, i: nat, g: Id, u: Id)
    requires i < |ops| && (ops[i] == DeleteUser(u) || ops[i] == DeleteAll)
    requires forall j :: i < j < |ops| ==> Touch(ops[j], LastAnswer(ops[..j + 1]), g, u) != Some(true)
    ensures !Member(Run(EMPTY, ops), g, u)
  {
    MembershipIsLastTouch(ops, g, u);
    var rest := ops[..|ops| - 1];
    assert ops[..|ops|] == ops;
    if i < |ops| - 1 {
      forall j | i < j < |rest| ensures Touch(rest[j], LastAnswer(rest[..j + 1]), g, u) != Some(true) {
        assert rest[..j + 1] == ops[..j + 1];
      }
      DeletedUserStartsAfresh(rest, i, g, u);
      MembershipIsLastTouch(rest, g, u);
      assert Touch(ops[|ops| - 1], LastAnswer(ops), g, u) != Some(true);
    }
  }

  /** The key of the last effective creation of u that no deletion followed. */
  ghost function LastKey(ops: seq<Op>, u: Id): Option<Bytes> {
    if ops == [] then None
    else
      var rest := LastKey(ops[..|ops| - 1], u);
      match ops[|ops| - 1]
      case CreateUser(u', key) => if u' == u && LastAnswer(ops) == Done then Some(key) else rest
      case DeleteUser(u') => if u' == u then None else rest
      case DeleteAll => None
      case _ => rest
  }

  /** The key stored for u is the one its last creation was answered with; no other request can
      change it. */
  lemma {:induction false} StoredKeyIsLastKey(ops: seq<Op>, u: Id)
    ensures var db := Run(EMPTY, ops);
            LastKey(ops, u) == if u in db.users then Some(db.users[u]) else None
  {
    if ops != [] { StoredKeyIsLastKey(ops[..|ops| - 1], u); }
  }

  // ---------- The keys of a group ----------

  lemma {:induction false} KeysOfKnown(users: map<Id, Bytes>, uids: seq<Id>)
    requires forall u :: u in uids ==> u in users
    ensures |KeysOf(users, uids)| == |uids|
    ensures forall i :: 0 <= i < |uids| ==> KeysOf(users, uids)[i] == Resize(users[uids[i]], 32)
  {
    if uids != [] { KeysOfKnown(users, uids[1..]); }
  }

  /** One key per member, in the order of the names, as stored. */
  ghost predicate OneKeyPerMember(db: Db, g: Id, ks: seq<Key>)
    requires g in db.groups
  {
    var us := Ascending(db.groups[g]);
    && StrictlySorted(us) && |ks| == |us|
    && forall i :: 0 <= i < |us| ==> us[i] in db.users && ks[i] == Resize(db.users[us[i]], 32)
  }

  /** Where members are known, a group that is not empty yields one key per member; so the list is never
      empty. */
  lemma GroupKeys(db: Db, g: Id)
    requires MembersKnown(db) && g in db.groups && db.groups[g] != {}
    ensures var a := Apply(db, GetKeys(g)).1;
            a.Keys? && OneKeyPerMember(db, g, a.keys) && |a.keys| == |db.groups[g]| && a.keys != []
  {
    AscendingElements(db.groups[g]);
    AscendingSorted(db.groups[g]);
    KeysOfKnown(db.users, Ascending(db.groups[g]));
  }

  /** k is the key stored for a member of g, as the server uses it. */
  ghost predicate MemberKey(db: Db, g: Id, k: Bytes) {
    exists u :: Member(db, g, u) && u in db.users && Resize(db.users[u], 32) == k
  }

  lemma ListedIffMemberKey(db: Db, g: Id, ks: seq<Key>, k: Bytes)
    requires g in db.groups && OneKeyPerMember(db, g, ks)
    ensures k in ks <==> MemberKey(db, g, k)
  {
    var us := Ascending(db.groups[g]);
    AscendingElements(db.groups[g]);
    if k in ks {
      var i :| 0 <= i < |ks| && ks[i] == k;
      assert us[i] in us && Member(db, g, us[i]);
    }
    if MemberKey(db, g, k) {
      var u :| Member(db, g, u) && u in db.users && Resize(db.users[u], 32) == k;
      var i :| 0 <= i < |us| && us[i] == u;
      assert ks[i] == k;
    }
  }
}
