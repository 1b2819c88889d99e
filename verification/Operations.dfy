/** Exactly when each database operation is carried out, judged from the state before it, which refusal it
    meets otherwise, and what it leaves alone. */
module Operations {
  import opened Bytes
  import opened Ordered
  import opened Membership

  lemma CreateUserIff(db: Db, u: Id, key: Bytes)
    ensures var (db', a) := Apply(db, CreateUser(u, key));
            && (a == Done <==> u !in db.users) && (a == Refused(ExistingUser) <==> u in db.users)
            && db'.groups == db.groups
            && db'.users.Keys == db.users.Keys + {u}
            && (forall v :: v in db.users ==> db'.users[v] == db.users[v])
            && (u !in db.users ==> db'.users[u] == key)
  {
  }

  lemma CreateGroupIff(db: Db, g: Id, u: Id)
    ensures var (db', a) := Apply(db, CreateGroup(g, u));
            && (a == Done <==> g !in db.groups && u in db.users)
            && (a == Refused(ExistingGroup) <==> g in db.groups)
            && (a == Refused(UnknownUser) <==> g !in db.groups && u !in db.users)
            && db'.users == db.users && db'.groups.Keys == db.groups.Keys + (if a == Done then {g} else {})
            && (forall g', v :: Member(db', g', v) <==> Member(db, g', v) || (a == Done && g' == g && v == u))
  {
  }

  lemma AddMemberIff(db: Db, g: Id, u: Id)
    ensures var (db', a) := Apply(db, AddMember(g, u));
            && (a == Done <==> g in db.groups && u in db.users && !Member(db, g, u))
            && (a == AlreadyMember <==> Member(db, g, u) && u in db.users)
            && (a == Refused(UnknownGroup) <==> g !in db.groups)
            && (a == Refused(UnknownUser) <==> g in db.groups && u !in db.users)
            && db'.users == db.users && db'.groups.Keys == db.groups.Keys
            && (forall g', v :: Member(db', g', v) <==> Member(db, g', v) || (a == Done && g' == g && v == u))
  {
  }

  /** A removal is carried out exactly for the known members; the group stays, even when it is left empty. */
  lemma RemoveMemberIff(db: Db, g: Id, u: Id)
    ensures var (db', a) := Apply(db, RemoveMember(g, u));
            && (a == Done <==> Member(db, g, u) && u in db.users)
            && (a == Refused(UnknownGroup) <==> g !in db.groups)
            && (a == Refused(UnknownUser) <==> g in db.groups && u !in db.users)
            && (a == Refused(NotAMember) <==> g in db.groups && u in db.users && !Member(db, g, u))
            && db'.users == db.users && db'.groups.Keys == db.groups.Keys
            && (forall g', v :: Member(db', g', v) <==> Member(db, g', v) && !(a == Done && g' == g && v == u))
  {
  }

  /** A deletion is always carried out; the groups stay, without the user. */
  lemma DeleteAlways(db: Db, u: Id)
    ensures var (db', a) := Apply(db, DeleteUser(u));
            && a == Done && db'.groups.Keys == db.groups.Keys && db'.users.Keys == db.users.Keys - {u}
            && (forall v :: v in db.users && v != u ==> db'.users[v] == db.users[v])
            && (forall g, v :: Member(db', g, v) <==> Member(db, g, v) && v != u)
    ensures var (db', a) := Apply(db, DeleteAll);
            a == Done && db'.groups.Keys == {} && db'.users.Keys == {}
  {
  }

  /** The questions change nothing, and are answered exactly where there is an answer. */
  lemma QuestionsIff(db: Db, g: Id, u: Id)
    ensures var (db', a) := Apply(db, IsMember(g, u));
            && db' == db && (a == Belongs(true) <==> Member(db, g, u))
            && (a == Belongs(false) <==> g in db.groups && !Member(db, g, u))
            && (a == Refused(UnknownGroup) <==> g !in db.groups)
    ensures var (db', a) := Apply(db, GetKeys(g));
            && db' == db && (a.Keys? <==> exists v :: Member(db, g, v))
            && (a == Refused(UnknownGroup) <==> g !in db.groups)
            && (a == Refused(EmptyGroup) <==> g in db.groups && forall v :: !Member(db, g, v))
  {
    if g in db.groups && db.groups[g] != {} {
      var v :| v in db.groups[g];
      assert Member(db, g, v);
    }
  }

  /** No key is listed exactly when no member is known. */
  lemma {:induction false} NoKeysIff(users: map<Id, Bytes>, uids: seq<Id>)
    ensures KeysOf(users, uids) == [] <==> forall u :: u in uids ==> u !in users
  {
    if uids != [] {
      NoKeysIff(users, uids[1..]);
      assert uids == [uids[0]] + uids[1..];
    }
  }

  lemma EmptyListingIff(db: Db, g: Id)
    ensures Apply(db, GetKeys(g)).1 == Keys([])
            <==> g in db.groups && db.groups[g] != {} && forall u :: Member(db, g, u) ==> u !in db.users
  {
    if g in db.groups {
      AscendingElements(db.groups[g]);
      NoKeysIff(db.users, Ascending(db.groups[g]));
      assert forall u :: u in Ascending(db.groups[g]) <==> Member(db, g, u);
    }
  }

  /** A key listing is put together member by member: a known one adds the stored key, cut or filled with zeros
      to 32 bytes, and an unknown one adds nothing. */
  lemma {:induction false} KeysMemberByMember(users: map<Id, Bytes>, uids: seq<Id>, u: Id)
    ensures KeysOf(users, []) == []
    ensures KeysOf(users, uids + [u]) ==
            KeysOf(users, uids) + (if u in users then [Resize(users[u], 32)] else [])
  {
    if uids == [] {
      assert [] + [u] == [u] && [u][1..] == [];
    } else {
      KeysMemberByMember(users, uids[1..], u);
      assert (uids + [u])[1..] == uids[1..] + [u];
    }
  }
}
