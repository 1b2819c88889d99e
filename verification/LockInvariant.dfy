/** What every step of the locked database keeps: mutual exclusion, what a thread may rely on while
    it holds a mutex, and that every group member is a known user. */
module LockInvariant {
  import opened Bytes
  import opened Options
  import opened Membership
  import opened Locks

  /** A mutex is taken exactly when its holder is at a position between its lock and its unlock. */
  ghost predicate Exclusive(s: State) {
    && (s.g.Some? ==> s.g.value < |s.threads|) && (s.u.Some? ==> s.u.value < |s.threads|)
    && forall t :: 0 <= t < |s.threads| ==>
         && Typed(s.threads[t])
         && (HoldsG(s.threads[t]) <==> s.g == Some(t))
         && (HoldsU(s.threads[t]) <==> s.u == Some(t))
  }

  /** What a thread has found out and may still count on at its position. */
  ghost predicate LocalOk(db: Db, pc: Pc)
    requires Typed(pc)
  {
    match pc
    case WantU(op) => GroupCheck(db, op) == None
    case LookUser(op) => GroupCheck(db, op) == None
    case RelU(op, known) => GroupCheck(db, op) == None && (known <==> op.uid in db.users)
    case LookMember(op) => op.gname in db.groups && op.uid in db.users
    case Write(op) => && GroupCheck(db, op) == None && op.uid in db.users
                      && (op.RemoveMember? ==> op.uid in db.groups[op.gname])
    case CuWrite(op) => op.uid !in db.users
    case Erasing(op, todo) => todo <= db.groups.Keys
                              && forall g :: g in db.groups && g !in todo ==> op.uid !in db.groups[g]
    case EraseUser(op) => forall g :: g in db.groups ==> op.uid !in db.groups[g]
    case ClearGroups(op) => db.users == map[]
    case GkLoop(op, todo, _) => op.gname in db.groups && todo <= db.groups[op.gname]
    case GkRead(op, todo, _) => op.gname in db.groups && todo <= db.groups[op.gname] && todo != {}
    case GkRelU(op, todo, _) => op.gname in db.groups && todo <= db.groups[op.gname]
    case _ => true
  }

  ghost predicate AllLocalOk(s: State)
    requires Exclusive(s)
  {
    forall t :: 0 <= t < |s.threads| ==> LocalOk(s.db, s.threads[t])
  }

  /** The one moment at which members may be unknown: between the two `clear`s of delete_all_data. */
  ghost predicate Clearing(s: State) {
    exists t :: 0 <= t < |s.threads| && s.threads[t].ClearGroups?
  }

  ghost predicate Inv(s: State) {
    Exclusive(s) && AllLocalOk(s) && (Clearing(s) || MembersKnown(s.db))
  }

  // ---------- One thread against the others ----------

  ghost predicate Extends(users: map<Id, Bytes>, users': map<Id, Bytes>) {
    forall u :: u in users ==> u in users' && users'[u] == users[u]
  }

  /** What a position relies on when another thread moves the database from db to db'. */
  ghost predicate Rely(db: Db, db': Db, pc: Pc) {
    && (HoldsG(pc) ==> db'.groups == db.groups && Extends(db.users, db'.users))
    && (HoldsU(pc) ==> db'.users == db.users)
  }

  /** An action changes the groups only under gmutex_, adds users only under umutex_, and drops users
      only under both. */
  lemma NextGuarantees(db: Db, pc: Pc)
    requires Typed(pc) && pc != Idle && LocalOk(db, pc)
    ensures var db' := Next(db, pc).db;
            && (!HoldsG(pc) ==> db'.groups == db.groups && Extends(db.users, db'.users))
            && (!HoldsU(pc) ==> db'.users == db.users)
  {
  }

  lemma LocalOkStable(db: Db, db': Db, pc: Pc)
    requires Typed(pc) && LocalOk(db, pc) && Rely(db, db', pc)
    ensures LocalOk(db', pc)
  {
  }

  lemma NextLocalOk(db: Db, pc: Pc)
    requires Typed(pc) && pc != Idle && LocalOk(db, pc)
    ensures var a := Next(db, pc); Typed(a.pc) && LocalOk(a.db, a.pc)
  {
    NextMovesLocks(db, pc);
    if pc.Erasing? && pc.todo != {} {
      assert Least(pc.todo) in db.groups;
    }
  }

  lemma NextMembersKnown(db: Db, pc: Pc)
    requires Typed(pc) && pc != Idle && LocalOk(db, pc)
    requires MembersKnown(db) || pc.ClearGroups?
    ensures var a := Next(db, pc); MembersKnown(a.db) || a.pc.ClearGroups?
  {
  }

  // ---------- The system ----------

  lemma AdvanceExclusive(s: State, t: nat)
    requires Exclusive(s) && Enabled(s, t)
    ensures Exclusive(After(s, Advance(t)))
    ensures var a := Next(s.db, s.threads[t]);
            && (HoldsG(s.threads[t]) || a.g == Acquire ==>
                  forall t' :: 0 <= t' < |s.threads| && t' != t ==> !HoldsG(s.threads[t']))
            && (HoldsU(s.threads[t]) || a.u == Acquire ==>
                  forall t' :: 0 <= t' < |s.threads| && t' != t ==> !HoldsU(s.threads[t']))
  {
    NextMovesLocks(s.db, s.threads[t]);
  }

  /** Two threads never hold the same mutex, so what one does respects what the other relies on. */
  lemma AdvanceRespects(s: State, t: nat, t': nat)
    requires Exclusive(s) && AllLocalOk(s) && Enabled(s, t) && t' < |s.threads| && t' != t
    ensures Rely(s.db, After(s, Advance(t)).db, s.threads[t'])
  {
    NextGuarantees(s.db, s.threads[t]);
  }

  lemma AdvanceLocalOk(s: State, t: nat)
    requires Exclusive(s) && AllLocalOk(s) && Enabled(s, t)
    ensures Exclusive(After(s, Advance(t))) && AllLocalOk(After(s, Advance(t)))
  {
    AdvanceExclusive(s, t);
    var s' := After(s, Advance(t));
    NextLocalOk(s.db, s.threads[t]);
    forall t' | 0 <= t' < |s'.threads| ensures LocalOk(s'.db, s'.threads[t']) {
      if t' != t {
        AdvanceRespects(s, t, t');
        LocalOkStable(s.db, s'.db, s.threads[t']);
      }
    }
  }

  lemma AdvanceInv(s: State, t: nat)
    requires Inv(s) && Enabled(s, t)
    ensures Inv(After(s, Advance(t)))
  {
    AdvanceLocalOk(s, t);
    var s', pc := After(s, Advance(t)), s.threads[t];
    if Clearing(s) && !pc.ClearGroups? {
      var c :| 0 <= c < |s.threads| && s.threads[c].ClearGroups?;
      assert s'.threads[c].ClearGroups?;
    } else {
      NextMembersKnown(s.db, pc);
      if s'.threads[t].ClearGroups? { assert Clearing(s'); }
    }
  }

  lemma InvokeInv(s: State, t: nat, op: Op)
    requires Inv(s) && CanHappen(s, Invoke(t, op))
    ensures Inv(After(s, Invoke(t, op)))
  {
    var s' := After(s, Invoke(t, op));
    assert Exclusive(s');
    if Clearing(s) {
      var c :| 0 <= c < |s.threads| && s.threads[c].ClearGroups?;
      assert s'.threads[c].ClearGroups?;
    }
  }

  lemma {:induction false} ReachInv(n: nat, events: seq<Event>)
    requires Reach(n, events).Some?
    ensures Inv(Reach(n, events).value)
  {
    if events == [] {
      assert MembersKnown(EMPTY);
    } else {
      var prefix, last := events[..|events| - 1], events[|events| - 1];
      ReachInv(n, prefix);
      match last {
        case Invoke(t, op) => InvokeInv(Reach(n, prefix).value, t, op);
        case Advance(t) => AdvanceInv(Reach(n, prefix).value, t);
      }
    }
  }

  // ---------- Safety ----------

  lemma KnownIffNotExposed(s: State)
    requires Inv(s)
    ensures MembersKnown(s.db) <==> !(Clearing(s) && exists g :: g in s.db.groups && s.db.groups[g] != {})
  {
    if Clearing(s) {
      var t :| 0 <= t < |s.threads| && s.threads[t].ClearGroups?;
      assert LocalOk(s.db, s.threads[t]);
      forall g | g in s.db.groups && s.db.groups[g] != {} ensures !MembersKnown(s.db) {
        var u :| u in s.db.groups[g];
        assert u !in s.db.users;
      }
    }
  }

  /** For any number of threads and every interleaving, exactly when members are known: always, except
      between the two `clear`s of delete_all_data while some group still has a member. */
  lemma MembersKnownIff(n: nat, events: seq<Event>)
    requires Reach(n, events).Some?
    ensures var s := Reach(n, events).value;
            MembersKnown(s.db) <==> !(Clearing(s) && exists g :: g in s.db.groups && s.db.groups[g] != {})
  {
    ReachInv(n, events);
    KnownIffNotExposed(Reach(n, events).value);
  }

  /** Nobody can see that moment: whoever holds a mutex, other than the thread that is clearing, sees
      only known members. */
  lemma LockHolderSeesKnownMembers(n: nat, events: seq<Event>, t: nat)
    requires Reach(n, events).Some? && t < n
    requires var pc := Reach(n, events).value.threads[t]; (HoldsG(pc) || HoldsU(pc)) && !pc.ClearGroups?
    ensures MembersKnown(Reach(n, events).value.db)
  {
    ReachInv(n, events);
  }

  /** The answer that a removal gives when what it has just found is no longer there. */
  predicate Astonished(pc: Pc) {
    (pc.RelG? || pc.CuRel? || pc.Return?) && pc.answer == Refused(ShouldNotEverHappen)
  }

  lemma NextNotAstonished(db: Db, pc: Pc)
    requires Typed(pc) && pc != Idle && LocalOk(db, pc) && !Astonished(pc)
    ensures !Astonished(Next(db, pc).pc)
  {
  }

  /** On every interleaving, the last `throw` of remove_user_from_group is never reached. */
  lemma {:induction false} NeverAstonished(n: nat, events: seq<Event>, t: nat)
    requires Reach(n, events).Some? && t < n
    ensures !Astonished(Reach(n, events).value.threads[t])
  {
    if events != [] {
      var prefix, last := events[..|events| - 1], events[|events| - 1];
      NeverAstonished(n, prefix, t);
      ReachInv(n, prefix);
      var s := Reach(n, prefix).value;
      if last == Advance(t) { NextNotAstonished(s.db, s.threads[t]); }
    }
  }

  ghost predicate Reachable(n: nat, s: State) {
    exists events :: Reach(n, events) == Some(s)
  }

  lemma ReachableInv(n: nat, s: State)
    requires Reachable(n, s)
    ensures Inv(s) && |s.threads| == n
  {
    var events :| Reach(n, events) == Some(s);
    ReachInv(n, events);
  }

  // ---------- Runs of some methods only ----------

  /** Only operations of this set are invoked. */
  ghost predicate Uses(events: seq<Event>, ops: iset<Op>) {
    forall i :: 0 <= i < |events| && events[i].Invoke? ==> events[i].op in ops
  }

  ghost predicate ReachableWith(n: nat, ops: iset<Op>, s: State) {
    exists events :: Uses(events, ops) && Reach(n, events) == Some(s)
  }

  lemma ExtendWith(n: nat, ops: iset<Op>, s: State, e: Event)
    requires ReachableWith(n, ops, s) && AllTyped(s) && CanHappen(s, e) && (e.Invoke? ==> e.op in ops)
    ensures ReachableWith(n, ops, After(s, e)) && AllTyped(After(s, e))
  {
    var events :| Uses(events, ops) && Reach(n, events) == Some(s);
    var longer := events + [e];
    assert longer[..|longer| - 1] == events;
    assert Uses(longer, ops) && Reach(n, longer) == Some(After(s, e));
    AfterTyped(s, e);
  }

  lemma InitReachableWith(n: nat, ops: iset<Op>)
    ensures ReachableWith(n, ops, Init(n))
  {
    assert Uses([], ops) && Reach(n, []) == Some(Init(n));
  }

  ghost predicate CanMakeUser(ops: iset<Op>, u: Id) {
    exists key :: CreateUser(u, key) in ops
  }

  /** Some group can be created with a first member who can be created. */
  ghost predicate CanMakeGroup(ops: iset<Op>) {
    exists g, u :: CreateGroup(g, u) in ops && CanMakeUser(ops, u)
  }

  /** Every method at work is one of the set, and so are those that made the users and the groups. */
  ghost predicate Sourced(s: State, ops: iset<Op>) {
    && (forall t :: 0 <= t < |s.threads| && s.threads[t] != Idle ==> s.threads[t].op in ops)
    && (forall u :: u in s.db.users ==> CanMakeUser(ops, u))
    && (s.db.groups != map[] ==> CanMakeGroup(ops))
  }

  lemma NextSourced(db: Db, pc: Pc)
    requires Typed(pc) && pc != Idle && LocalOk(db, pc)
    ensures var a := Next(db, pc);
            && (a.pc == Idle || a.pc.op == pc.op)
            && (forall u :: u in a.db.users ==> u in db.users || (pc.op.CreateUser? && pc.op.uid == u))
            && (a.db.groups != map[] ==> db.groups != map[] || (pc.op.CreateGroup? && pc.op.uid in db.users))
  {
    if pc.Erasing? && pc.todo != {} {
      assert Least(pc.todo) in db.groups;
    }
  }

  lemma AdvanceSourced(s: State, t: nat, ops: iset<Op>)
    requires Inv(s) && Enabled(s, t) && Sourced(s, ops)
    ensures Sourced(After(s, Advance(t)), ops)
  {
    NextSourced(s.db, s.threads[t]);
    assert s.threads[t].op in ops;
    DbSourced(s.db, s.threads[t], ops);
  }

  lemma DbSourced(db: Db, pc: Pc, ops: iset<Op>)
    requires Typed(pc) && pc != Idle && LocalOk(db, pc) && pc.op in ops
    requires (forall u :: u in db.users ==> CanMakeUser(ops, u)) && (db.groups != map[] ==> CanMakeGroup(ops))
    ensures var db' := Next(db, pc).db;
            && (forall u :: u in db'.users ==> CanMakeUser(ops, u)) && (db'.groups != map[] ==> CanMakeGroup(ops))
  {
    NextSourced(db, pc);
    var op := pc.op;
    if op.CreateGroup? && op.uid in db.users { assert CreateGroup(op.gname, op.uid) in ops; }
    if op.CreateUser? { assert CreateUser(op.uid, op.key) in ops; }
  }

  lemma {:induction false} ReachSourced(n: nat, events: seq<Event>, ops: iset<Op>)
    requires Uses(events, ops) && Reach(n, events).Some?
    ensures Sourced(Reach(n, events).value, ops)
  {
    if events != [] {
      var prefix, last := events[..|events| - 1], events[|events| - 1];
      ReachSourced(n, prefix, ops);
      ReachInv(n, prefix);
      if last.Advance? { AdvanceSourced(Reach(n, prefix).value, last.t, ops); }
    }
  }

  // ---------- Which methods can expose an unknown member ----------

  /** Thread 0 at work, all others idle. */
  function Alone(n: nat, db: Db, g: Option<nat>, u: Option<nat>, pc: Pc): State
    requires n >= 1
  {
    State(db, g, u, seq(n, _ => Idle)[0 := pc])
  }

  /** Thread 0 takes its next step. */
  lemma Solo(n: nat, ops: iset<Op>, s: State, pc: Pc) returns (s': State)
    requires n >= 1 && Typed(pc) && pc != Idle && s == Alone(n, s.db, s.g, s.u, pc) && ReachableWith(n, ops, s)
    requires var a := Next(s.db, pc); (a.g == Acquire ==> s.g == None) && (a.u == Acquire ==> s.u == None)
    ensures var a := Next(s.db, pc);
            && s' == Alone(n, a.db, Update(s.g, a.g, 0), Update(s.u, a.u, 0), a.pc)
            && ReachableWith(n, ops, s') && Typed(a.pc)
  {
    ExtendWith(n, ops, s, Advance(0));
    s' := After(s, Advance(0));
    NextMovesLocks(s.db, pc);
    assert s'.threads == Alone(n, s'.db, s'.g, s'.u, Next(s.db, pc).pc).threads;
  }

  lemma SoloInvoke(n: nat, ops: iset<Op>, db: Db, op: Op) returns (s: State)
    requires n >= 1 && ReachableWith(n, ops, Alone(n, db, None, None, Idle)) && IsLocked(op) && op in ops
    ensures s == Alone(n, db, None, None, Start(op)) && ReachableWith(n, ops, s)
  {
    var idle := Alone(n, db, None, None, Idle);
    ExtendWith(n, ops, idle, Invoke(0, op));
    s := After(idle, Invoke(0, op));
    assert s.threads == Alone(n, db, None, None, Start(op)).threads;
  }

  lemma SoloCreateUser(n: nat, ops: iset<Op>, db: Db, uid: Id, key: Bytes)
    requires n >= 1 && ReachableWith(n, ops, Alone(n, db, None, None, Idle))
    requires uid !in db.users && CreateUser(uid, key) in ops
    ensures ReachableWith(n, ops, Alone(n, db.(users := db.users[uid := key]), None, None, Idle))
  {
    var op := CreateUser(uid, key);
    var s := SoloInvoke(n, ops, db, op);
    s := Solo(n, ops, s, Start(op));
    s := Solo(n, ops, s, CuLook(op));
    s := Solo(n, ops, s, CuWrite(op));
    s := Solo(n, ops, s, CuRel(op, Done));
    s := Solo(n, ops, s, Return(op, Done));
  }

  lemma SoloGroupChecks(n: nat, ops: iset<Op>, db: Db, op: Op) returns (s: State)
    requires n >= 1 && ReachableWith(n, ops, Alone(n, db, None, None, Idle)) && op in ops
    requires op.CreateGroup? && op.gname !in db.groups && op.uid in db.users
    ensures s == Alone(n, db, Some(0), Some(0), RelU(op, true)) && ReachableWith(n, ops, s)
  {
    s := SoloInvoke(n, ops, db, op);
    s := Solo(n, ops, s, Start(op));
    s := Solo(n, ops, s, LookGroup(op));
    s := Solo(n, ops, s, WantU(op));
    s := Solo(n, ops, s, LookUser(op));
  }

  lemma SoloCreateGroup(n: nat, ops: iset<Op>, db: Db, g: Id, uid: Id)
    requires n >= 1 && ReachableWith(n, ops, Alone(n, db, None, None, Idle))
    requires g !in db.groups && uid in db.users && CreateGroup(g, uid) in ops
    ensures ReachableWith(n, ops, Alone(n, db.(groups := db.groups[g := {uid}]), None, None, Idle))
  {
    var op := CreateGroup(g, uid);
    var s := SoloGroupChecks(n, ops, db, op);
    var none: set<Id> := {};
    assert none + {uid} == {uid};
    s := Solo(n, ops, s, RelU(op, true));
    s := Solo(n, ops, s, Write(op));
    s := Solo(n, ops, s, RelG(op, Done));
    s := Solo(n, ops, s, Return(op, Done));
  }

  /** One thread creates a user and a group, then deletes everything; after `users_.clear()` the group still
      lists a user who is gone. */
  lemma ClearingExposesUnknownMember(n: nat, ops: iset<Op>, g: Id, u: Id, key: Bytes)
    requires n >= 1 && CreateUser(u, key) in ops && CreateGroup(g, u) in ops && DeleteAll in ops
    ensures exists s :: ReachableWith(n, ops, s) && !MembersKnown(s.db)
  {
    InitReachableWith(n, ops);
    assert Init(n).threads == Alone(n, EMPTY, None, None, Idle).threads;
    SoloCreateUser(n, ops, EMPTY, u, key);
    var db1 := EMPTY.(users := map[u := key]);
    SoloCreateGroup(n, ops, db1, g, u);
    var db2 := db1.(groups := map[g := {u}]);
    var s := SoloInvoke(n, ops, db2, DeleteAll);
    s := Solo(n, ops, s, Start(DeleteAll));
    s := Solo(n, ops, s, WantG(DeleteAll));
    s := Solo(n, ops, s, ClearUsers(DeleteAll));
    assert g in s.db.groups && u in s.db.groups[g] && u !in s.db.users;
  }

  lemma ExposureNeedsAll(n: nat, ops: iset<Op>, s: State)
    requires ReachableWith(n, ops, s) && !MembersKnown(s.db)
    ensures n >= 1 && DeleteAll in ops && CanMakeGroup(ops)
  {
    var events :| Uses(events, ops) && Reach(n, events) == Some(s);
    ReachInv(n, events);
    ReachSourced(n, events, ops);
    KnownIffNotExposed(s);
    ClearerInSet(s, ops);
  }

  lemma ClearerInSet(s: State, ops: iset<Op>)
    requires Exclusive(s) && Sourced(s, ops) && Clearing(s)
    ensures |s.threads| >= 1 && DeleteAll in ops
  {
    var t :| 0 <= t < |s.threads| && s.threads[t].ClearGroups?;
    assert Typed(s.threads[t]) && s.threads[t].op in ops;
  }

  /** The exact condition on the methods in use: n threads that run only these can reach a state in which a
      group lists an unknown user if and only if there is a thread and the methods include delete_all_data
      and the creation of a group for a user whose creation they include. */
  lemma UnknownMemberReachableIff(n: nat, ops: iset<Op>)
    ensures (exists s :: ReachableWith(n, ops, s) && !MembersKnown(s.db))
            <==> n >= 1 && DeleteAll in ops && CanMakeGroup(ops)
  {
    if s :| ReachableWith(n, ops, s) && !MembersKnown(s.db) { ExposureNeedsAll(n, ops, s); }
    if n >= 1 && DeleteAll in ops && CanMakeGroup(ops) {
      var g, u :| CreateGroup(g, u) in ops && CanMakeUser(ops, u);
      var key :| CreateUser(u, key) in ops;
      ClearingExposesUnknownMember(n, ops, g, u, key);
    }
  }
}
