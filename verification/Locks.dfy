/** The database under its two mutexes, one atomic step per lock action and per map operation, for
    any number of threads. `gmutex_` guards the groups, `umutex_` the users; the deleting methods take
    `umutex_` first, all others `gmutex_` first. */
module Locks {
  import opened Bytes
  import opened Ordered
  import opened Options
  import opened Crypto
  import opened Membership

  /** Where a thread is. Every position names the action that comes next. */
  datatype Pc =
    | Idle
    | Start(op: Op)                                  // acquire the first mutex
    // create_group, add_user_to_group, remove_user_from_group: gmutex_ held
    | LookGroup(op: Op)
    | WantU(op: Op)                                  // acquire umutex_
    | LookUser(op: Op)                               // umutex_ held too
    | RelU(op: Op, known: bool)                      // release umutex_
    | LookMember(op: Op)
    | Write(op: Op)
    | RelG(op: Op, answer: Answer)                   // release gmutex_
    // create_user: umutex_ held
    | CuLook(op: Op)
    | CuWrite(op: Op)
    | CuRel(op: Op, answer: Answer)                  // release umutex_
    // delete_user, delete_all_data: umutex_ held, then both
    | WantG(op: Op)                                  // acquire gmutex_
    | Erasing(op: Op, todo: set<Id>)
    | EraseUser(op: Op)
    | ClearUsers(op: Op)
    | ClearGroups(op: Op)
    | DelRelG(op: Op)
    | DelRelU(op: Op)
    // get_keys_of_group: gmutex_ held, umutex_ taken anew for every member
    | GkLook(op: Op)
    | GkLoop(op: Op, todo: set<Id>, acc: seq<Key>)
    | GkRead(op: Op, todo: set<Id>, acc: seq<Key>)
    | GkRelU(op: Op, todo: set<Id>, acc: seq<Key>)
    | Return(op: Op, answer: Answer)

  predicate IsWriter(op: Op) { op.CreateGroup? || op.AddMember? || op.RemoveMember? }
  predicate IsDelete(op: Op) { op.DeleteUser? || op.DeleteAll? }
  predicate IsLocked(op: Op) { !op.IsMember? }

  predicate HoldsG(pc: Pc) {
    || pc.LookGroup? || pc.WantU? || pc.LookUser? || pc.RelU? || pc.LookMember? || pc.Write? || pc.RelG?
    || pc.Erasing? || pc.EraseUser? || pc.ClearUsers? || pc.ClearGroups? || pc.DelRelG?
    || pc.GkLook? || pc.GkLoop? || pc.GkRead? || pc.GkRelU?
  }

  predicate HoldsU(pc: Pc) {
    || pc.LookUser? || pc.RelU? || pc.CuLook? || pc.CuWrite? || pc.CuRel? || pc.WantG?
    || pc.Erasing? || pc.EraseUser? || pc.ClearUsers? || pc.ClearGroups? || pc.DelRelG? || pc.DelRelU?
    || pc.GkRead? || pc.GkRelU?
  }

  /** The method a position belongs to. */
  predicate Typed(pc: Pc) {
    match pc
    case Idle => true
    case Start(op) => IsLocked(op)
    case LookGroup(op) => IsWriter(op)
    case WantU(op) => IsWriter(op)
    case LookUser(op) => IsWriter(op)
    case RelU(op, _) => IsWriter(op)
    case LookMember(op) => op.RemoveMember?
    case Write(op) => IsWriter(op)
    case RelG(op, _) => IsWriter(op) || op.GetKeys?
    case CuLook(op) => op.CreateUser?
    case CuWrite(op) => op.CreateUser?
    case CuRel(op, _) => op.CreateUser?
    case WantG(op) => IsDelete(op)
    case Erasing(op, _) => op.DeleteUser?
    case EraseUser(op) => op.DeleteUser?
    case ClearUsers(op) => op.DeleteAll?
    case ClearGroups(op) => op.DeleteAll?
    case DelRelG(op) => IsDelete(op)
    case DelRelU(op) => IsDelete(op)
    case GkLook(op) => op.GetKeys?
    case GkLoop(op, _, _) => op.GetKeys?
    case GkRead(op, _, _) => op.GetKeys?
    case GkRelU(op, _, _) => op.GetKeys?
    case Return(op, _) => IsLocked(op)
  }

  // ---------- One thread's next action ----------

  datatype LockAction = Keep | Acquire | Release

  datatype Action = Action(db: Db, pc: Pc, g: LockAction, u: LockAction)

  ghost function Least(s: set<Id>): (x: Id)
    requires s != {}
    ensures IsLeast(x, s)
  {
    LeastExists(s);
    var x :| IsLeast(x, s);
    x
  }

  function GroupCheck(db: Db, op: Op): Option<Answer>
    requires IsWriter(op)
  {
    if op.CreateGroup? then (if op.gname in db.groups then Some(Refused(ExistingGroup)) else None)
    else if op.gname in db.groups then None else Some(Refused(UnknownGroup))
  }

  /** The insertion or erasure in `groups_`, and the answer. */
  function WriteGroup(db: Db, op: Op): (Db, Answer)
    requires IsWriter(op)
  {
    var members := if op.gname in db.groups then db.groups[op.gname] else {};
    match op
    case RemoveMember(g, u) =>
      (db.(groups := db.groups[g := members - {u}]), if u in members then Done else Refused(ShouldNotEverHappen))
    case AddMember(g, u) =>
      (db.(groups := db.groups[g := members + {u}]), if u in members then AlreadyMember else Done)
    case CreateGroup(g, u) => (db.(groups := db.groups[g := members + {u}]), Done)
    case _ => (db, Done)
  }

  ghost function Next(db: Db, pc: Pc): Action
    requires Typed(pc) && pc != Idle
  {
    match pc
    case Start(op) =>
      if op.CreateUser? then Action(db, CuLook(op), Keep, Acquire)
      else if IsDelete(op) then Action(db, WantG(op), Keep, Acquire)
      else if op.GetKeys? then Action(db, GkLook(op), Acquire, Keep)
      else Action(db, LookGroup(op), Acquire, Keep)
    case LookGroup(op) =>
      var refusal := GroupCheck(db, op);
      Action(db, if refusal.Some? then RelG(op, refusal.value) else WantU(op), Keep, Keep)
    case WantU(op) => Action(db, LookUser(op), Keep, Acquire)
    case LookUser(op) => Action(db, RelU(op, op.uid in db.users), Keep, Keep)
    case RelU(op, known) =>
      Action(db, if !known then RelG(op, Refused(UnknownUser))
                 else if op.RemoveMember? then LookMember(op) else Write(op), Keep, Release)
    case LookMember(op) =>
      Action(db, if op.gname in db.groups && op.uid in db.groups[op.gname] then Write(op)
                 else RelG(op, Refused(NotAMember)), Keep, Keep)
    case Write(op) =>
      var (db', answer) := WriteGroup(db, op);
      Action(db', RelG(op, answer), Keep, Keep)
    case RelG(op, answer) => Action(db, Return(op, answer), Release, Keep)
    case CuLook(op) =>
      Action(db, if op.uid in db.users then CuRel(op, Refused(ExistingUser)) else CuWrite(op), Keep, Keep)
    case CuWrite(op) => Action(db.(users := db.users[op.uid := op.key]), CuRel(op, Done), Keep, Keep)
    case CuRel(op, answer) => Action(db, Return(op, answer), Keep, Release)
    case WantG(op) =>
      Action(db, if op.DeleteUser? then Erasing(op, db.groups.Keys) else ClearUsers(op), Acquire, Keep)
    case Erasing(op, todo) =>
      if todo == {} then Action(db, EraseUser(op), Keep, Keep)
      else
        var g := Least(todo);
        var members := if g in db.groups then db.groups[g] else {};
        Action(db.(groups := db.groups[g := members - {op.uid}]), Erasing(op, todo - {g}), Keep, Keep)
    case EraseUser(op) => Action(db.(users := db.users - {op.uid}), DelRelG(op), Keep, Keep)
    case ClearUsers(op) => Action(db.(users := map[]), ClearGroups(op), Keep, Keep)
    case ClearGroups(op) => Action(db.(groups := map[]), DelRelG(op), Keep, Keep)
    case DelRelG(op) => Action(db, DelRelU(op), Release, Keep)
    case DelRelU(op) => Action(db, Return(op, Done), Keep, Release)
    case GkLook(op) =>
      Action(db, if op.gname !in db.groups then RelG(op, Refused(UnknownGroup))
                 else if db.groups[op.gname] == {} then RelG(op, Refused(EmptyGroup))
                 else GkLoop(op, db.groups[op.gname], []), Keep, Keep)
    case GkLoop(op, todo, acc) =>
      if todo == {} then Action(db, RelG(op, Keys(acc)), Keep, Keep)
      else Action(db, GkRead(op, todo, acc), Keep, Acquire)
    case GkRead(op, todo, acc) =>
      if todo == {} then Action(db, GkRelU(op, todo, acc), Keep, Keep)
      else
        var uid := Least(todo);
        Action(db, GkRelU(op, todo - {uid}, if uid in db.users then acc + [Resize(db.users[uid], 32)] else acc),
               Keep, Keep)
    case GkRelU(op, todo, acc) => Action(db, GkLoop(op, todo, acc), Keep, Release)
    case Return(op, _) => Action(db, Idle, Keep, Keep)
  }

  /** The lock discipline that the positions stand for. */
  lemma NextMovesLocks(db: Db, pc: Pc)
    requires Typed(pc) && pc != Idle
    ensures var a := Next(db, pc);
            && Typed(a.pc)
            && (a.g == Acquire ==> !HoldsG(pc) && HoldsG(a.pc)) && (a.g == Release ==> HoldsG(pc) && !HoldsG(a.pc))
            && (a.g == Keep ==> HoldsG(pc) == HoldsG(a.pc))
            && (a.u == Acquire ==> !HoldsU(pc) && HoldsU(a.pc)) && (a.u == Release ==> HoldsU(pc) && !HoldsU(a.pc))
            && (a.u == Keep ==> HoldsU(pc) == HoldsU(a.pc))
  {
  }

  // ---------- The system ----------

  datatype State = State(db: Db, g: Option<nat>, u: Option<nat>, threads: seq<Pc>)

  datatype Event = Invoke(t: nat, op: Op) | Advance(t: nat)

  function Init(n: nat): State {
    State(EMPTY, None, None, seq(n, _ => Idle))
  }

  function Update(lock: Option<nat>, a: LockAction, t: nat): Option<nat> {
    match a case Keep => lock case Acquire => Some(t) case Release => None
  }

  ghost predicate AllTyped(s: State) {
    forall t :: 0 <= t < |s.threads| ==> Typed(s.threads[t])
  }

  /** A thread can move unless it asks for a mutex that is taken. */
  ghost predicate Enabled(s: State, t: nat)
    requires AllTyped(s)
  {
    && t < |s.threads| && s.threads[t] != Idle
    && var a := Next(s.db, s.threads[t]);
       (a.g == Acquire ==> s.g == None) && (a.u == Acquire ==> s.u == None)
  }

  ghost predicate CanHappen(s: State, e: Event)
    requires AllTyped(s)
  {
    match e
    case Invoke(t, op) => t < |s.threads| && s.threads[t] == Idle && IsLocked(op)
    case Advance(t) => Enabled(s, t)
  }

  ghost function After(s: State, e: Event): State
    requires AllTyped(s) && CanHappen(s, e)
  {
    match e
    case Invoke(t, op) => s.(threads := s.threads[t := Start(op)])
    case Advance(t) =>
      var a := Next(s.db, s.threads[t]);
      State(a.db, Update(s.g, a.g, t), Update(s.u, a.u, t), s.threads[t := a.pc])
  }

  lemma AfterTyped(s: State, e: Event)
    requires AllTyped(s) && CanHappen(s, e)
    ensures AllTyped(After(s, e))
  {
    if e.Advance? { NextMovesLocks(s.db, s.threads[e.t]); }
  }

  /** The states reached by n threads through a sequence of events; None if some event could not
      happen. */
  ghost function Reach(n: nat, events: seq<Event>): (r: Option<State>)
    ensures r.Some? ==> AllTyped(r.value) && |r.value.threads| == n
  {
    if events == [] then Some(Init(n))
    else
      var last := events[|events| - 1];
      match Reach(n, events[..|events| - 1])
      case None => None
      case Some(s) =>
        if CanHappen(s, last) then
          AfterTyped(s, last);
          Some(After(s, last))
        else None
  }
}
