/** Every call ends: from any reachable state, without further invocations, the threads take a bounded number
    of steps, after which all have returned or two wait for each other. */
module Progress {
  import opened Membership
  import opened Locks
  import opened LockInvariant
  import opened Deadlock

  // ---------- The names in play ----------

  /** The groups, their members and the group named by each call in progress lie within a finite set, and
      nothing but an invocation brings in a new name. */
  ghost predicate Within(s: State, names: set<Id>) {
    && s.db.groups.Keys <= names
    && (forall g :: g in s.db.groups ==> s.db.groups[g] <= names)
    && (forall t :: 0 <= t < |s.threads| ==> CallWithin(s.threads[t], names))
  }

  predicate CallWithin(pc: Pc, names: set<Id>) {
    pc != Idle && IsWriter(pc.op) ==> pc.op.gname in names && pc.op.uid in names
  }

  ghost function NamesOf(s: State): set<Id> {
    s.db.groups.Keys
    + (set g, u | g in s.db.groups && u in s.db.groups[g] :: u)
    + (set t | 0 <= t < |s.threads| && s.threads[t] != Idle && IsWriter(s.threads[t].op) :: s.threads[t].op.gname)
    + (set t | 0 <= t < |s.threads| && s.threads[t] != Idle && IsWriter(s.threads[t].op) :: s.threads[t].op.uid)
  }

  lemma WithinNamesOf(s: State)
    ensures Within(s, NamesOf(s))
  {
  }

  ghost predicate DbWithin(db: Db, names: set<Id>) {
    db.groups.Keys <= names && forall g :: g in db.groups ==> db.groups[g] <= names
  }

  lemma NextWithin(db: Db, pc: Pc, names: set<Id>)
    requires Typed(pc) && pc != Idle && LocalOk(db, pc) && DbWithin(db, names) && CallWithin(pc, names)
    ensures var a := Next(db, pc); DbWithin(a.db, names) && CallWithin(a.pc, names)
  {
    if pc.Erasing? && pc.todo != {} {
      assert Least(pc.todo) in db.groups;
    }
  }

  // ---------- The steps that are left ----------

  /** An upper bound on the steps that a thread has left, for a given number of names. */
  function Left(pc: Pc, names: nat): nat {
    match pc
    case Idle => 0
    case Return(_, _) => 1
    case RelG(_, _) => 2
    case Write(_) => 3
    case LookMember(_) => 4
    case RelU(_, _) => 5
    case LookUser(_) => 6
    case WantU(_) => 7
    case LookGroup(_) => 8
    case CuRel(_, _) => 2
    case CuWrite(_) => 3
    case CuLook(_) => 4
    case DelRelU(_) => 2
    case DelRelG(_) => 3
    case EraseUser(_) => 4
    case Erasing(_, todo) => 5 + |todo|
    case ClearGroups(_) => 4
    case ClearUsers(_) => 5
    case WantG(_) => 6 + names
    case GkLoop(_, todo, _) => 3 + 3 * |todo|
    case GkRead(_, todo, _) => 2 + 3 * |todo|
    case GkRelU(_, todo, _) => 4 + 3 * |todo|
    case GkLook(_) => 4 + 3 * names
    case Start(_) => 9 + 3 * names
  }

  lemma SubsetSize(s: set<Id>, t: set<Id>)
    requires s <= t
    ensures |s| <= |t|
  {
    assert t == s + (t - s);
  }

  lemma SmallerLeft(todo: set<Id>, x: Id)
    requires x in todo
    ensures |todo - {x}| == |todo| - 1
  {
  }

  lemma LockingLeft(db: Db, pc: Pc, names: set<Id>)
    requires Typed(pc) && pc.WantG? && DbWithin(db, names)
    ensures Left(Next(db, pc).pc, |names|) < Left(pc, |names|)
  {
    SubsetSize(db.groups.Keys, names);
  }

  lemma ErasingLeft(db: Db, pc: Pc, names: nat)
    requires Typed(pc) && pc.Erasing? && pc.todo != {}
    ensures Left(Next(db, pc).pc, names) < Left(pc, names)
  {
    assert Next(db, pc).pc == Erasing(pc.op, pc.todo - {Least(pc.todo)});
    SmallerLeft(pc.todo, Least(pc.todo));
  }

  lemma ListingLeft(db: Db, pc: Pc, names: set<Id>)
    requires Typed(pc) && (pc.GkLook? || pc.GkLoop? || pc.GkRelU?) && DbWithin(db, names)
    ensures Left(Next(db, pc).pc, |names|) < Left(pc, |names|)
  {
    if pc.GkLook? && pc.op.gname in db.groups { SubsetSize(db.groups[pc.op.gname], names); }
  }

  lemma ReadingLeft(db: Db, pc: Pc, names: nat)
    requires Typed(pc) && pc.GkRead? && pc.todo != {}
    ensures Left(Next(db, pc).pc, names) < Left(pc, names)
  {
    SmallerLeft(pc.todo, Least(pc.todo));
  }

  predicate IsLoop(pc: Pc) {
    pc.WantG? || (pc.Erasing? && pc.todo != {}) || pc.GkLook? || pc.GkLoop? || pc.GkRelU? || pc.GkRead?
  }

  predicate IsCheck(pc: Pc) {
    pc.LookGroup? || pc.WantU? || pc.LookUser? || pc.RelU? || pc.LookMember? || pc.Write? || pc.RelG?
  }

  lemma CheckLeft(db: Db, pc: Pc, names: nat)
    requires Typed(pc) && IsCheck(pc)
    ensures Left(Next(db, pc).pc, names) < Left(pc, names)
  {
  }

  lemma StraightLeft(db: Db, pc: Pc, names: nat)
    requires Typed(pc) && pc != Idle && !IsLoop(pc) && !IsCheck(pc)
    ensures Left(Next(db, pc).pc, names) < Left(pc, names)
  {
  }

  lemma NextLeft(db: Db, pc: Pc, names: set<Id>)
    requires Typed(pc) && pc != Idle && LocalOk(db, pc) && DbWithin(db, names)
    ensures Left(Next(db, pc).pc, |names|) < Left(pc, |names|)
  {
    if IsCheck(pc) { CheckLeft(db, pc, |names|); }
    else if !IsLoop(pc) { StraightLeft(db, pc, |names|); }
    else if pc.WantG? { LockingLeft(db, pc, names); }
    else if pc.Erasing? { ErasingLeft(db, pc, |names|); }
    else if pc.GkRead? { ReadingLeft(db, pc, |names|); }
    else { ListingLeft(db, pc, names); }
  }

  function TotalLeft(threads: seq<Pc>, names: nat): nat {
    if threads == [] then 0 else Left(threads[0], names) + TotalLeft(threads[1..], names)
  }

  lemma {:induction false} TotalLeftUpdate(threads: seq<Pc>, names: nat, t: nat, pc: Pc)
    requires t < |threads|
    ensures TotalLeft(threads[t := pc], names) + Left(threads[t], names) == TotalLeft(threads, names) + Left(pc, names)
  {
    if t == 0 {
      assert threads[t := pc][1..] == threads[1..];
    } else {
      TotalLeftUpdate(threads[1..], names, t - 1, pc);
      assert threads[t := pc][1..] == threads[1..][t - 1 := pc];
    }
  }

  // ---------- Runs without invocations ----------

  ghost predicate OnlyAdvances(events: seq<Event>) {
    forall i :: 0 <= i < |events| ==> events[i].Advance?
  }

  lemma AdvanceCounts(s: State, t: nat, names: set<Id>)
    requires Inv(s) && Enabled(s, t) && Within(s, names)
    ensures var s' := After(s, Advance(t));
            Within(s', names) && TotalLeft(s'.threads, |names|) < TotalLeft(s.threads, |names|)
  {
    var pc := s.threads[t];
    assert CallWithin(pc, names);
    NextWithin(s.db, pc, names);
    NextLeft(s.db, pc, names);
    TotalLeftUpdate(s.threads, |names|, t, Next(s.db, pc).pc);
  }

  lemma LastStepCounts(n: nat, events: seq<Event>, names: set<Id>)
    requires events != [] && Reach(n, events).Some? && events[|events| - 1].Advance?
    requires Within(Reach(n, events[..|events| - 1]).value, names)
    ensures var s, s' := Reach(n, events[..|events| - 1]).value, Reach(n, events).value;
            Within(s', names) && TotalLeft(s'.threads, |names|) < TotalLeft(s.threads, |names|)
  {
    ReachInv(n, events[..|events| - 1]);
    AdvanceCounts(Reach(n, events[..|events| - 1]).value, events[|events| - 1].t, names);
  }

  lemma PrefixReached(n: nat, events: seq<Event>)
    requires events != [] && Reach(n, events).Some?
    ensures Reach(n, events[..|events| - 1]).Some?
  {
  }

  lemma DropLast(events: seq<Event>, more: seq<Event>) returns (all: seq<Event>)
    requires more != []
    ensures all == events + more && all != []
    ensures all[..|all| - 1] == events + more[..|more| - 1] && all[|all| - 1] == more[|more| - 1]
  {
    all := events + more;
  }

  lemma LastOfMore(n: nat, events: seq<Event>, more: seq<Event>)
    requires more != [] && Reach(n, events + more).Some?
    ensures Reach(n, events + more[..|more| - 1]).Some?
  {
    var all := DropLast(events, more);
    PrefixReached(n, all);
  }

  lemma LastOfMoreCounts(n: nat, events: seq<Event>, more: seq<Event>, names: set<Id>)
    requires more != [] && Reach(n, events + more).Some? && more[|more| - 1].Advance?
    requires Reach(n, events + more[..|more| - 1]).Some?
    requires Within(Reach(n, events + more[..|more| - 1]).value, names)
    ensures var s, s' := Reach(n, events + more[..|more| - 1]).value, Reach(n, events + more).value;
            Within(s', names) && TotalLeft(s'.threads, |names|) < TotalLeft(s.threads, |names|)
  {
    var all := DropLast(events, more);
    LastStepCounts(n, all, names);
  }

  /** Every step counts. */
  lemma {:induction false} StepsCount(n: nat, events: seq<Event>, more: seq<Event>, names: set<Id>)
    requires Reach(n, events).Some? && Reach(n, events + more).Some? && OnlyAdvances(more)
    requires Within(Reach(n, events).value, names)
    ensures var s, s' := Reach(n, events).value, Reach(n, events + more).value;
            Within(s', names) && |more| + TotalLeft(s'.threads, |names|) <= TotalLeft(s.threads, |names|)
    decreases |more|
  {
    if more == [] {
      assert events + more == events;
    } else {
      LastOfMore(n, events, more);
      StepsCount(n, events, more[..|more| - 1], names);
      LastOfMoreCounts(n, events, more, names);
    }
  }

  lemma {:induction false} TotalLeftBound(threads: seq<Pc>, names: set<Id>, db: Db)
    requires DbWithin(db, names)
    requires forall t :: 0 <= t < |threads| ==> Typed(threads[t]) && LocalOk(db, threads[t])
    ensures TotalLeft(threads, |names|) <= Budget(|threads|, |names|)
  {
    if threads != [] {
      LeftBound(threads[0], names, db);
      TotalLeftBound(threads[1..], names, db);
      OneThreadMore(|threads[1..]|, |names|);
    }
  }

  function Budget(threads: nat, names: nat): nat {
    threads * (9 + 3 * names)
  }

  lemma OneThreadMore(threads: nat, names: nat)
    ensures Budget(1 + threads, names) == Budget(threads, names) + 9 + 3 * names
  {
  }

  lemma LeftBound(pc: Pc, names: set<Id>, db: Db)
    requires Typed(pc) && LocalOk(db, pc) && DbWithin(db, names)
    ensures Left(pc, |names|) <= 9 + 3 * |names|
  {
    match pc {
      case Erasing(_, todo) => SubsetSize(todo, names);
      case GkLoop(_, todo, _) => SubsetSize(todo, names);
      case GkRead(_, todo, _) => SubsetSize(todo, names);
      case GkRelU(_, todo, _) => SubsetSize(todo, names);
      case _ =>
    }
  }

  ghost predicate AllIdle(s: State) {
    forall t :: 0 <= t < |s.threads| ==> s.threads[t] == Idle
  }

  /** Nobody can take a step. */
  ghost predicate Halted(s: State)
    requires AllTyped(s)
  {
    forall t :: 0 <= t < |s.threads| ==> !Enabled(s, t)
  }

  lemma StepsWithin(n: nat, events: seq<Event>, more: seq<Event>, names: set<Id>)
    requires Reach(n, events).Some? && Reach(n, events + more).Some? && OnlyAdvances(more)
    requires Within(Reach(n, events).value, names)
    ensures |more| <= Budget(n, |names|)
  {
    var s := Reach(n, events).value;
    ReachInv(n, events);
    StepsCount(n, events, more, names);
    TotalLeftBound(s.threads, names, s.db);
  }

  /** On every interleaving without further invocations there are at most n * (9 + 3m) steps, for n threads and
      m names in play. */
  lemma StepsAreBounded(n: nat, events: seq<Event>, more: seq<Event>)
    requires Reach(n, events).Some? && Reach(n, events + more).Some? && OnlyAdvances(more)
    ensures |more| <= Budget(n, |NamesOf(Reach(n, events).value)|)
  {
    WithinNamesOf(Reach(n, events).value);
    StepsWithin(n, events, more, NamesOf(Reach(n, events).value));
  }

  /** And when no step is left, every call has returned, or a wait cycle is what blocks the rest. */
  lemma HaltedIff(n: nat, events: seq<Event>)
    requires Reach(n, events).Some?
    ensures var s := Reach(n, events).value;
            Halted(s) <==> AllIdle(s) || (WaitCycle(s) && forall t :: 0 <= t < n ==> !s.threads[t].Return?)
  {
    var s := Reach(n, events).value;
    assert Reachable(n, s);
    StuckIff(n, s);
    if Halted(s) && !AllIdle(s) { assert Stuck(s); }
  }

  /** So threads whose methods lack a deletion, or the creation of a group, always finish: once no step is
      left, every call has returned. */
  lemma EveryCallReturns(n: nat, events: seq<Event>, ops: iset<Op>)
    requires Uses(events, ops) && Reach(n, events).Some? && Halted(Reach(n, events).value)
    requires n < 2 || !HasDelete(ops) || !HasCreateGroup(ops)
    ensures AllIdle(Reach(n, events).value)
  {
    var s := Reach(n, events).value;
    if !AllIdle(s) {
      assert ReachableWith(n, ops, s) && Stuck(s);
      StuckReachableIff(n, ops);
    }
  }
}
