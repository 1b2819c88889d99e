/** When the two mutexes can block each other for good. */
module Deadlock {
  import opened Options
  import opened Membership
  import opened Locks
  import opened LockInvariant

  /** Somebody is at work and nobody at work can move. */
  ghost predicate Stuck(s: State)
    requires AllTyped(s)
  {
    && (exists t :: 0 <= t < |s.threads| && s.threads[t] != Idle)
    && (forall t :: 0 <= t < |s.threads| && s.threads[t] != Idle ==> !Enabled(s, t))
  }

  /** Inside a method that holds gmutex_, about to take umutex_. */
  predicate WaitsForU(pc: Pc) { pc.WantU? || (pc.GkLoop? && pc.todo != {}) }

  /** Thread a, deleting, holds umutex_ and asks for gmutex_; thread b holds gmutex_ and asks for umutex_. */
  ghost predicate Facing(s: State, a: nat, b: nat) {
    a < |s.threads| && b < |s.threads| && s.threads[a].WantG? && WaitsForU(s.threads[b])
  }

  ghost predicate WaitCycle(s: State) {
    exists a: nat, b: nat :: Facing(s, a, b)
  }

  lemma NeedsOf(db: Db, pc: Pc)
    requires Typed(pc) && pc != Idle
    ensures Next(db, pc).g == Acquire <==> pc.WantG? || (pc.Start? && (IsWriter(pc.op) || pc.op.GetKeys?))
    ensures Next(db, pc).u == Acquire <==> WaitsForU(pc) || (pc.Start? && (pc.op.CreateUser? || IsDelete(pc.op)))
  {
  }

  /** Without a wait cycle the holder of umutex_, or else the holder of gmutex_, or else anybody, moves. */
  lemma SomebodyMoves(s: State)
    requires Exclusive(s) && !WaitCycle(s)
    requires exists t :: 0 <= t < |s.threads| && s.threads[t] != Idle
    ensures exists t :: 0 <= t < |s.threads| && s.threads[t] != Idle && Enabled(s, t)
  {
    var t :| 0 <= t < |s.threads| && s.threads[t] != Idle;
    if s.u.Some? {
      t := s.u.value;
      if s.threads[t].WantG? && s.g.Some? {
        assert !Facing(s, t, s.g.value);
        t := s.g.value;
      }
    } else if s.g.Some? {
      t := s.g.value;
    }
    NeedsOf(s.db, s.threads[t]);
  }

  lemma CycleBlocks(s: State, t: nat)
    requires Exclusive(s) && WaitCycle(s) && t < |s.threads| && s.threads[t] != Idle && !s.threads[t].Return?
    ensures !Enabled(s, t)
  {
    var a: nat, b: nat :| Facing(s, a, b);
    NeedsOf(s.db, s.threads[t]);
  }

  /** A reachable state is stuck exactly when there is a wait cycle and nobody is merely returning. */
  lemma StuckIff(n: nat, s: State)
    requires Reachable(n, s)
    ensures Inv(s)
    ensures Stuck(s) <==> WaitCycle(s) && forall t :: 0 <= t < n ==> !s.threads[t].Return?
  {
    ReachableInv(n, s);
    if WaitCycle(s) && forall t :: 0 <= t < n ==> !s.threads[t].Return? {
      var a: nat, b: nat :| Facing(s, a, b);
      assert s.threads[a] != Idle;
      forall t | 0 <= t < |s.threads| && s.threads[t] != Idle ensures !Enabled(s, t) { CycleBlocks(s, t); }
    } else if Stuck(s) {
      if !WaitCycle(s) { SomebodyMoves(s); }
      if t :| 0 <= t < n && s.threads[t].Return? { assert Enabled(s, t); }
    }
  }

  /** A wait cycle needs two active methods of opposite lock order. */
  lemma CycleMixesOrders(s: State)
    requires Exclusive(s) && WaitCycle(s)
    ensures exists a, b :: && 0 <= a < |s.threads| && 0 <= b < |s.threads| && a != b
                           && s.threads[a] != Idle && s.threads[b] != Idle
                           && IsDelete(s.threads[a].op) && (IsWriter(s.threads[b].op) || s.threads[b].op.GetKeys?)
  {
    var a: nat, b: nat :| Facing(s, a, b);
    assert Typed(s.threads[a]) && Typed(s.threads[b]);
  }

  ghost predicate NoDeletes(s: State) {
    forall t :: 0 <= t < |s.threads| && s.threads[t] != Idle ==> !IsDelete(s.threads[t].op)
  }

  ghost predicate OnlyDeletesAndUserCreations(s: State) {
    forall t :: 0 <= t < |s.threads| && s.threads[t] != Idle ==>
                  IsDelete(s.threads[t].op) || s.threads[t].op.CreateUser?
  }

  ghost predicate OneActive(s: State) {
    forall t, t' :: 0 <= t < t' < |s.threads| ==> s.threads[t] == Idle || s.threads[t'] == Idle
  }

  /** Methods of one lock order only, or one thread alone, never deadlock. */
  lemma OneOrderNeverStuck(n: nat, s: State)
    requires Reachable(n, s) && (NoDeletes(s) || OnlyDeletesAndUserCreations(s) || OneActive(s))
    ensures Inv(s) && !Stuck(s)
  {
    StuckIff(n, s);
    if WaitCycle(s) { CycleIsMixed(s); }
  }

  lemma CycleIsMixed(s: State)
    requires Exclusive(s) && WaitCycle(s)
    ensures !NoDeletes(s) && !OnlyDeletesAndUserCreations(s) && !OneActive(s)
  {
    CycleMixesOrders(s);
  }

  // ---------- A cycle is for ever ----------

  lemma FacingStays(s: State, e: Event, a: nat, b: nat)
    requires Exclusive(s) && Facing(s, a, b) && CanHappen(s, e)
    ensures Facing(After(s, e), a, b)
    ensures After(s, e).threads[a] == s.threads[a] && After(s, e).threads[b] == s.threads[b]
  {
    NeedsOf(s.db, s.threads[a]);
    NeedsOf(s.db, s.threads[b]);
  }

  /** Once two threads face each other they stay where they are, whatever happens afterwards. */
  lemma {:induction false} CycleIsForEver(n: nat, events: seq<Event>, more: seq<Event>, a: nat, b: nat)
    requires Reach(n, events).Some? && Facing(Reach(n, events).value, a, b)
    requires Reach(n, events + more).Some?
    ensures var s, s' := Reach(n, events).value, Reach(n, events + more).value;
            Facing(s', a, b) && s'.threads[a] == s.threads[a] && s'.threads[b] == s.threads[b]
    decreases |more|
  {
    if more == [] {
      assert events + more == events;
    } else {
      var rest, last := more[..|more| - 1], more[|more| - 1];
      var all := events + more;
      assert all[..|all| - 1] == events + rest && all[|all| - 1] == last;
      CycleIsForEver(n, events, rest, a, b);
      FacingStaysReached(n, all, a, b);
    }
  }

  lemma FacingStaysReached(n: nat, events: seq<Event>, a: nat, b: nat)
    requires events != [] && Reach(n, events).Some?
    requires Facing(Reach(n, events[..|events| - 1]).value, a, b)
    ensures var s, s' := Reach(n, events[..|events| - 1]).value, Reach(n, events).value;
            Facing(s', a, b) && s'.threads[a] == s.threads[a] && s'.threads[b] == s.threads[b]
  {
    var prefix := events[..|events| - 1];
    ReachInv(n, prefix);
    FacingStays(Reach(n, prefix).value, events[|events| - 1], a, b);
  }

  // ---------- Which methods can deadlock ----------

  ghost predicate HasDelete(ops: iset<Op>) { exists op :: op in ops && IsDelete(op) }

  ghost predicate HasCreateGroup(ops: iset<Op>) { exists op :: op in ops && op.CreateGroup? }

  /** Whoever waits for umutex_ creates a group or has found one. */
  lemma WaiterNeedsGroup(s: State, b: nat)
    requires Inv(s) && b < |s.threads| && WaitsForU(s.threads[b])
    ensures s.threads[b].op.CreateGroup? || s.db.groups != map[]
  {
    assert LocalOk(s.db, s.threads[b]);
  }

  lemma CycleNeedsBoth(s: State, ops: iset<Op>, a: nat, b: nat)
    requires Inv(s) && Sourced(s, ops) && Facing(s, a, b)
    ensures a != b && HasDelete(ops) && HasCreateGroup(ops)
  {
    WaiterNeedsGroup(s, b);
    assert Typed(s.threads[a]) && s.threads[a].op in ops && s.threads[b].op in ops;
  }

  lemma StuckNeedsBoth(n: nat, ops: iset<Op>, s: State)
    requires ReachableWith(n, ops, s) && AllTyped(s) && Stuck(s)
    ensures n >= 2 && HasDelete(ops) && HasCreateGroup(ops)
  {
    var events :| Uses(events, ops) && Reach(n, events) == Some(s);
    StuckIff(n, s);
    ReachSourced(n, events, ops);
    var a: nat, b: nat :| Facing(s, a, b);
    CycleNeedsBoth(s, ops, a, b);
  }

  lemma BothInvoked(n: nat, ops: iset<Op>, d: Op, c: Op, s: State)
    requires n >= 2 && d in ops && c in ops && IsLocked(d) && IsLocked(c)
    requires s == State(EMPTY, None, None, seq(n, _ => Idle)[0 := Start(d)][1 := Start(c)])
    ensures ReachableWith(n, ops, s)
  {
    InitReachableWith(n, ops);
    ExtendWith(n, ops, Init(n), Invoke(0, d));
    ExtendWith(n, ops, After(Init(n), Invoke(0, d)), Invoke(1, c));
  }

  /** The two orders together do deadlock: a deletion takes umutex_, create_group takes gmutex_ and looks the
      group up, and then each waits for the other. */
  lemma MixedOrdersGetStuck(n: nat, ops: iset<Op>, d: Op, c: Op)
    requires n >= 2 && d in ops && c in ops && IsDelete(d) && c.CreateGroup?
    ensures exists s :: ReachableWith(n, ops, s) && AllTyped(s) && Stuck(s)
  {
    var s := State(EMPTY, None, None, seq(n, _ => Idle)[0 := Start(d)][1 := Start(c)]);
    BothInvoked(n, ops, d, c, s);
    assert AllTyped(s);
    ExtendWith(n, ops, s, Advance(0));
    s := After(s, Advance(0));
    assert s == State(EMPTY, None, Some(0), seq(n, _ => Idle)[0 := WantG(d)][1 := Start(c)]);
    ExtendWith(n, ops, s, Advance(1));
    s := After(s, Advance(1));
    StepIntoCycle(n, ops, s, d, c);
  }

  lemma StepIntoCycle(n: nat, ops: iset<Op>, s: State, d: Op, c: Op)
    requires n >= 2 && IsDelete(d) && c.CreateGroup? && ReachableWith(n, ops, s) && AllTyped(s)
    requires s == State(EMPTY, Some(1), Some(0), seq(n, _ => Idle)[0 := WantG(d)][1 := LookGroup(c)])
    ensures exists s :: ReachableWith(n, ops, s) && AllTyped(s) && Stuck(s)
  {
    assert Next(EMPTY, s.threads[1]) == Action(EMPTY, WantU(c), Keep, Keep);
    ExtendWith(n, ops, s, Advance(1));
    var s' := After(s, Advance(1));
    assert s'.threads == seq(n, _ => Idle)[0 := WantG(d)][1 := WantU(c)];
    FacingPairIsStuck(n, s', d, c);
  }

  lemma FacingPairIsStuck(n: nat, s: State, d: Op, c: Op)
    requires n >= 2 && Reachable(n, s) && s.threads == seq(n, _ => Idle)[0 := WantG(d)][1 := WantU(c)]
    ensures AllTyped(s) && Stuck(s)
  {
    StuckIff(n, s);
    assert Facing(s, 0, 1);
  }

  /** The exact condition: n threads that run only these methods can deadlock if and only if there are two
      of them and the methods include a deletion and the creation of a group. Additions, removals and key
      listings alone cannot: without a group they are refused before they ask for umutex_. */
  lemma StuckReachableIff(n: nat, ops: iset<Op>)
    ensures (exists s :: ReachableWith(n, ops, s) && AllTyped(s) && Stuck(s))
            <==> n >= 2 && HasDelete(ops) && HasCreateGroup(ops)
  {
    if s :| ReachableWith(n, ops, s) && AllTyped(s) && Stuck(s) {
      StuckNeedsBoth(n, ops, s);
    }
    if n >= 2 && HasDelete(ops) && HasCreateGroup(ops) {
      var d :| d in ops && IsDelete(d);
      var c :| c in ops && c.CreateGroup?;
      MixedOrdersGetStuck(n, ops, d, c);
    }
  }
}
