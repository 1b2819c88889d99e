/** The locked database is linearizable: it implements an object whose methods take effect atomically,
    in one step each, between invocation and return, as the sequential specification says. */
module Linearizability {
  import opened Bytes
  import opened Ordered
  import opened Options
  import opened Crypto
  import opened Membership
  import opened Locks
  import opened LockInvariant

  // ---------- The atomic object ----------

  datatype Call = NoCall | Pending(op: Op) | Answered(op: Op, answer: Answer)

  datatype Atomic = Atomic(db: Db, calls: seq<Call>)

  datatype AtomicEvent = Called(t: nat, op: Op) | TookEffect(t: nat) | Returned(t: nat, op: Op, answer: Answer)

  predicate Allowed(a: Atomic, e: AtomicEvent) {
    && e.t < |a.calls|
    && match e
       case Called(t, op) => a.calls[t] == NoCall
       case TookEffect(t) => a.calls[t].Pending?
       case Returned(t, op, answer) => a.calls[t] == Answered(op, answer)
  }

  ghost function Take(a: Atomic, e: AtomicEvent): Atomic
    requires Allowed(a, e)
  {
    match e
    case Called(t, op) => a.(calls := a.calls[t := Pending(op)])
    case TookEffect(t) =>
      var op := a.calls[t].op;
      var (db', answer) := Apply(a.db, op);
      Atomic(db', a.calls[t := Answered(op, answer)])
    case Returned(t, _, _) => a.(calls := a.calls[t := NoCall])
  }

  function AtomicInit(n: nat): Atomic {
    Atomic(EMPTY, seq(n, _ => NoCall))
  }

  /** The state of the atomic object after a sequence of its events. */
  ghost function AtomicReach(n: nat, es: seq<AtomicEvent>): Option<Atomic> {
    if es == [] then Some(AtomicInit(n))
    else match AtomicReach(n, es[..|es| - 1])
      case None => None
      case Some(a) => if Allowed(a, es[|es| - 1]) then Some(Take(a, es[|es| - 1])) else None
  }

  // ---------- The abstraction ----------

  /** The abstract database while a thread is at a position under gmutex_: a deletion counts as done
      from the moment its second mutex is taken. */
  ghost function Mid(db: Db, pc: Pc): Db
    requires Typed(pc)
  {
    if pc.Erasing? || pc.EraseUser? then Apply(db, pc.op).0
    else if pc.ClearUsers? || pc.ClearGroups? then EMPTY
    else db
  }

  /** The abstract call of a thread. A key listing counts as answered from the moment gmutex_ is taken:
      with the keys read so far, followed by those of the members still to be read. */
  ghost function CallOf(db: Db, pc: Pc): Call
    requires Typed(pc)
  {
    match pc
    case Idle => NoCall
    case RelU(op, known) => if known then Pending(op) else Answered(op, Refused(UnknownUser))
    case RelG(op, answer) => Answered(op, answer)
    case CuRel(op, answer) => Answered(op, answer)
    case Return(op, answer) => Answered(op, answer)
    case Erasing(op, _) => Answered(op, Done)
    case EraseUser(op) => Answered(op, Done)
    case ClearUsers(op) => Answered(op, Done)
    case ClearGroups(op) => Answered(op, Done)
    case DelRelG(op) => Answered(op, Done)
    case DelRelU(op) => Answered(op, Done)
    case GkLook(op) => Answered(op, Apply(db, op).1)
    case GkLoop(op, todo, acc) => Answered(op, Keys(acc + KeysOf(db.users, Ascending(todo))))
    case GkRead(op, todo, acc) => Answered(op, Keys(acc + KeysOf(db.users, Ascending(todo))))
    case GkRelU(op, todo, acc) => Answered(op, Keys(acc + KeysOf(db.users, Ascending(todo))))
    case _ => Pending(pc.op)
  }

  ghost function Alpha(s: State): Atomic
    requires Exclusive(s)
  {
    Atomic(if s.g.Some? then Mid(s.db, s.threads[s.g.value]) else s.db,
           seq(|s.threads|, t requires 0 <= t < |s.threads| => CallOf(s.db, s.threads[t])))
  }

  // ---------- One thread's action ----------

  /** What an action of a thread means for the atomic object. */
  ghost predicate Simulates(a: Db, call: Call, a': Db, call': Call, pc: Pc)
  {
    || (!pc.Return? && a' == a && call' == call)
    || (!pc.Return? && call.Pending? && a' == Apply(a, call.op).0 && call' == Answered(call.op, Apply(a, call.op).1))
    || (pc.Return? && call == Answered(pc.op, pc.answer) && a' == a && call' == NoCall)
  }

  ghost predicate NextOk(db: Db, pc: Pc)
    requires Typed(pc) && pc != Idle
  {
    var a := Next(db, pc);
    Typed(a.pc) && Simulates(Mid(db, pc), CallOf(db, pc), Mid(a.db, a.pc), CallOf(a.db, a.pc), pc)
  }

  /** create_group, add and remove take effect at their write, or at the check that refuses them. */
  lemma CheckSimulates(db: Db, pc: Pc)
    requires Typed(pc) && LocalOk(db, pc) && (pc.LookGroup? || pc.WantU? || pc.LookUser?)
    ensures NextOk(db, pc)
  {
  }

  lemma WriterSimulates(db: Db, pc: Pc)
    requires Typed(pc) && LocalOk(db, pc) && (pc.RelU? || pc.LookMember? || pc.RelG?)
    ensures NextOk(db, pc)
  {
  }

  lemma WriteSimulates(db: Db, pc: Pc)
    requires Typed(pc) && LocalOk(db, pc) && pc.Write?
    ensures NextOk(db, pc)
  {
    var (db', answer) := WriteGroup(db, pc.op);
    if answer == AlreadyMember {
      var members := db.groups[pc.op.gname];
      assert members + {pc.op.uid} == members;
      assert db'.groups == db.groups;
    }
    if pc.op.CreateGroup? {
      var none: set<Id> := {};
      assert none + {pc.op.uid} == {pc.op.uid};
    }
  }

  lemma CreateUserSimulates(db: Db, pc: Pc)
    requires Typed(pc) && LocalOk(db, pc) && (pc.CuLook? || pc.CuWrite? || pc.CuRel?)
    ensures NextOk(db, pc)
  {
  }

  lemma EraseKeepsWithoutUser(groups: map<Id, set<Id>>, g: Id, uid: Id)
    requires g in groups
    ensures WithoutUser(groups[g := groups[g] - {uid}], uid) == WithoutUser(groups, uid)
  {
    assert groups[g] - {uid} - {uid} == groups[g] - {uid};
  }

  lemma NothingToErase(groups: map<Id, set<Id>>, uid: Id)
    requires forall g :: g in groups ==> uid !in groups[g]
    ensures WithoutUser(groups, uid) == groups
  {
    forall g | g in groups ensures groups[g] - {uid} == groups[g] { }
  }

  /** delete_user and delete_all_data take effect when they take their second mutex. */
  lemma DeleteLocksSimulate(db: Db, pc: Pc)
    requires Typed(pc) && LocalOk(db, pc) && (pc.WantG? || pc.DelRelG? || pc.DelRelU?)
    ensures NextOk(db, pc)
  {
  }

  lemma ClearSimulates(db: Db, pc: Pc)
    requires Typed(pc) && LocalOk(db, pc) && (pc.ClearUsers? || pc.ClearGroups?)
    ensures NextOk(db, pc)
  {
  }

  lemma EraseSimulates(db: Db, pc: Pc)
    requires Typed(pc) && LocalOk(db, pc) && (pc.Erasing? || pc.EraseUser?)
    ensures NextOk(db, pc)
  {
    if pc.Erasing? && pc.todo != {} {
      EraseKeepsWithoutUser(db.groups, Least(pc.todo), pc.op.uid);
    }
    if pc.EraseUser? {
      NothingToErase(db.groups, pc.op.uid);
    }
  }

  lemma AppendAssociates(a: seq<Key>, b: seq<Key>, c: seq<Key>)
    ensures a + (b + c) == a + b + c
  {
  }

  lemma EmptyAppends(a: seq<Key>)
    ensures [] + a == a == a + []
  {
  }

  lemma ReadKeepsKeys(users: map<Id, Bytes>, todo: set<Id>, acc: seq<Key>, uid: Id)
    requires IsLeast(uid, todo)
    ensures acc + KeysOf(users, Ascending(todo)) ==
            (if uid in users then acc + [Resize(users[uid], 32)] else acc) + KeysOf(users, Ascending(todo - {uid}))
  {
    KeysOfStep(users, todo, uid);
    if uid in users { AppendAssociates(acc, [Resize(users[uid], 32)], KeysOf(users, Ascending(todo - {uid}))); }
  }

  /** get_keys_of_group takes effect when it takes gmutex_, whatever users are created while it reads. */
  lemma KeyLookSimulates(db: Db, pc: Pc)
    requires Typed(pc) && pc.GkLook?
    ensures NextOk(db, pc)
  {
    if pc.op.gname in db.groups { EmptyAppends(KeysOf(db.users, Ascending(db.groups[pc.op.gname]))); }
    var a := Next(db, pc);
    assert CallOf(a.db, a.pc) == CallOf(db, pc);
  }

  lemma NothingLeft(users: map<Id, Bytes>, acc: seq<Key>)
    ensures acc + KeysOf(users, Ascending({})) == acc
  {
    EmptyAppends(acc);
  }

  lemma KeyLoopSimulates(db: Db, pc: Pc)
    requires Typed(pc) && (pc.GkLoop? || pc.GkRelU?)
    ensures NextOk(db, pc)
  {
    if pc.todo == {} { NothingLeft(db.users, pc.acc); }
    var a := Next(db, pc);
    assert CallOf(a.db, a.pc) == CallOf(db, pc);
  }

  lemma KeyReadSimulates(db: Db, pc: Pc)
    requires Typed(pc) && pc.GkRead? && pc.todo != {}
    ensures NextOk(db, pc)
  {
    ReadKeepsKeys(db.users, pc.todo, pc.acc, Least(pc.todo));
    var a := Next(db, pc);
    assert CallOf(a.db, a.pc) == CallOf(db, pc);
  }

  lemma StartSimulates(db: Db, pc: Pc)
    requires Typed(pc) && (pc.Start? || pc.Return?)
    ensures NextOk(db, pc)
  {
  }

  lemma NextSimulates(db: Db, pc: Pc)
    requires Typed(pc) && pc != Idle && LocalOk(db, pc)
    ensures NextOk(db, pc)
  {
    match pc {
      case Start(op) => StartSimulates(db, pc);
      case Return(op, answer) => StartSimulates(db, pc);
      case Write(op) => WriteSimulates(db, pc);
      case CuLook(op) => CreateUserSimulates(db, pc);
      case CuWrite(op) => CreateUserSimulates(db, pc);
      case CuRel(op, answer) => CreateUserSimulates(db, pc);
      case GkLook(op) => KeyLookSimulates(db, pc);
      case GkLoop(op, todo, acc) => KeyLoopSimulates(db, pc);
      case GkRead(op, todo, acc) => KeyReadSimulates(db, pc);
      case GkRelU(op, todo, acc) => KeyLoopSimulates(db, pc);
      case LookGroup(op) => CheckSimulates(db, pc);
      case WantU(op) => CheckSimulates(db, pc);
      case LookUser(op) => CheckSimulates(db, pc);
      case RelU(op, known) => WriterSimulates(db, pc);
      case LookMember(op) => WriterSimulates(db, pc);
      case RelG(op, answer) => WriterSimulates(db, pc);
      case Erasing(op, todo) => EraseSimulates(db, pc);
      case EraseUser(op) => EraseSimulates(db, pc);
      case ClearUsers(op) => ClearSimulates(db, pc);
      case ClearGroups(op) => ClearSimulates(db, pc);
      case _ => DeleteLocksSimulate(db, pc);
    }
  }

  // ---------- The other threads ----------

  lemma {:induction false} KeysOfStable(users: map<Id, Bytes>, users': map<Id, Bytes>, uids: seq<Id>)
    requires Extends(users, users') && forall u :: u in uids ==> u in users
    ensures KeysOf(users', uids) == KeysOf(users, uids)
  {
    if uids != [] {
      assert uids[0] in uids;
      KeysOfStable(users, users', uids[1..]);
    }
  }

  lemma KeysStable(users: map<Id, Bytes>, users': map<Id, Bytes>, members: set<Id>)
    requires Extends(users, users') && forall u :: u in members ==> u in users
    ensures KeysOf(users', Ascending(members)) == KeysOf(users, Ascending(members))
  {
    AscendingElements(members);
    KeysOfStable(users, users', Ascending(members));
  }

  /** Users created meanwhile do not change what a thread is going to answer. */
  lemma CallStable(db: Db, db': Db, pc: Pc)
    requires Typed(pc) && LocalOk(db, pc) && Rely(db, db', pc)
    requires pc.GkLook? || pc.GkLoop? || pc.GkRead? || pc.GkRelU? ==> MembersKnown(db)
    ensures CallOf(db', pc) == CallOf(db, pc)
  {
    match pc {
      case GkLook(op) =>
        if op.gname in db.groups { KeysStable(db.users, db'.users, db.groups[op.gname]); }
      case GkLoop(op, todo, acc) => KeysStable(db.users, db'.users, todo);
      case GkRead(op, todo, acc) => KeysStable(db.users, db'.users, todo);
      case GkRelU(op, todo, acc) => KeysStable(db.users, db'.users, todo);
      case _ =>
    }
  }

  lemma OtherCallsStable(s: State, t: nat, t': nat)
    requires Inv(s) && Enabled(s, t) && t' < |s.threads| && t' != t
    ensures CallOf(After(s, Advance(t)).db, s.threads[t']) == CallOf(s.db, s.threads[t'])
  {
    AdvanceRespects(s, t, t');
    CallStable(s.db, After(s, Advance(t)).db, s.threads[t']);
  }

  // ---------- The abstract database ----------

  ghost function AbsDb(s: State): Db
    requires Exclusive(s)
  {
    Alpha(s).db
  }

  lemma AbsDbMine(s: State, t: nat)
    requires Inv(s) && Enabled(s, t) && (HoldsG(s.threads[t]) || s.g == None)
    ensures var s' := After(s, Advance(t));
            Exclusive(s') && AbsDb(s) == Mid(s.db, s.threads[t]) && AbsDb(s') == Mid(s'.db, s'.threads[t])
  {
    AdvanceExclusive(s, t);
  }

  /** A thread that acts while another one is under gmutex_ creates a user or returns. */
  lemma AbsDbOther(s: State, t: nat)
    requires Inv(s) && Enabled(s, t) && s.g.Some? && s.g != Some(t)
    ensures var s' := After(s, Advance(t));
            && Exclusive(s') && s'.g == s.g
            && if s.threads[t].Return? then s'.db == s.db && AbsDb(s') == AbsDb(s)
               else AbsDb(s) == s.db && AbsDb(s') == s'.db
  {
    AdvanceExclusive(s, t);
    NextGuarantees(s.db, s.threads[t]);
    var t2 := s.g.value;
    assert HoldsG(s.threads[t2]);
  }

  lemma AdvanceSimulates(s: State, t: nat)
    requires Inv(s) && Enabled(s, t)
    ensures var s' := After(s, Advance(t));
            && Exclusive(s')
            && Simulates(AbsDb(s), CallOf(s.db, s.threads[t]), AbsDb(s'), CallOf(s'.db, s'.threads[t]), s.threads[t])
  {
    NextSimulates(s.db, s.threads[t]);
    if HoldsG(s.threads[t]) || s.g == None {
      AbsDbMine(s, t);
    } else {
      AbsDbOther(s, t);
      NextMovesLocks(s.db, s.threads[t]);
    }
  }

  // ---------- Every run ----------

  /** The events of the atomic object for one action. */
  ghost function Image(s: State, t: nat): seq<AtomicEvent>
    requires Inv(s) && Enabled(s, t)
  {
    var s' := After(s, Advance(t));
    AdvanceExclusive(s, t);
    var pc := s.threads[t];
    if pc.Return? then [Returned(t, pc.op, pc.answer)]
    else if CallOf(s.db, pc) == CallOf(s'.db, s'.threads[t]) then []
    else [TookEffect(t)]
  }

  lemma AdvanceRefines(s: State, t: nat)
    requires Inv(s) && Enabled(s, t)
    ensures var s', es := After(s, Advance(t)), Image(s, t);
            && Exclusive(s')
            && (es == [] ==> Alpha(s') == Alpha(s))
            && (es != [] ==> Allowed(Alpha(s), es[0]) && Alpha(s') == Take(Alpha(s), es[0]))
  {
    AdvanceSimulates(s, t);
    var s' := After(s, Advance(t));
    var call' := CallOf(s'.db, s'.threads[t]);
    assert Alpha(s').calls == Alpha(s).calls[t := call'] by {
      forall t' | 0 <= t' < |s.threads| && t' != t ensures Alpha(s').calls[t'] == Alpha(s).calls[t'] {
        OtherCallsStable(s, t, t');
      }
    }
  }

  lemma InvokeRefines(s: State, t: nat, op: Op)
    requires Inv(s) && CanHappen(s, Invoke(t, op))
    ensures var s' := After(s, Invoke(t, op));
            Exclusive(s') && Allowed(Alpha(s), Called(t, op)) && Alpha(s') == Take(Alpha(s), Called(t, op))
  {
    InvokeInv(s, t, op);
    var s' := After(s, Invoke(t, op));
    assert Alpha(s').calls == Alpha(s).calls[t := Pending(op)];
  }

  /** What callers see of a run: invocations and answers, in order. */
  ghost function History(n: nat, events: seq<Event>): seq<AtomicEvent>
    requires Reach(n, events).Some?
  {
    if events == [] then []
    else
      var prefix, last := events[..|events| - 1], events[|events| - 1];
      var pc := Reach(n, prefix).value.threads[last.t];
      History(n, prefix) +
      match last
      case Invoke(t, op) => [Called(t, op)]
      case Advance(t) => if pc.Return? then [Returned(t, pc.op, pc.answer)] else []
  }

  function Visible(es: seq<AtomicEvent>): seq<AtomicEvent> {
    if es == [] then []
    else Visible(es[..|es| - 1]) + if es[|es| - 1].TookEffect? then [] else [es[|es| - 1]]
  }

  lemma AtomicExtend(n: nat, es: seq<AtomicEvent>, more: seq<AtomicEvent>, a: Atomic, a': Atomic)
    requires AtomicReach(n, es) == Some(a) && |more| <= 1
    requires if more == [] then a' == a else Allowed(a, more[0]) && a' == Take(a, more[0])
    ensures AtomicReach(n, es + more) == Some(a')
    ensures Visible(es + more) == Visible(es) + if more == [] || more[0].TookEffect? then [] else more
  {
    if more == [] { assert es + more == es; } else { assert (es + more)[..|es|] == es; }
  }

  /** For any number of threads and every interleaving there is a run of the atomic object with the
      same invocations and answers in the same order. */
  lemma {:induction false} Linearizable(n: nat, events: seq<Event>) returns (es: seq<AtomicEvent>)
    requires Reach(n, events).Some?
    ensures Exclusive(Reach(n, events).value)
    ensures AtomicReach(n, es) == Some(Alpha(Reach(n, events).value))
    ensures Visible(es) == History(n, events)
  {
    ReachInv(n, events);
    if events == [] {
      es := [];
      assert Alpha(Init(n)).calls == AtomicInit(n).calls;
    } else {
      var prefix, last := events[..|events| - 1], events[|events| - 1];
      es := Linearizable(n, prefix);
      ReachInv(n, prefix);
      var s := Reach(n, prefix).value;
      match last {
        case Invoke(t, op) =>
          InvokeRefines(s, t, op);
          AtomicExtend(n, es, [Called(t, op)], Alpha(s), Alpha(After(s, last)));
          es := es + [Called(t, op)];
        case Advance(t) =>
          AdvanceRefines(s, t);
          AtomicExtend(n, es, Image(s, t), Alpha(s), Alpha(After(s, last)));
          es := es + Image(s, t);
      }
    }
  }

  // ---------- The sequential witness ----------

  /** The operations in the order in which they took effect. */
  ghost function Effects(n: nat, es: seq<AtomicEvent>): seq<Op>
    requires AtomicReach(n, es).Some?
  {
    if es == [] then []
    else
      var prefix, last := es[..|es| - 1], es[|es| - 1];
      Effects(n, prefix) + if last.TookEffect? then [AtomicReach(n, prefix).value.calls[last.t].op] else []
  }

  /** The atomic object is a sequential history: its database is the one that the operations, run one
      after the other in the order of their effects, produce, and every answer is the sequential one. */
  lemma {:induction false} EffectsAreSequential(n: nat, es: seq<AtomicEvent>)
    requires AtomicReach(n, es).Some?
    ensures AtomicReach(n, es).value.db == Run(EMPTY, Effects(n, es))
    ensures es != [] && es[|es| - 1].TookEffect? ==>
              var ops := Effects(n, es);
              ops != [] && AtomicReach(n, es).value.calls[es[|es| - 1].t] == Answered(ops[|ops| - 1], LastAnswer(ops))
  {
    if es != [] {
      var prefix, last := es[..|es| - 1], es[|es| - 1];
      EffectsAreSequential(n, prefix);
      var before, ops := Effects(n, prefix), Effects(n, es);
      if last.TookEffect? {
        assert ops[..|ops| - 1] == before;
      } else {
        assert ops == before;
      }
    }
  }

  /** A call that is answered took effect once, at es[i], after its invocation, and its answer is that of the
      sequential database at that point. */
  lemma {:induction false} AnsweredAt(n: nat, es: seq<AtomicEvent>, t: nat) returns (i: nat)
    requires AtomicReach(n, es).Some? && t < |AtomicReach(n, es).value.calls|
    requires AtomicReach(n, es).value.calls[t].Answered?
    ensures LastEffectAt(n, es, t, i, AtomicReach(n, es).value.calls[t])
  {
    if es[|es| - 1].t == t {
      i := |es| - 1;
      assert es[..i + 1] == es;
      JustAnswered(n, es, t);
    } else {
      OthersKeepCall(n, es, t);
      i := AnsweredAt(n, es[..|es| - 1], t);
      LastEffectStays(n, es, t, i, AtomicReach(n, es).value.calls[t]);
    }
  }

  /** es[i] is the last event of thread t, and its sequential answer is that of the call. */
  ghost predicate LastEffectAt(n: nat, es: seq<AtomicEvent>, t: nat, i: nat, call: Call) {
    && i < |es| && es[i] == TookEffect(t) && AtomicReach(n, es[..i + 1]).Some?
    && (forall j :: i < j < |es| ==> es[j].t != t)
    && var ops := Effects(n, es[..i + 1]); ops != [] && call == Answered(ops[|ops| - 1], LastAnswer(ops))
  }

  lemma LastEffectStays(n: nat, es: seq<AtomicEvent>, t: nat, i: nat, call: Call)
    requires es != [] && es[|es| - 1].t != t && LastEffectAt(n, es[..|es| - 1], t, i, call)
    ensures LastEffectAt(n, es, t, i, call)
  {
    assert es[..|es| - 1][..i + 1] == es[..i + 1];
  }

  lemma OthersKeepCall(n: nat, es: seq<AtomicEvent>, t: nat)
    requires es != [] && AtomicReach(n, es).Some? && es[|es| - 1].t != t && t < |AtomicReach(n, es).value.calls|
    ensures var before := AtomicReach(n, es[..|es| - 1]);
            before.Some? && t < |before.value.calls| && before.value.calls[t] == AtomicReach(n, es).value.calls[t]
  {
  }

  lemma JustAnswered(n: nat, es: seq<AtomicEvent>, t: nat)
    requires es != [] && AtomicReach(n, es).Some? && es[|es| - 1].t == t && t < |AtomicReach(n, es).value.calls|
    requires AtomicReach(n, es).value.calls[t].Answered?
    ensures es[|es| - 1] == TookEffect(t)
    ensures var ops := Effects(n, es);
            ops != [] && AtomicReach(n, es).value.calls[t] == Answered(ops[|ops| - 1], LastAnswer(ops))
  {
    EffectsAreSequential(n, es);
  }

  /** Every answer that a thread returns, on every interleaving, is the one that the sequential database gives
      at the point es[i] at which the call took effect, after the operations that took effect before it. */
  lemma AnswersAreSequential(n: nat, events: seq<Event>, t: nat, op: Op, answer: Answer)
    returns (es: seq<AtomicEvent>, i: nat)
    requires Reach(n, events).Some? && t < n && Reach(n, events).value.threads[t] == Return(op, answer)
    ensures Exclusive(Reach(n, events).value) && AtomicReach(n, es) == Some(Alpha(Reach(n, events).value))
    ensures Visible(es) == History(n, events)
    ensures i < |es| && es[i] == TookEffect(t) && AtomicReach(n, es[..i + 1]).Some?
    ensures var ops := Effects(n, es[..i + 1]); ops != [] && ops[|ops| - 1] == op && answer == LastAnswer(ops)
  {
    es := Linearizable(n, events);
    assert Alpha(Reach(n, events).value).calls[t] == Answered(op, answer);
    i := AnsweredAt(n, es, t);
  }

  /** What callers see is all there: every invocation, and every return with its answer. */
  lemma {:induction false} HistoryShowsAll(n: nat, events: seq<Event>, i: nat)
    requires Reach(n, events).Some? && i < |events| && Reach(n, events[..i]).Some?
    ensures match events[i]
            case Invoke(t, op) => Called(t, op) in History(n, events)
            case Advance(t) =>
              t < n && var pc := Reach(n, events[..i]).value.threads[t];
              (pc.Return? ==> Returned(t, pc.op, pc.answer) in History(n, events))
  {
    var prefix := events[..|events| - 1];
    if i == |events| - 1 {
      assert prefix == events[..i];
    } else {
      assert prefix[..i] == events[..i];
      HistoryShowsAll(n, prefix, i);
    }
  }

  /** So what holds of histories holds of threads: on every interleaving, in the order of the effects, a user
      belongs to a group iff the last effective operation that touched the pair was a create or an add, and
      the key stored is that of the last creation since a deletion. */
  lemma HistoriesUnderThreads(n: nat, events: seq<Event>) returns (es: seq<AtomicEvent>)
    requires Reach(n, events).Some?
    ensures Exclusive(Reach(n, events).value) && AtomicReach(n, es) == Some(Alpha(Reach(n, events).value))
    ensures Visible(es) == History(n, events)
    ensures var db, ops := Alpha(Reach(n, events).value).db, Effects(n, es);
            && MembersKnown(db)
            && (forall g, u :: Member(db, g, u) <==> LastTouch(ops, g, u) == Some(true))
            && (forall u :: LastKey(ops, u) == if u in db.users then Some(db.users[u]) else None)
  {
    es := Linearizable(n, events);
    EffectsAreSequential(n, es);
    var ops := Effects(n, es);
    HistoriesKeepMembersKnown(ops);
    forall g, u ensures Member(Run(EMPTY, ops), g, u) <==> LastTouch(ops, g, u) == Some(true) {
      MembershipIsLastTouch(ops, g, u);
    }
    forall u
      ensures LastKey(ops, u) == if u in Run(EMPTY, ops).users then Some(Run(EMPTY, ops).users[u]) else None
    {
      StoredKeyIsLastKey(ops, u);
    }
  }

  // ---------- Key listings are snapshots ----------

  /** Once an operation has taken effect its answer is settled, whatever anybody does before it returns. */
  lemma AnswerSettled(s: State, e: Event, t: nat)
    requires Inv(s) && CanHappen(s, e) && t < |s.threads| && CallOf(s.db, s.threads[t]).Answered?
    requires !(e == Advance(t) && s.threads[t].Return?)
    ensures var s' := After(s, e);
            Typed(s'.threads[t]) && CallOf(s'.db, s'.threads[t]) == CallOf(s.db, s.threads[t])
  {
    if e.Advance? {
      AdvanceSimulates(s, e.t);
      if e.t != t { OtherCallsStable(s, e.t, t); }
    }
  }

  /** The thread stays in one call throughout the events after the first `from`. */
  ghost predicate SameCall(n: nat, events: seq<Event>, from: nat, t: nat)
    requires Reach(n, events).Some? && t < n
    decreases |events|
  {
    |events| <= from ||
    (Reach(n, events).value.threads[t] != Idle && SameCall(n, events[..|events| - 1], from, t))
  }

  /** From the moment it takes gmutex_, get_keys_of_group is going to answer with the keys as they were
      then, even while users are created between its reads. */
  lemma {:induction false} KeysAreSnapshot(n: nat, events: seq<Event>, from: nat, t: nat, g: Id)
    requires from <= |events| && t < n && Reach(n, events).Some? && Reach(n, events[..from]).Some?
    requires Reach(n, events[..from]).value.threads[t] == GkLook(GetKeys(g))
    requires SameCall(n, events, from, t)
    ensures var s0, s := Reach(n, events[..from]).value, Reach(n, events).value;
            CallOf(s.db, s.threads[t]) == Answered(GetKeys(g), Apply(s0.db, GetKeys(g)).1)
    decreases |events|
  {
    if from == |events| {
      assert events[..from] == events;
    } else {
      var prefix := events[..|events| - 1];
      assert prefix[..from] == events[..from];
      KeysAreSnapshot(n, prefix, from, t, g);
      ReachInv(n, prefix);
      AnswerSettled(Reach(n, prefix).value, events[|events| - 1], t);
    }
  }

  /** When it returns, the answer is exactly one key per member of that moment, in member order. */
  lemma ReturnedKeysAreSnapshot(n: nat, events: seq<Event>, from: nat, t: nat, g: Id, answer: Answer)
    requires from <= |events| && t < n && Reach(n, events).Some? && Reach(n, events[..from]).Some?
    requires Reach(n, events[..from]).value.threads[t] == GkLook(GetKeys(g))
    requires SameCall(n, events, from, t) && Reach(n, events).value.threads[t] == Return(GetKeys(g), answer)
    requires var db := Reach(n, events[..from]).value.db; g in db.groups && db.groups[g] != {}
    ensures var db := Reach(n, events[..from]).value.db;
            answer.Keys? && OneKeyPerMember(db, g, answer.keys) && |answer.keys| == |db.groups[g]|
  {
    KeysAreSnapshot(n, events, from, t, g);
    LockHolderSeesKnownMembers(n, events[..from], t);
    GroupKeys(Reach(n, events[..from]).value.db, g);
  }
}
