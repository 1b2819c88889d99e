/** Accept and receive interleaved (tls_config.cpp, event_loop.cpp): one thread accepts, any number receive.
    A descriptor is free for reuse as soon as it is closed, but its table entry is removed later, by number. */
module TlsRace {
  import opened Options

  /** The accepting thread. */
  datatype Acceptor =
    | Waiting
    | Got(fd: int)      // accept(2) returned fd; next: erase a stale entry under the lock
    | Purged(fd: int)   // next: SSL_accept, then insert or give up

  /** A receiving thread; `conn` identifies the connection object, not its descriptor. */
  datatype Receiver =
    | Idle
    | Reading(fd: int, conn: nat)
    | Closed(fd: int, conn: nat)  // close() done; next: removeConnection(fd)
    | Removed(fd: int, conn: nat, erased: nat)
    | Failed(fd: int, conn: nat)  // removeConnection threw NOT_FOUND, which nobody catches: the server ends

  /** `fdOf` is the fd_ field of every connection object made so far, -1 once it is closed. */
  datatype State = State(open: set<int>, table: map<int, nat>, fdOf: map<nat, int>, next: nat,
                         acceptor: Acceptor, receivers: seq<Receiver>)

  datatype Event =
    | AcceptFd(fd: int)
    | Purge
    | Handshake(ok: bool)
    | GetConnection(t: nat, fd: int)
    | ReadOn(t: nat)                 // data, or an error that leaves the connection in place
    | ReadClosed(t: nat)             // SSL_read returned 0: close()
    | Remove(t: nat)
    | Return(t: nat)

  predicate Busy(r: Receiver, conn: nat) {
    (r.Reading? || r.Closed?) && r.conn == conn
  }

  predicate Share(r: Receiver, r': Receiver) {
    (r.Reading? || r.Closed?) && Busy(r', r.conn)
  }

  /** No exception has left ecall_tls_recv. */
  predicate Running(s: State) {
    forall i :: 0 <= i < |s.receivers| ==> !s.receivers[i].Failed?
  }

  ghost predicate CanHappen(s: State, e: Event) {
    Running(s) &&
    match e
    case AcceptFd(fd) => s.acceptor == Waiting && fd >= 0 && fd !in s.open
    case Purge => s.acceptor.Got?
    case Handshake(_) => s.acceptor.Purged?
    case GetConnection(t, fd) =>
      && t < |s.receivers| && s.receivers[t] == Idle && fd in s.table
      && (forall i :: 0 <= i < |s.receivers| ==> !Busy(s.receivers[i], s.table[fd]))
    case ReadOn(t) => t < |s.receivers| && s.receivers[t].Reading?
    case ReadClosed(t) => t < |s.receivers| && s.receivers[t].Reading? && s.receivers[t].conn in s.fdOf
    case Remove(t) => t < |s.receivers| && s.receivers[t].Closed?
    case Return(t) => t < |s.receivers| && s.receivers[t].Removed?
  }

  /** The destructor of the entry at fd: close what it still owns. */
  function Erase(s: State, fd: int): State {
    if fd !in s.table then s
    else
      var conn := s.table[fd];
      var owned := if conn in s.fdOf then s.fdOf[conn] else -1;
      s.(table := s.table - {fd}, open := s.open - {owned}, fdOf := s.fdOf[conn := -1])
  }

  ghost function After(s: State, e: Event): State
    requires CanHappen(s, e)
  {
    match e
    case AcceptFd(fd) => s.(open := s.open + {fd}, acceptor := Got(fd))
    case Purge =>
      var fd := s.acceptor.fd;
      Erase(s, fd).(acceptor := Purged(fd))
    case Handshake(ok) =>
      var fd := s.acceptor.fd;
      if ok then s.(table := s.table[fd := s.next], fdOf := s.fdOf[s.next := fd], next := s.next + 1,
                    acceptor := Waiting)
      else s.(open := s.open - {fd}, acceptor := Waiting)
    case GetConnection(t, fd) => s.(receivers := s.receivers[t := Reading(fd, s.table[fd])])
    case ReadOn(t) => s.(receivers := s.receivers[t := Idle])
    case ReadClosed(t) =>
      var r := s.receivers[t];
      s.(open := s.open - {s.fdOf[r.conn]}, fdOf := s.fdOf[r.conn := -1],
         receivers := s.receivers[t := Closed(r.fd, r.conn)])
    case Remove(t) =>
      var r := s.receivers[t];
      if r.fd in s.table then Erase(s, r.fd).(receivers := s.receivers[t := Removed(r.fd, r.conn, s.table[r.fd])])
      else s.(receivers := s.receivers[t := Failed(r.fd, r.conn)])
    case Return(t) => s.(receivers := s.receivers[t := Idle])
  }

  // ---------- What every step keeps ----------

  ghost predicate IsOpen(s: State, fd: int, conn: nat) {
    conn in s.fdOf && s.fdOf[conn] == fd && fd in s.open && s.acceptor != Got(fd)
  }

  ghost predicate AwaitsRemoval(s: State, fd: int, conn: nat) {
    conn in s.fdOf && s.fdOf[conn] == -1 && exists t :: 0 <= t < |s.receivers| && s.receivers[t] == Closed(fd, conn)
  }

  /** An entry is an open connection under its own descriptor, or a closed one that somebody is about to
      remove. */
  ghost predicate EntryOk(s: State, fd: int, conn: nat) {
    fd >= 0 && conn < s.next && (IsOpen(s, fd, conn) || AwaitsRemoval(s, fd, conn))
  }

  ghost predicate Filed(s: State, fd: int, conn: nat) {
    fd in s.table && s.table[fd] == conn
  }

  ghost predicate ReceiverOk(s: State, r: Receiver) {
    match r
    case Reading(fd, conn) => Filed(s, fd, conn) && IsOpen(s, fd, conn)
    case Closed(fd, conn) => fd >= 0 && conn < s.next && conn in s.fdOf && s.fdOf[conn] == -1
    case _ => true
  }

  ghost predicate Distinct(s: State) {
    && (forall a, b :: a in s.table && b in s.table && a != b ==> s.table[a] != s.table[b])
    && (forall i, j :: 0 <= i < j < |s.receivers| ==> !Share(s.receivers[i], s.receivers[j]))
  }

  ghost predicate AcceptorOk(s: State) {
    match s.acceptor
    case Waiting => true
    case Got(fd) => fd >= 0 && fd in s.open
    case Purged(fd) => fd >= 0 && fd in s.open && fd !in s.table
  }

  ghost predicate Inv(s: State) {
    && Distinct(s) && AcceptorOk(s)
    && (forall fd :: fd in s.table ==> EntryOk(s, fd, s.table[fd]))
    && (forall t :: 0 <= t < |s.receivers| ==> ReceiverOk(s, s.receivers[t]))
  }

  lemma AcceptorInv(s: State, e: Event)
    requires Inv(s) && CanHappen(s, e) && (e.AcceptFd? || e.Handshake?)
    ensures Inv(After(s, e))
  {
    var s' := After(s, e);
    forall fd | fd in s'.table ensures EntryOk(s', fd, s'.table[fd]) {
      if fd in s.table && AwaitsRemoval(s, fd, s.table[fd]) {
        var t :| 0 <= t < |s.receivers| && s.receivers[t] == Closed(fd, s.table[fd]);
        assert s'.receivers[t] == Closed(fd, s.table[fd]);
      }
    }
    forall t | 0 <= t < |s'.receivers| ensures ReceiverOk(s', s'.receivers[t]) {
      assert ReceiverOk(s, s.receivers[t]);
    }
  }

  lemma PurgeInv(s: State)
    requires Inv(s) && CanHappen(s, Purge)
    ensures Inv(After(s, Purge))
  {
    var s', fd0 := After(s, Purge), s.acceptor.fd;
    forall fd | fd in s'.table ensures EntryOk(s', fd, s'.table[fd]) {
      if AwaitsRemoval(s, fd, s.table[fd]) {
        var t :| 0 <= t < |s.receivers| && s.receivers[t] == Closed(fd, s.table[fd]);
        assert s'.receivers[t] == Closed(fd, s.table[fd]);
      }
    }
    forall t | 0 <= t < |s'.receivers| ensures ReceiverOk(s', s'.receivers[t]) {
      assert ReceiverOk(s, s.receivers[t]);
    }
    forall i, j | 0 <= i < j < |s'.receivers| ensures !Share(s'.receivers[i], s'.receivers[j]) {
      assert !Share(s.receivers[i], s.receivers[j]);
    }
  }

  lemma ReceiveInv(s: State, e: Event)
    requires Inv(s) && CanHappen(s, e) && (e.GetConnection? || e.ReadOn? || e.Return?)
    ensures Inv(After(s, e))
  {
    var s' := After(s, e);
    forall fd | fd in s'.table ensures EntryOk(s', fd, s'.table[fd]) {
      if AwaitsRemoval(s, fd, s.table[fd]) {
        var t :| 0 <= t < |s.receivers| && s.receivers[t] == Closed(fd, s.table[fd]);
        assert s'.receivers[t] == Closed(fd, s.table[fd]);
      }
    }
    forall t | 0 <= t < |s'.receivers| ensures ReceiverOk(s', s'.receivers[t]) {
      assert ReceiverOk(s, s.receivers[t]);
    }
    if e.GetConnection? { FiledIsOpen(s, e.fd); }
  }

  lemma FiledIsOpen(s: State, fd: int)
    requires Inv(s) && fd in s.table
    requires forall i :: 0 <= i < |s.receivers| ==> !Busy(s.receivers[i], s.table[fd])
    ensures IsOpen(s, fd, s.table[fd])
  {
    assert EntryOk(s, fd, s.table[fd]);
  }

  lemma CloseInv(s: State, t: nat)
    requires Inv(s) && CanHappen(s, ReadClosed(t))
    ensures Inv(After(s, ReadClosed(t)))
  {
    var s', r := After(s, ReadClosed(t)), s.receivers[t];
    assert ReceiverOk(s, r);
    forall fd | fd in s'.table ensures EntryOk(s', fd, s'.table[fd]) {
      assert EntryOk(s, fd, s.table[fd]);
      if fd == r.fd {
        assert s'.receivers[t] == Closed(fd, s.table[fd]);
      } else if AwaitsRemoval(s, fd, s.table[fd]) {
        var i :| 0 <= i < |s.receivers| && s.receivers[i] == Closed(fd, s.table[fd]);
        assert s'.receivers[i] == Closed(fd, s.table[fd]);
      }
    }
    forall i | 0 <= i < |s'.receivers| ensures ReceiverOk(s', s'.receivers[i]) {
      assert ReceiverOk(s, s.receivers[i]);
    }
  }

  /** A removal keeps the invariant when it is timely, or when there is nobody else to be disturbed. */
  lemma RemoveInv(s: State, t: nat)
    requires Inv(s) && CanHappen(s, Remove(t))
    requires Filed(s, s.receivers[t].fd, s.receivers[t].conn) || |s.receivers| == 1
    ensures Inv(After(s, Remove(t)))
  {
    var s', r := After(s, Remove(t)), s.receivers[t];
    assert ReceiverOk(s, r);
    if r.fd in s.table { assert EntryOk(s, r.fd, s.table[r.fd]); }
    forall fd | fd in s'.table ensures EntryOk(s', fd, s'.table[fd]) {
      assert EntryOk(s, fd, s.table[fd]);
      if AwaitsRemoval(s, fd, s.table[fd]) {
        var i :| 0 <= i < |s.receivers| && s.receivers[i] == Closed(fd, s.table[fd]);
        assert s'.receivers[i] == Closed(fd, s.table[fd]);
      }
    }
    forall i | 0 <= i < |s'.receivers| ensures ReceiverOk(s', s'.receivers[i]) {
      assert ReceiverOk(s, s.receivers[i]);
    }
  }

  // ---------- Runs ----------

  function Init(n: nat, open: set<int>): State {
    State(open, map[], map[], 0, Waiting, seq(n, _ => Idle))
  }

  /** The operating system does not reissue a descriptor between its close and its removal. */
  ghost predicate Careful(s: State, e: Event) {
    e.AcceptFd? ==> forall t :: 0 <= t < |s.receivers| && s.receivers[t].Closed? ==> s.receivers[t].fd != e.fd
  }

  /** The state reached through a sequence of events; None if some event could not happen. */
  ghost function Reach(n: nat, open: set<int>, events: seq<Event>): Option<State> {
    if events == [] then Some(Init(n, open))
    else
      var last := events[|events| - 1];
      match Reach(n, open, events[..|events| - 1])
      case None => None
      case Some(s) => if CanHappen(s, last) then Some(After(s, last)) else None
  }

  ghost predicate AllCareful(n: nat, open: set<int>, events: seq<Event>)
    requires Reach(n, open, events).Some?
  {
    events != [] ==>
      && AllCareful(n, open, events[..|events| - 1])
      && Careful(Reach(n, open, events[..|events| - 1]).value, events[|events| - 1])
  }

  ghost predicate Timely(s: State, r: Receiver) {
    match r
    case Closed(fd, conn) => Filed(s, fd, conn) && s.acceptor != Got(fd) && s.acceptor != Purged(fd)
    case Removed(_, conn, erased) => erased == conn
    case Failed(_, _) => false
    case _ => true
  }

  ghost predicate Clean(s: State) {
    forall t :: 0 <= t < |s.receivers| ==> Timely(s, s.receivers[t])
  }

  lemma StepInv(s: State, e: Event)
    requires Inv(s) && CanHappen(s, e)
    requires e.Remove? ==> Filed(s, s.receivers[e.t].fd, s.receivers[e.t].conn) || |s.receivers| == 1
    ensures Inv(After(s, e))
  {
    match e {
      case AcceptFd(_) => AcceptorInv(s, e);
      case Handshake(_) => AcceptorInv(s, e);
      case Purge => PurgeInv(s);
      case ReadClosed(t) => CloseInv(s, t);
      case Remove(t) => RemoveInv(s, t);
      case _ => ReceiveInv(s, e);
    }
  }

  lemma StepClean(s: State, e: Event)
    requires Inv(s) && Clean(s) && CanHappen(s, e) && Careful(s, e)
    ensures Clean(After(s, e))
  {
    var s' := After(s, e);
    if e.ReadClosed? || e.Remove? { assert ReceiverOk(s, s.receivers[e.t]); }
    forall t | 0 <= t < |s'.receivers| ensures Timely(s', s'.receivers[t]) {
      assert Timely(s, s.receivers[t]) && ReceiverOk(s, s.receivers[t]);
    }
  }

  /** On every run in which no descriptor is reissued between its close and its removal, for any number of
      receiving threads, each removal erases the very connection that was closed, none throws, and the
      accepting thread finds no stale entry. */
  lemma {:induction false} RemovalErasesClosed(n: nat, open: set<int>, events: seq<Event>)
    requires Reach(n, open, events).Some? && AllCareful(n, open, events)
    ensures var s := Reach(n, open, events).value;
            && Inv(s) && Clean(s) && |s.receivers| == n
            && (forall t :: 0 <= t < n && s.receivers[t].Removed? ==>
                  s.receivers[t].erased == s.receivers[t].conn)
            && Running(s) && (s.acceptor.Got? ==> s.acceptor.fd !in s.table)
  {
    var s := Reach(n, open, events).value;
    if events != [] {
      var prefix, last := events[..|events| - 1], events[|events| - 1];
      RemovalErasesClosed(n, open, prefix);
      var before := Reach(n, open, prefix).value;
      if last.Remove? { assert Timely(before, before.receivers[last.t]); }
      StepInv(before, last);
      StepClean(before, last);
    }
    forall t | 0 <= t < n
      ensures !s.receivers[t].Failed? && (s.receivers[t].Removed? ==> s.receivers[t].erased == s.receivers[t].conn)
    {
      assert Timely(s, s.receivers[t]);
    }
    if s.acceptor.Got? { NoStaleEntry(s); }
  }

  lemma NoStaleEntry(s: State)
    requires Inv(s) && Clean(s) && s.acceptor.Got?
    ensures s.acceptor.fd !in s.table
  {
  }

  // ---------- The exact condition, over the events of a run ----------

  /** What holds for any number of receivers on every run, careful or not. */
  ghost predicate Numbered(s: State) {
    && (forall fd :: fd in s.table ==> s.table[fd] < s.next)
    && (s.acceptor.Purged? ==> s.acceptor.fd !in s.table)
    && (forall t :: 0 <= t < |s.receivers| && (s.receivers[t].Reading? || s.receivers[t].Closed?) ==>
          s.receivers[t].conn < s.next)
  }

  lemma {:induction false} ReachNumbered(n: nat, open: set<int>, events: seq<Event>)
    requires Reach(n, open, events).Some?
    ensures Numbered(Reach(n, open, events).value) && |Reach(n, open, events).value.receivers| == n
  {
    if events != [] { ReachNumbered(n, open, events[..|events| - 1]); }
  }

  /** The event erases whatever is filed under fd: the stale-entry check of the accepting thread, or a
      removal. */
  ghost predicate Erases(s: State, e: Event, fd: int) {
    match e
    case Purge => s.acceptor == Got(fd)
    case Remove(t) => t < |s.receivers| && s.receivers[t].Closed? && s.receivers[t].fd == fd
    case _ => false
  }

  /** Since receiver t got its connection, some event has erased what was filed under fd. */
  ghost predicate ErasedSinceGet(n: nat, open: set<int>, events: seq<Event>, t: nat, fd: int)
    requires Reach(n, open, events).Some?
  {
    && events != []
    && var prefix, last := events[..|events| - 1], events[|events| - 1];
       && !(last.GetConnection? && last.t == t)
       && (Erases(Reach(n, open, prefix).value, last, fd) || ErasedSinceGet(n, open, prefix, t, fd))
  }

  ghost predicate Serves(r: Receiver, fd: int, conn: nat) {
    (r.Reading? || r.Closed?) && r.fd == fd && r.conn == conn
  }

  /** One event: an entry stays filed unless the event erases it, and an entry that is gone does not come
      back, since connections are never filed twice. */
  lemma FiledAfter(s: State, e: Event, t: nat, fd: int, conn: nat)
    requires Numbered(s) && CanHappen(s, e) && t < |s.receivers| && Serves(After(s, e).receivers[t], fd, conn)
    ensures (e.GetConnection? && e.t == t) ==> Filed(After(s, e), fd, conn)
    ensures !(e.GetConnection? && e.t == t) ==>
              && Serves(s.receivers[t], fd, conn)
              && (Filed(After(s, e), fd, conn) <==> Filed(s, fd, conn) && !Erases(s, e, fd))
  {
  }

  lemma {:induction false} FiledIffNotErased(n: nat, open: set<int>, events: seq<Event>, t: nat, fd: int, conn: nat)
    requires Reach(n, open, events).Some? && t < n
    requires t < |Reach(n, open, events).value.receivers| && Serves(Reach(n, open, events).value.receivers[t], fd, conn)
    ensures Filed(Reach(n, open, events).value, fd, conn) <==> !ErasedSinceGet(n, open, events, t, fd)
  {
    if events != [] {
      var prefix, last := events[..|events| - 1], events[|events| - 1];
      ReachNumbered(n, open, prefix);
      FiledAfter(Reach(n, open, prefix).value, last, t, fd, conn);
      if !(last.GetConnection? && last.t == t) { FiledIffNotErased(n, open, prefix, t, fd, conn); }
    }
  }

  /** On every run, for any number of receiving threads: a removal erases the very connection that was closed
      if and only if, since the receiver got it, neither the accepting thread nor another removal has erased
      the entry of that descriptor. */
  lemma RemovalErasesClosedIff(n: nat, open: set<int>, events: seq<Event>, t: nat)
    requires Reach(n, open, events).Some? && t < n && CanHappen(Reach(n, open, events).value, Remove(t))
    ensures var s := Reach(n, open, events).value;
            var Closed(fd, conn) := s.receivers[t];
            After(s, Remove(t)).receivers[t] == Removed(fd, conn, conn) <==> !ErasedSinceGet(n, open, events, t, fd)
  {
    var s := Reach(n, open, events).value;
    FiledIffNotErased(n, open, events, t, s.receivers[t].fd, s.receivers[t].conn);
  }

  // ---------- One receiver ----------

  /** With one receiving thread, as the server is built, every run keeps the invariant. */
  lemma {:induction false} OneReceiverInv(open: set<int>, events: seq<Event>)
    requires Reach(1, open, events).Some?
    ensures Inv(Reach(1, open, events).value) && |Reach(1, open, events).value.receivers| == 1
  {
    if events != [] {
      var prefix := events[..|events| - 1];
      OneReceiverInv(open, prefix);
      StepInv(Reach(1, open, prefix).value, events[|events| - 1]);
    }
  }

  /** Since the last ReadClosed, the accepting thread has passed its stale-entry check for fd. */
  ghost predicate PurgedSinceClose(open: set<int>, events: seq<Event>, fd: int)
    requires Reach(1, open, events).Some?
  {
    && events != []
    && var prefix, last := events[..|events| - 1], events[|events| - 1];
       && last != ReadClosed(0)
       && ((last == Purge && Reach(1, open, prefix).value.acceptor == Got(fd)) || PurgedSinceClose(open, prefix, fd))
  }

  lemma CloseLeavesFiled(s: State)
    requires Inv(s) && |s.receivers| == 1 && CanHappen(s, ReadClosed(0))
    ensures Filed(After(s, ReadClosed(0)), s.receivers[0].fd, s.receivers[0].conn)
  {
    assert ReceiverOk(s, s.receivers[0]);
  }

  lemma {:induction false} OneReceiverFiledIff(open: set<int>, events: seq<Event>)
    requires Reach(1, open, events).Some? && Reach(1, open, events).value.receivers != []
    requires Reach(1, open, events).value.receivers[0].Closed?
    ensures var s := Reach(1, open, events).value;
            var Closed(fd, conn) := s.receivers[0];
            Filed(s, fd, conn) <==> !PurgedSinceClose(open, events, fd)
  {
    if events != [] {
      var prefix, last := events[..|events| - 1], events[|events| - 1];
      var s, s' := Reach(1, open, prefix).value, Reach(1, open, events).value;
      OneReceiverInv(open, prefix);
      if last == ReadClosed(0) {
        CloseLeavesFiled(s);
      } else {
        ReachNumbered(1, open, prefix);
        FiledAfter(s, last, 0, s'.receivers[0].fd, s'.receivers[0].conn);
        OneReceiverFiledIff(open, prefix);
      }
    }
  }

  /** With one receiving thread, on every run: the removal erases the connection that was closed if and only if
      the accepting thread has not passed its stale-entry check for that descriptor since the close. */
  lemma OneReceiverRemovalIff(open: set<int>, events: seq<Event>)
    requires Reach(1, open, events).Some? && CanHappen(Reach(1, open, events).value, Remove(0))
    ensures var s := Reach(1, open, events).value;
            var Closed(fd, conn) := s.receivers[0];
            After(s, Remove(0)).receivers[0] == Removed(fd, conn, conn) <==> !PurgedSinceClose(open, events, fd)
  {
    OneReceiverFiledIff(open, events);
  }

  // ---------- When a removal throws ----------

  /** The event files a connection under fd. */
  ghost predicate Files(s: State, e: Event, fd: int) {
    e == Handshake(true) && s.acceptor == Purged(fd)
  }

  /** Nothing has been filed under fd since the last event that erased its entry. */
  ghost predicate NotRefiled(n: nat, open: set<int>, events: seq<Event>, fd: int)
    requires Reach(n, open, events).Some?
  {
    events == [] ||
    var prefix, last := events[..|events| - 1], events[|events| - 1];
    var s := Reach(n, open, prefix).value;
    !Files(s, last, fd) && (Erases(s, last, fd) || NotRefiled(n, open, prefix, fd))
  }

  lemma {:induction false} MissingIffNotRefiled(n: nat, open: set<int>, events: seq<Event>, fd: int)
    requires Reach(n, open, events).Some?
    ensures fd !in Reach(n, open, events).value.table <==> NotRefiled(n, open, events, fd)
  {
    if events != [] { MissingIffNotRefiled(n, open, events[..|events| - 1], fd); }
  }

  /** On every run, for any number of receiving threads: a removal throws NOT_FOUND, and so ends the server,
      if and only if the entry of its descriptor has been erased since the receiver got the connection and
      none has been filed under that descriptor since. */
  lemma RemovalThrowsIff(n: nat, open: set<int>, events: seq<Event>, t: nat)
    requires Reach(n, open, events).Some? && t < n && CanHappen(Reach(n, open, events).value, Remove(t))
    ensures var s := Reach(n, open, events).value;
            var Closed(fd, conn) := s.receivers[t];
            After(s, Remove(t)).receivers[t] == Failed(fd, conn)
            <==> ErasedSinceGet(n, open, events, t, fd) && NotRefiled(n, open, events, fd)
  {
    var s := Reach(n, open, events).value;
    FiledIffNotErased(n, open, events, t, s.receivers[t].fd, s.receivers[t].conn);
    MissingIffNotRefiled(n, open, events, s.receivers[t].fd);
  }

  /** With one receiving thread: if and only if the accepting thread has passed its stale-entry check for the
      descriptor since the close, and has not filed the new connection yet. */
  lemma OneReceiverThrowsIff(open: set<int>, events: seq<Event>)
    requires Reach(1, open, events).Some? && CanHappen(Reach(1, open, events).value, Remove(0))
    ensures var s := Reach(1, open, events).value;
            var Closed(fd, conn) := s.receivers[0];
            After(s, Remove(0)).receivers[0] == Failed(fd, conn)
            <==> PurgedSinceClose(open, events, fd) && NotRefiled(1, open, events, fd)
  {
    OneReceiverFiledIff(open, events);
    MissingIffNotRefiled(1, open, events, Reach(1, open, events).value.receivers[0].fd);
  }

  // ---------- Nothing leaks ----------

  /** fd is open because the accepting thread has it or because the connection filed under it owns it. */
  ghost predicate InUse(s: State, fd: int) {
    || (s.acceptor != Waiting && s.acceptor.fd == fd)
    || (fd in s.table && s.table[fd] in s.fdOf && s.fdOf[s.table[fd]] == fd)
  }

  /** The descriptors open besides those in use are the ones open from the start, and a connection that owns
      a descriptor is filed under it. */
  ghost predicate Exact(s: State, open: set<int>) {
    && (forall fd :: fd in s.open <==> fd in open || InUse(s, fd))
    && (forall fd :: fd in open ==> !InUse(s, fd))
    && (forall conn :: conn in s.fdOf && s.fdOf[conn] != -1 ==> Filed(s, s.fdOf[conn], conn))
    && (s.acceptor != Waiting ==> s.acceptor.fd >= 0 && forall conn :: conn in s.fdOf ==> s.fdOf[conn] != s.acceptor.fd)
    && (forall fd :: fd in s.table ==> && fd >= 0 && s.table[fd] in s.fdOf
                                       && (s.fdOf[s.table[fd]] == fd || s.fdOf[s.table[fd]] == -1))
    && (forall conn :: conn in s.fdOf ==> conn < s.next)
    && (forall t :: 0 <= t < |s.receivers| && s.receivers[t].Reading? ==> s.receivers[t].conn in s.fdOf)
  }

  lemma AcceptExact(s: State, e: Event, open: set<int>)
    requires Exact(s, open) && Numbered(s) && CanHappen(s, e) && (e.AcceptFd? || e.Handshake?)
    ensures Exact(After(s, e), open)
  {
  }

  lemma PurgeExact(s: State, open: set<int>)
    requires Exact(s, open) && Numbered(s) && CanHappen(s, Purge) && -1 !in open
    ensures Exact(After(s, Purge), open)
  {
  }

  lemma CloseExact(s: State, t: nat, open: set<int>)
    requires Exact(s, open) && Numbered(s) && CanHappen(s, ReadClosed(t)) && -1 !in open
    ensures Exact(After(s, ReadClosed(t)), open)
  {
  }

  lemma RemoveExact(s: State, t: nat, open: set<int>)
    requires Exact(s, open) && Numbered(s) && CanHappen(s, Remove(t)) && -1 !in open
    ensures Exact(After(s, Remove(t)), open)
  {
  }

  lemma ReceiveExact(s: State, e: Event, open: set<int>)
    requires Exact(s, open) && CanHappen(s, e) && (e.GetConnection? || e.ReadOn? || e.Return?)
    ensures Exact(After(s, e), open)
  {
  }

  /** On every run, with any number of receivers and any reissue of descriptors: the open descriptors are
      exactly those open from the start, the one being accepted, and those of connections in the table. */
  lemma {:induction false} NothingLeaks(n: nat, open: set<int>, events: seq<Event>)
    requires Reach(n, open, events).Some? && -1 !in open
    ensures Exact(Reach(n, open, events).value, open)
  {
    if events != [] {
      var prefix, last := events[..|events| - 1], events[|events| - 1];
      NothingLeaks(n, open, prefix);
      ReachNumbered(n, open, prefix);
      var s := Reach(n, open, prefix).value;
      match last {
        case AcceptFd(_) => AcceptExact(s, last, open);
        case Handshake(_) => AcceptExact(s, last, open);
        case Purge => PurgeExact(s, open);
        case ReadClosed(t) => CloseExact(s, t, open);
        case Remove(t) => RemoveExact(s, t, open);
        case _ => ReceiveExact(s, last, open);
      }
    }
  }

  // ---------- The condition is needed ----------

  lemma Extend(n: nat, open: set<int>, events: seq<Event>, s: State, e: Event)
    returns (longer: seq<Event>, s': State)
    requires Reach(n, open, events) == Some(s) && CanHappen(s, e)
    ensures longer == events + [e] && s' == After(s, e) && Reach(n, open, longer) == Some(s')
  {
    longer, s' := events + [e], After(s, e);
    assert longer[..|longer| - 1] == events;
  }

  lemma Accepted() returns (events: seq<Event>, s: State)
    ensures s == State({5}, map[], map[], 0, Got(5), [Idle])
    ensures Reach(1, {}, events) == Some(s)
  {
    s := Init(1, {});
    assert s == State({}, map[], map[], 0, Waiting, [Idle]);
    events, s := Extend(1, {}, [], s, AcceptFd(5));
  }

  lemma Connected() returns (events: seq<Event>, s: State)
    ensures s == State({5}, map[5 := 0], map[0 := 5], 1, Waiting, [Idle])
    ensures Reach(1, {}, events) == Some(s)
  {
    events, s := Accepted();
    events, s := Extend(1, {}, events, s, Purge);
    assert s == State({5}, map[], map[], 0, Purged(5), [Idle]);
    events, s := Extend(1, {}, events, s, Handshake(true));
  }

  lemma ClosedByPeer() returns (events: seq<Event>, s: State)
    ensures s == State({}, map[5 := 0], map[0 := -1], 1, Waiting, [Closed(5, 0)])
    ensures Reach(1, {}, events) == Some(s)
  {
    events, s := Connected();
    events, s := Extend(1, {}, events, s, GetConnection(0, 5));
    assert s == State({5}, map[5 := 0], map[0 := 5], 1, Waiting, [Reading(5, 0)]);
    events, s := Extend(1, {}, events, s, ReadClosed(0));
  }

  lemma ReissuedBeforeRemoval() returns (events: seq<Event>, s: State)
    ensures s == State({5}, map[], map[0 := -1], 1, Purged(5), [Closed(5, 0)])
    ensures Reach(1, {}, events) == Some(s)
  {
    events, s := ClosedByPeer();
    events, s := Extend(1, {}, events, s, AcceptFd(5));
    assert s == State({5}, map[5 := 0], map[0 := -1], 1, Got(5), [Closed(5, 0)]);
    events, s := Extend(1, {}, events, s, Purge);
  }

  /** Connection 0 is closed, descriptor 5 is reissued to connection 1, and then the removal meant for
      connection 0 erases connection 1 and closes its descriptor. */
  lemma LateRemovalErasesNewcomer() returns (events: seq<Event>, s: State)
    ensures Reach(1, {}, events) == Some(s)
    ensures s.receivers == [Removed(5, 0, 1)] && 5 !in s.open && 5 !in s.table
  {
    events, s := ReissuedBeforeRemoval();
    events, s := Extend(1, {}, events, s, Handshake(true));
    assert s == State({5}, map[5 := 1], map[0 := -1, 1 := 5], 2, Waiting, [Closed(5, 0)]);
    events, s := Extend(1, {}, events, s, Remove(0));
  }

  /** If the removal comes before the new connection is filed, it finds no entry and ends the server. */
  lemma EarlierRemovalEndsServer() returns (events: seq<Event>, s: State)
    ensures Reach(1, {}, events) == Some(s)
    ensures s.receivers == [Failed(5, 0)] && forall e :: !CanHappen(s, e)
  {
    events, s := ReissuedBeforeRemoval();
    events, s := Extend(1, {}, events, s, Remove(0));
    assert s.receivers[0].Failed?;
  }
}
