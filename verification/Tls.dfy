/** Ownership of socket descriptors and SSL handles in the TLS connection table (tls_config.cpp), call by
    call, and over every run of calls that do not overlap. */
module Tls {

  /** The resources that the operating system and the SSL library have handed out. `misuse` counts releases
      of something that is not held. */
  datatype Resources = Resources(open: set<int>, live: set<nat>, next: nat, misuse: nat)

  function ReleaseFd(os: Resources, fd: int): Resources {
    if fd in os.open then os.(open := os.open - {fd}) else os.(misuse := os.misuse + 1)
  }

  function FreeSsl(os: Resources, h: nat): Resources {
    if h in os.live then os.(live := os.live - {h}) else os.(misuse := os.misuse + 1)
  }

  /** A second release of the same thing is counted, whatever comes in between, unless it was handed out anew. */
  lemma SecondReleaseCounts(os: Resources, os': Resources, fd: int, h: nat)
    ensures os'.open <= ReleaseFd(os, fd).open && os'.misuse >= ReleaseFd(os, fd).misuse ==>
              ReleaseFd(os', fd).misuse > os.misuse
    ensures os'.live <= FreeSsl(os, h).live && os'.misuse >= FreeSsl(os, h).misuse ==>
              FreeSsl(os', h).misuse > os.misuse
    ensures ReleaseFd(os, fd).live == os.live && FreeSsl(os, h).open == os.open
  {
  }

  /** The fields of an IncomeSSLConnection; -1 and 0 (nullptr) when it owns nothing. */
  datatype Conn = Conn(fd: int, ssl: nat)

  const NOTHING := Conn(-1, 0)

  /** IncomeSSLConnection::close, also its destructor. */
  function Close(os: Resources, c: Conn): Resources {
    var os1 := if c.ssl != 0 then FreeSsl(os, c.ssl) else os;
    if c.fd != -1 then ReleaseFd(os1, c.fd) else os1
  }

  /** `foreign` are the open descriptors that the table does not own: those of other parts of the server,
      and those accepted before init. */
  datatype Server = Server(os: Resources, ctx: bool, table: map<int, Conn>, foreign: set<int>)

  function Erase(s: Server, fd: int): Server
    requires fd in s.table
  {
    s.(os := Close(s.os, s.table[fd]), table := s.table - {fd})
  }

  /** addConnection; `accepted` is whether SSL_accept succeeds. */
  function AddConnection(s: Server, fd: int, accepted: bool): (Server, int) {
    if !s.ctx then (s.(foreign := s.foreign + {fd}), -1)
    else
      var s1 := if fd in s.table then Erase(s, fd) else s;
      var cli := s1.os.next;
      var os := s1.os.(live := s1.os.live + {cli}, next := cli + 1);
      if !accepted then (s1.(os := ReleaseFd(FreeSsl(os, cli), fd)), -2)
      else (s1.(os := os, table := s1.table[fd := Conn(fd, cli)]), 0)
  }

  /** The first result of SSL_read that is not positive. */
  function LastRead(results: seq<int>): (r: int)
    requires exists i :: 0 <= i < |results| && results[i] <= 0
    ensures r <= 0
  {
    if results[0] <= 0 then results[0]
    else
      assert exists i :: 0 <= i < |results[1..]| && results[1..][i] <= 0 by {
        var i :| 0 <= i < |results| && results[i] <= 0;
        assert results[1..][i - 1] == results[i];
      }
      LastRead(results[1..])
  }

  lemma {:induction false} LastReadAt(results: seq<int>, i: nat)
    requires i < |results| && results[i] <= 0 && forall j :: 0 <= j < i ==> results[j] > 0
    ensures LastRead(results) == results[i]
  {
    if i > 0 { LastReadAt(results[1..], i - 1); }
  }

  /** ecall_tls_recv: read until the connection is closed, and then remove it, or until an error. */
  function Receive(s: Server, fd: int, results: seq<int>): (Server, int)
    requires exists i :: 0 <= i < |results| && results[i] <= 0
  {
    if fd !in s.table then (s, -1)
    else if LastRead(results) == 0 then (Erase(s, fd), -2)
    else (s, -4)
  }

  ghost predicate Within(order: seq<int>, keys: set<int>) {
    forall i :: 0 <= i < |order| ==> order[i] in keys
  }

  ghost predicate Enumerates(order: seq<int>, keys: set<int>) {
    && Within(order, keys)
    && (forall fd :: fd in keys ==> fd in order)
    && forall i, j :: 0 <= i < j < |order| ==> order[i] != order[j]
  }

  /** The loop of finish, over the table in some order. */
  ghost function CloseEach(os: Resources, table: map<int, Conn>, order: seq<int>): Resources
    requires Within(order, table.Keys)
    decreases |order|
  {
    if order == [] then os else CloseEach(Close(os, table[order[0]]), table, order[1..])
  }

  ghost function Finish(s: Server, order: seq<int>): Server
    requires Within(order, s.table.Keys)
  {
    s.(os := CloseEach(s.os, s.table, order), table := map[])
  }

  // ---------- Ownership ----------

  ghost predicate HasHolder(table: map<int, Conn>, h: nat) {
    exists fd :: fd in table && table[fd].ssl == h
  }

  /** Each table entry is an open connection filed under its own descriptor; each open descriptor and each
      live handle has exactly one owner; nothing has been released twice. */
  ghost predicate Owned(s: Server) {
    && s.os.misuse == 0 && 0 < s.os.next
    && (forall fd :: fd in s.table ==> s.table[fd].fd == fd && fd != -1 && s.table[fd].ssl != 0)
    && (forall a, b :: a in s.table && b in s.table && a != b ==> s.table[a].ssl != s.table[b].ssl)
    && s.os.open == s.table.Keys + s.foreign && s.table.Keys !! s.foreign
    && (forall h :: h in s.os.live <==> HasHolder(s.table, h))
    && (forall h :: h in s.os.live ==> h < s.os.next)
  }

  lemma EraseOwned(s: Server, fd: int)
    requires Owned(s) && fd in s.table
    ensures Owned(Erase(s, fd))
    ensures Erase(s, fd).os.open == s.os.open - {fd} && Erase(s, fd).os.live == s.os.live - {s.table[fd].ssl}
  {
    var s', ssl := Erase(s, fd), s.table[fd].ssl;
    assert HasHolder(s.table, ssl);
    forall h ensures h in s'.os.live <==> HasHolder(s'.table, h) {
      if x :| x in s.table && s.table[x].ssl == h && x != fd { assert s'.table[x].ssl == h; }
    }
  }

  /** The operating system hands out a descriptor that is not open, and the server takes it. */
  function Accepted(s: Server, fd: int): Server {
    s.(os := s.os.(open := s.os.open + {fd}))
  }

  lemma AcceptOwned(s: Server, fd: int, accepted: bool)
    requires Owned(s) && fd >= 0 && fd !in s.os.open
    ensures var (s', r) := AddConnection(Accepted(s, fd), fd, accepted);
            && Owned(s') && fd !in s.table
            && (r == 0 <==> s.ctx && accepted) && (r == 0 <==> fd in s'.table)
            && (r == -2 <==> s.ctx && !accepted) && (r == -2 ==> s'.os.open == s.os.open && s'.os.live == s.os.live)
  {
    var (s', r) := AddConnection(Accepted(s, fd), fd, accepted);
    forall h ensures h in s'.os.live <==> HasHolder(s'.table, h) {
      if x :| x in s.table && s.table[x].ssl == h { assert s'.table[x].ssl == h; }
      if r == 0 { assert s'.table[fd].ssl == s.os.next; }
    }
  }

  /** The part of the table that a loop still has to close. */
  ghost predicate Closable(os: Resources, table: map<int, Conn>, order: seq<int>) {
    && Within(order, table.Keys)
    && (forall i :: 0 <= i < |order| ==>
          var c := table[order[i]]; c.fd == order[i] && c.fd != -1 && c.fd in os.open && c.ssl != 0 && c.ssl in os.live)
    && (forall i, j :: 0 <= i < j < |order| ==> order[i] != order[j] && table[order[i]].ssl != table[order[j]].ssl)
  }

  lemma CloseFirst(os: Resources, table: map<int, Conn>, order: seq<int>)
    requires order != [] && Closable(os, table, order)
    ensures var c, os1 := table[order[0]], Close(os, table[order[0]]);
            os1 == os.(open := os.open - {c.fd}, live := os.live - {c.ssl}) && Closable(os1, table, order[1..])
  {
  }

  /** Each connection is closed once: afterwards exactly the others' resources are held. */
  lemma {:induction false} CloseEachReleasesAll(os: Resources, table: map<int, Conn>, order: seq<int>)
    requires Closable(os, table, order)
    ensures var os' := CloseEach(os, table, order);
            && os'.misuse == os.misuse && os'.next == os.next
            && (forall fd :: fd in os'.open <==> fd in os.open && forall i :: 0 <= i < |order| ==> order[i] != fd)
            && (forall h :: h in os'.live <==>
                              h in os.live && forall i :: 0 <= i < |order| ==> table[order[i]].ssl != h)
    decreases |order|
  {
    if order != [] {
      CloseFirst(os, table, order);
      CloseEachReleasesAll(Close(os, table[order[0]]), table, order[1..]);
      assert forall i :: 0 < i < |order| ==> order[i] == order[1..][i - 1];
    }
  }

  lemma WholeTableClosable(s: Server, order: seq<int>)
    requires Owned(s) && Enumerates(order, s.table.Keys)
    ensures Closable(s.os, s.table, order)
  {
    forall fd | fd in s.table ensures s.table[fd].ssl in s.os.live { assert HasHolder(s.table, s.table[fd].ssl); }
  }

  /** finish releases every connection once and nothing else. */
  lemma FinishOwned(s: Server, order: seq<int>)
    requires Owned(s) && Enumerates(order, s.table.Keys)
    ensures var s' := Finish(s, order);
            Owned(s') && s'.os.open == s.foreign && s'.os.live == {}
  {
    WholeTableClosable(s, order);
    CloseEachReleasesAll(s.os, s.table, order);
    var s' := Finish(s, order);
    forall h | h in s.os.live ensures h !in s'.os.live {
      var fd :| fd in s.table && s.table[fd].ssl == h;
      var i :| 0 <= i < |order| && order[i] == fd;
      assert s.table[order[i]].ssl == h;
    }
    forall fd | fd in s.table ensures fd !in s'.os.open {
      var i :| 0 <= i < |order| && order[i] == fd;
    }
    forall fd ensures fd in s'.os.open <==> fd in s.foreign {
      if fd in s.foreign { assert forall i :: 0 <= i < |order| ==> order[i] in s.table.Keys; }
    }
  }

  // ---------- What each call does ----------

  /** Everything but the entry of fd is as it was. */
  ghost predicate OthersKept(s: Server, s': Server, fd: int) {
    && s'.ctx == s.ctx && s'.foreign == s.foreign
    && (forall x :: x != fd ==> (x in s'.table <==> x in s.table) && (x in s.table ==> s'.table[x] == s.table[x]))
  }

  /** A receive call is decided by the first result that is not positive: after 0, the end of the stream, the
      connection is closed and its entry leaves the table; after an error it stays as it is. */
  lemma ReceiveIff(s: Server, fd: int, results: seq<int>, i: nat)
    requires Owned(s) && i < |results| && results[i] <= 0 && forall j :: 0 <= j < i ==> results[j] > 0
    ensures var (s', r) := Receive(s, fd, results);
            && (r == -1 <==> fd !in s.table)
            && (r == -2 <==> fd in s.table && results[i] == 0)
            && (r == -4 <==> fd in s.table && results[i] < 0)
            && (fd in s'.table <==> fd in s.table && results[i] != 0) && OthersKept(s, s', fd)
            && (r != -2 ==> s' == s)
            && (r == -2 ==> s'.os.open == s.os.open - {fd} && s'.os.live == s.os.live - {s.table[fd].ssl})
  {
    LastReadAt(results, i);
    if fd in s.table { EraseOwned(s, fd); }
  }

  /** An accepted connection gets a new handle and its own entry; one whose handshake fails, or that comes
      before the context is set up, leaves the table as it was. */
  lemma AcceptIff(s: Server, fd: int, accepted: bool)
    requires Owned(s) && fd >= 0 && fd !in s.os.open
    ensures var (s', r) := AddConnection(Accepted(s, fd), fd, accepted);
            && (r == -1 <==> !s.ctx) && (r == -2 <==> s.ctx && !accepted) && (r == 0 <==> s.ctx && accepted)
            && (r == 0 ==> s'.table == s.table[fd := Conn(fd, s.os.next)] && s.os.next !in s.os.live
                           && s'.os.open == s.os.open + {fd} && s'.os.live == s.os.live + {s.os.next})
            && (r == -1 ==> s'.table == s.table && s'.os.open == s.os.open + {fd} && s'.os.live == s.os.live)
            && (r == -2 ==> s'.table == s.table && s'.os.open == s.os.open && s'.os.live == s.os.live)
  {
  }

  /** A stale entry, of a connection already closed, is replaced without releasing anything twice. */
  lemma StaleEntryReplaced(s: Server, fd: int, accepted: bool)
    requires s.ctx && fd in s.table && s.table[fd] == NOTHING && fd in s.os.open && s.os.next !in s.os.live
    ensures var (s', r) := AddConnection(s, fd, accepted);
            && s'.os.misuse == s.os.misuse && r == (if accepted then 0 else -2)
            && (accepted ==> && s'.table == s.table[fd := Conn(fd, s.os.next)]
                             && s'.os.open == s.os.open && s'.os.live == s.os.live + {s.os.next})
            && (!accepted ==> && s'.table == s.table - {fd}
                              && s'.os.open == s.os.open - {fd} && s'.os.live == s.os.live)
  {
    var (s', r) := AddConnection(s, fd, accepted);
    if accepted { assert s'.table == s.table[fd := Conn(fd, s.os.next)]; }
  }

  /** That the system never hands out an open descriptor is needed: given one that the table still owns, a
      failed handshake closes it twice. */
  lemma ReissuedOpenDescriptorMisused(s: Server, fd: int)
    requires Owned(s) && s.ctx && fd in s.table
    ensures AddConnection(s, fd, false).0.os.misuse == 1
  {
    EraseOwned(s, fd);
  }

  // ---------- Runs ----------

  datatype Call =
    | Init                                  // ecall_init: the SSL context exists from now on
    | Accept(fd: int, accepted: bool)       // accept(2), then addConnection
    | Recv(fd: int, results: seq<int>)        // ecall_tls_recv
    | Stop(order: seq<int>)                 // finish

  /** What the operating system and the SSL library can do: descriptors handed out are not open, and a
      receive call ends. */
  ghost predicate Possible(s: Server, c: Call) {
    match c
    case Init => true
    case Accept(fd, _) => fd >= 0 && fd !in s.os.open
    case Recv(_, results) => exists i :: 0 <= i < |results| && results[i] <= 0
    case Stop(order) => Enumerates(order, s.table.Keys)
  }

  ghost function Step(s: Server, c: Call): Server
    requires Possible(s, c)
  {
    match c
    case Init => s.(ctx := true)
    case Accept(fd, accepted) => AddConnection(Accepted(s, fd), fd, accepted).0
    case Recv(fd, results) => Receive(s, fd, results).0
    case Stop(order) => Finish(s, order)
  }

  function Boot(foreign: set<int>): Server {
    Server(Resources(foreign, {}, 1, 0), false, map[], foreign)
  }

  ghost predicate Run(foreign: set<int>, calls: seq<Call>, states: seq<Server>) {
    && |states| == |calls| + 1 && states[0] == Boot(foreign)
    && forall i :: 0 <= i < |calls| ==> Possible(states[i], calls[i]) && states[i + 1] == Step(states[i], calls[i])
  }

  lemma StepOwned(s: Server, c: Call)
    requires Owned(s) && Possible(s, c)
    ensures Owned(Step(s, c))
  {
    match c {
      case Init =>
      case Accept(fd, accepted) => AcceptOwned(s, fd, accepted);
      case Recv(fd, results) => if fd in s.table { EraseOwned(s, fd); }
      case Stop(order) => FinishOwned(s, order);
    }
  }

  /** A server serves connections from its first initialization on: no other call sets or clears the context. */
  lemma {:induction false} ContextIff(foreign: set<int>, calls: seq<Call>, states: seq<Server>, i: nat)
    requires Run(foreign, calls, states) && i < |states|
    ensures states[i].ctx <==> exists j :: 0 <= j < i && calls[j].Init?
  {
    if i > 0 {
      ContextIff(foreign, calls, states, i - 1);
      if calls[i - 1].Init? { assert states[i].ctx; }
    }
  }

  /** On every run of calls that do not overlap, ownership holds throughout, and addConnection never finds a
      stale entry. */
  lemma {:induction false} OwnedThroughout(foreign: set<int>, calls: seq<Call>, states: seq<Server>, i: nat)
    requires Run(foreign, calls, states) && i < |states|
    ensures Owned(states[i])
    ensures i < |calls| && calls[i].Accept? ==> calls[i].fd !in states[i].table
  {
    if i == 0 {
      assert Owned(Boot(foreign));
    } else {
      OwnedThroughout(foreign, calls, states, i - 1);
      StepOwned(states[i - 1], calls[i - 1]);
    }
  }
}
