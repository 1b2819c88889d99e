/** The classes of tls_config.cpp: connections that own a descriptor and a handle, moved from one object to
    another, and the static table of them. */
module TlsTable {
  import opened Tls

  /** The operating system and the SSL library. */
  class System {
    var os: Resources

    constructor (foreign: set<int>)
      ensures os == Resources(foreign, {}, 1, 0)
    {
      os := Resources(foreign, {}, 1, 0);
    }

    method CloseFd(fd: int)
      modifies this
      ensures os == ReleaseFd(old(os), fd)
    {
      os := ReleaseFd(os, fd);
    }

    method SslFree(h: nat)
      modifies this
      ensures os == FreeSsl(old(os), h)
    {
      os := FreeSsl(os, h);
    }

    method SslNew() returns (h: nat)
      modifies this
      ensures h == old(os).next && os == old(os).(live := old(os).live + {h}, next := h + 1)
    {
      h := os.next;
      os := os.(live := os.live + {h}, next := h + 1);
    }
  }

  class Connection {
    var fd: int
    var ssl: nat

    ghost function Value(): Conn
      reads this
    {
      Conn(fd, ssl)
    }

    constructor (fd: int, ssl: nat)
      ensures Value() == Conn(fd, ssl)
    {
      this.fd, this.ssl := fd, ssl;
    }

    /** The move constructor: what c owned has one owner still, and it is the new object. */
    constructor Move(c: Connection)
      modifies c
      ensures Value() == old(c.Value()) && c.Value() == NOTHING
    {
      fd, ssl := c.fd, c.ssl;
      new;
      c.fd, c.ssl := -1, 0;
    }

    method Close(sys: System)
      modifies this, sys
      ensures sys.os == Tls.Close(old(sys.os), old(Value())) && Value() == NOTHING
    {
      if ssl != 0 {
        sys.SslFree(ssl);
        ssl := 0;
      }
      if fd != -1 {
        sys.CloseFd(fd);
        fd := -1;
      }
    }

    /** Move assignment: what this object owned is released, what c owned is taken over. Assigning an object
        to itself leaves it owning nothing, with its resources released once. */
    method MoveAssign(c: Connection, sys: System)
      modifies this, c, sys
      ensures sys.os == Tls.Close(old(sys.os), old(Value())) && c.Value() == NOTHING
      ensures c != this ==> Value() == old(c.Value())
    {
      Close(sys);
      fd, ssl := c.fd, c.ssl;
      c.fd, c.ssl := -1, 0;
    }
  }

  /** A new connection passes through a temporary and a pair before it reaches its table node; the emptied
      temporaries release nothing when they are destroyed. */
  method MakeNode(fd: int, cli: nat, sys: System) returns (node: Connection)
    modifies sys
    ensures fresh(node) && node.Value() == Conn(fd, cli) && sys.os == old(sys.os)
  {
    var temporary := new Connection(fd, cli);
    var pair := new Connection.Move(temporary);
    node := new Connection.Move(pair);
    pair.Close(sys);
    temporary.Close(sys);
  }

  class ConnectionTable {
    const sys: System
    var ctx: bool
    var table: map<int, Connection>
    ghost var foreign: set<int>

    ghost predicate Valid()
      reads this
    {
      forall a, b :: a in table && b in table && a != b ==> table[a] != table[b]
    }

    ghost function View(): Server
      reads this, sys, table.Values
    {
      Server(sys.os, ctx, map fd | fd in table :: table[fd].Value(), foreign)
    }

    constructor (foreign: set<int>)
      ensures Valid() && View() == Boot(foreign)
      ensures fresh(sys)
    {
      sys := new System(foreign);
      ctx, table, this.foreign := false, map[], foreign;
    }

    /** `recv` closes the connection in place, in its table entry. */
    method CloseEntry(fd: int)
      requires Valid() && fd in table
      modifies sys, table.Values
      ensures View() == old(View()).(os := Tls.Close(old(sys.os), old(table[fd].Value())),
                                     table := old(View()).table[fd := NOTHING])
    {
      var c := table[fd];
      c.Close(sys);
      assert View().table == old(View()).table[fd := NOTHING] by {
        forall x | x in table && x != fd ensures table[x] != c && View().table[x] == old(View()).table[x] { }
      }
    }

    /** The destructor of an erased entry closes it. */
    method Erase(fd: int)
      requires Valid() && fd in table
      modifies this`table, sys, table.Values
      ensures Valid() && View() == Tls.Erase(old(View()), fd)
      ensures table == old(table) - {fd}
    {
      CloseEntry(fd);
      ghost var closed := View().table;
      table := table - {fd};
      assert View().table == closed - {fd};
    }

    method RemoveConnection(fd: int) returns (found: bool)
      requires Valid()
      modifies this`table, sys, table.Values
      ensures Valid() && found == (fd in old(table))
      ensures View() == if found then Tls.Erase(old(View()), fd) else old(View())
    {
      found := fd in table;
      if found { Erase(fd); }
    }

    method Insert(fd: int, cli: nat)
      requires Valid() && fd !in table
      modifies this`table, sys
      ensures Valid() && View() == old(View()).(table := old(View()).table[fd := Conn(fd, cli)])
      ensures fresh(table.Values - old(table.Values))
    {
      var node := MakeNode(fd, cli, sys);
      ghost var before := View();
      table := table[fd := node];
      assert View().table == before.table[fd := Conn(fd, cli)];
    }

    method AddConnection(fd: int, accepted: bool) returns (r: int)
      requires Valid()
      modifies this, sys, table.Values
      ensures Valid() && (View(), r) == Tls.AddConnection(old(View()), fd, accepted)
    {
      if !ctx {
        foreign := foreign + {fd};
        assert View().table == old(View()).table;
        return -1;
      }
      if fd in table { Erase(fd); }
      ghost var entries := View().table;
      var cli := sys.SslNew();
      if !accepted {
        sys.SslFree(cli);
        sys.CloseFd(fd);
        assert View().table == entries;
        return -2;
      }
      assert View().table == entries;
      Insert(fd, cli);
      r := 0;
    }

    /** ecall_tls_recv. */
    method Receive(fd: int, results: seq<int>) returns (r: int)
      requires Valid() && exists i :: 0 <= i < |results| && results[i] <= 0
      modifies this`table, sys, table.Values
      ensures Valid() && (View(), r) == Tls.Receive(old(View()), fd, results)
    {
      if fd !in table { return -1; }
      var read := ReadUntilEnd(results);
      if read < 0 { return -4; }
      CloseEntry(fd);
      Erase(fd);
      assert View().table == old(View()).table - {fd};
      r := -2;
    }

    /** finish: close every entry in place, in the order in which the map is walked, then clear the table;
        the destructors find nothing left. */
    method Finish(order: seq<int>)
      requires Valid() && Enumerates(order, table.Keys)
      modifies this`table, sys, table.Values
      ensures Valid() && View() == Tls.Finish(old(View()), order)
    {
      ghost var entries := View().table;
      for i := 0 to |order|
        invariant table == old(table) && Within(order[..i], entries.Keys)
        invariant sys.os == CloseEach(old(sys.os), entries, order[..i])
        invariant forall j :: i <= j < |order| ==> table[order[j]].Value() == entries[order[j]]
      {
        CloseEachAppend(old(sys.os), entries, order[..i], order[i]);
        assert order[..i + 1] == order[..i] + [order[i]];
        table[order[i]].Close(sys);
      }
      assert order[..|order|] == order;
      table := map[];
      assert View().table == map[];
    }
  }

  lemma {:induction false} CloseEachAppend(os: Resources, entries: map<int, Conn>, order: seq<int>, fd: int)
    requires Within(order, entries.Keys) && fd in entries
    ensures Within(order + [fd], entries.Keys)
    ensures CloseEach(os, entries, order + [fd]) == Tls.Close(CloseEach(os, entries, order), entries[fd])
    decreases |order|
  {
    if order == [] {
      assert [] + [fd] == [fd] && [fd][1..] == [];
    } else {
      CloseEachAppend(Tls.Close(os, entries[order[0]]), entries, order[1..], fd);
      assert (order + [fd])[1..] == order[1..] + [fd];
    }
  }

  /** The receive loop: it goes on as long as data arrives. */
  method ReadUntilEnd(results: seq<int>) returns (read: int)
    requires exists i :: 0 <= i < |results| && results[i] <= 0
    ensures read == LastRead(results)
  {
    var i := 0;
    while results[i] > 0
      invariant 0 <= i < |results|
      invariant exists k :: 0 <= k < |results[i..]| && results[i..][k] <= 0
      invariant LastRead(results) == LastRead(results[i..])
      decreases |results| - i
    {
      assert results[i..][0] == results[i] && results[i..][1..] == results[i + 1..];
      i := i + 1;
    }
    assert results[i..][0] == results[i];
    read := results[i];
  }
}
