/** The two ordered containers of the server: `std::map<std::string, std::string>` as the
    ascending sequence of its entries, and the ascending walk over a `std::set<std::string>`. */
module Ordered {
  import opened Bytes

  datatype Entry = Entry(key: Bytes, value: Bytes)

  ghost predicate Sorted(m: seq<Entry>) {
    forall i, j :: 0 <= i < j < |m| ==> Less(m[i].key, m[j].key)
  }

  function Keys(m: seq<Entry>): (ks: seq<Bytes>)
    ensures |ks| == |m| && forall i :: 0 <= i < |m| ==> ks[i] == m[i].key
  {
    seq(|m|, i requires 0 <= i < |m| => m[i].key)
  }

  /** `m[k] = v`: keeps the order, replaces the entry of `k` or adds one, touches no other. */
  function Assign(m: seq<Entry>, k: Bytes, v: Bytes): (r: seq<Entry>)
    requires Sorted(m)
    ensures Sorted(r)
    ensures Entry(k, v) in r
    ensures forall e :: e in r <==> e == Entry(k, v) || (e in m && e.key != k)
    ensures |m| <= |r| <= |m| + 1
  {
    if m == [] then [Entry(k, v)]
    else
      var head, rest := m[0], m[1..];
      assert m == [head] + rest;
      if k == head.key then
        assert forall e :: e in rest ==> e.key != k by {
          forall e | e in rest ensures e.key != k { LessIrreflexive(k); }
        }
        [Entry(k, v)] + rest
      else if Less(k, head.key) then
        assert forall e :: e in m ==> Less(k, e.key) by {
          forall e | e in rest ensures Less(k, e.key) { LessTransitive(k, head.key, e.key); }
        }
        LessIrreflexive(k);
        [Entry(k, v)] + m
      else
        LessTotal(k, head.key);
        [head] + Assign(rest, k, v)
  }

  ghost predicate IsLeast(x: Bytes, s: set<Bytes>) {
    x in s && forall y :: y in s && y != x ==> Less(x, y)
  }

  lemma {:induction false} LeastExists(s: set<Bytes>)
    requires s != {}
    ensures exists x :: IsLeast(x, s)
  {
    var a :| a in s;
    if s == {a} {
      assert IsLeast(a, s);
    } else {
      LeastExists(s - {a});
      var b :| IsLeast(b, s - {a});
      LessTotal(a, b);
      if Less(a, b) {
        forall y | y in s && y != a ensures Less(a, y) {
          if y != b { LessTransitive(a, b, y); }
        }
        assert IsLeast(a, s);
      } else {
        assert IsLeast(b, s);
      }
    }
  }

  lemma LeastUnique(x: Bytes, y: Bytes, s: set<Bytes>)
    requires IsLeast(x, s) && IsLeast(y, s)
    ensures x == y
  {
    if x != y { LessAsymmetric(x, y); }
  }

  /** The elements of a `std::set<std::string>` in iteration order. */
  ghost function Ascending(s: set<Bytes>): seq<Bytes> {
    if s == {} then []
    else
      LeastExists(s);
      var x :| IsLeast(x, s);
      [x] + Ascending(s - {x})
  }

  lemma {:induction false} AscendingElements(s: set<Bytes>)
    ensures |Ascending(s)| == |s|
    ensures forall x :: x in Ascending(s) <==> x in s
  {
    if s != {} {
      LeastExists(s);
      var x :| IsLeast(x, s) && Ascending(s) == [x] + Ascending(s - {x});
      AscendingElements(s - {x});
    }
  }

  lemma {:induction false} AscendingSorted(s: set<Bytes>)
    ensures StrictlySorted(Ascending(s))
  {
    if s != {} {
      LeastExists(s);
      var x :| IsLeast(x, s) && Ascending(s) == [x] + Ascending(s - {x});
      AscendingSorted(s - {x});
      AscendingElements(s - {x});
    }
  }
}
