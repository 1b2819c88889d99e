/** The client's search for a hash (Envelope.kt): it probes the midpoint of the remaining
    range and then moves only one bound, by one. */
module Search {
  import opened Bytes
  import opened Options

  /** The record found, and the number of records looked at. */
  datatype Probe = Probe(found: Option<nat>, probes: nat)

  function SearchFrom(hs: seq<Bytes>, target: Bytes, left: int, right: int): Probe
    requires 0 <= left <= right + 1 <= |hs|
    decreases right - left + 1
  {
    if left > right then Probe(None, 0)
    else
      var current := left + (right - left) / 2;
      if hs[current] == target then Probe(Some(current), 1)
      else
        var rest := if Less(hs[current], target)
                    then SearchFrom(hs, target, left + 1, right)
                    else SearchFrom(hs, target, left, right - 1);
        Probe(rest.found, rest.probes + 1)
  }

  /** A result reached after `n` earlier probes. */
  function After(p: Probe, n: nat): Probe {
    Probe(p.found, n + p.probes)
  }

  lemma SearchStep(hs: seq<Bytes>, target: Bytes, left: int, right: int, n: nat)
    requires 0 <= left <= right < |hs|
    ensures var current := left + (right - left) / 2;
            After(SearchFrom(hs, target, left, right), n) ==
              if hs[current] == target then Probe(Some(current), n + 1)
              else if Less(hs[current], target) then After(SearchFrom(hs, target, left + 1, right), n + 1)
              else After(SearchFrom(hs, target, left, right - 1), n + 1)
  {
  }

  function Find(hs: seq<Bytes>, target: Bytes): Probe {
    SearchFrom(hs, target, 0, |hs| - 1)
  }

  /** The plain scan that the search stands for: the first position of the target. */
  function Scan(hs: seq<Bytes>, target: Bytes): (r: Option<nat>)
    ensures r == None <==> target !in hs
    ensures r.Some? ==> r.value < |hs| && hs[r.value] == target
  {
    if hs == [] then None
    else if hs[0] == target then Some(0)
    else match Scan(hs[1..], target)
      case None => None
      case Some(i) => Some(i + 1)
  }

  /** On any sequence, sorted or not, what is found is a match, and there are at most |hs| probes. */
  lemma {:induction false} FoundIsMatch(hs: seq<Bytes>, target: Bytes, left: int, right: int)
    requires 0 <= left <= right + 1 <= |hs|
    ensures var p := SearchFrom(hs, target, left, right);
            && (p.found.Some? ==> left <= p.found.value <= right && hs[p.found.value] == target)
            && (p.found == None ==> p.probes == right - left + 1)
            && p.probes <= right - left + 1
    decreases right - left
  {
    if left <= right {
      var current := left + (right - left) / 2;
      if hs[current] != target {
        if Less(hs[current], target) { FoundIsMatch(hs, target, left + 1, right); }
        else { FoundIsMatch(hs, target, left, right - 1); }
      }
    }
  }

  /** In sorted order, a smaller hash lies before the target and a larger one behind it. */
  lemma SortedSides(hs: seq<Bytes>, target: Bytes, p: nat, i: nat)
    requires StrictlySorted(hs) && p < |hs| && i < |hs| && hs[p] == target && i != p
    ensures hs[i] != target && (Less(hs[i], target) <==> i < p)
  {
    if i < p { LessAsymmetric(hs[i], hs[p]); } else { LessAsymmetric(hs[p], hs[i]); }
  }

  /** The whole cost story, in closed form: the probe walks one bound towards the target, every
      second step moving the midpoint by one, and never turns. */
  lemma {:induction false} SortedWalk(hs: seq<Bytes>, target: Bytes, p: nat, left: int, right: int)
    requires StrictlySorted(hs) && p < |hs| && hs[p] == target
    requires 0 <= left <= p <= right < |hs|
    ensures var mid := left + (right - left) / 2;
            SearchFrom(hs, target, left, right) ==
              Probe(Some(p), if p == mid then 1
                             else if p < mid then left + right - 2 * p
                             else 2 * p - left - right + 1)
    decreases right - left
  {
    var mid := left + (right - left) / 2;
    if p != mid {
      SortedSides(hs, target, p, mid);
      if mid < p { SortedWalk(hs, target, p, left + 1, right); }
      else { SortedWalk(hs, target, p, left, right - 1); }
    }
  }

  lemma SortedPresent(hs: seq<Bytes>, target: Bytes, p: nat)
    requires StrictlySorted(hs) && p < |hs| && hs[p] == target
    ensures var n := |hs|;
            Find(hs, target) == Probe(Some(p), if p == (n - 1) / 2 then 1
                                               else if p < (n - 1) / 2 then n - 1 - 2 * p
                                               else 2 * p - n + 2)
  {
    SortedWalk(hs, target, p, 0, |hs| - 1);
  }

  lemma AbsentNotFound(hs: seq<Bytes>, target: Bytes)
    requires target !in hs
    ensures Find(hs, target) == Probe(None, |hs|)
  {
    FoundIsMatch(hs, target, 0, |hs| - 1);
  }

  /** On strictly sorted hashes the search returns what the linear scan returns. */
  lemma FindAgreesWithScan(hs: seq<Bytes>, target: Bytes)
    requires StrictlySorted(hs)
    ensures Find(hs, target).found == Scan(hs, target)
  {
    if target in hs { SortedPresent(hs, target, Scan(hs, target).value); }
    else { AbsentNotFound(hs, target); }
  }

  /** The exact number of records that the search looks at, present or absent. */
  lemma FindCost(hs: seq<Bytes>, target: Bytes)
    requires StrictlySorted(hs)
    ensures var n := |hs|;
            Find(hs, target).probes ==
              match Scan(hs, target)
              case None => n
              case Some(p) => if p == (n - 1) / 2 then 1
                              else if p < (n - 1) / 2 then n - 1 - 2 * p
                              else 2 * p - n + 2
  {
    if target in hs { SortedPresent(hs, target, Scan(hs, target).value); }
    else { AbsentNotFound(hs, target); }
  }

  /** Without the order the search may miss a hash that is there: a present target is certain to be
      found only because the builder sorts. */
  lemma UnsortedMayMiss()
    ensures var hs: seq<Bytes> := [[1], [0], [0]];
            Scan(hs, [1]).Some? && Find(hs, [1]).found == None
  {
    var hs: seq<Bytes> := [[1], [0], [0]];
    assert SearchFrom(hs, [1], 1, 2) == Probe(SearchFrom(hs, [1], 2, 2).found, 2);
    assert Scan(hs, [1]) == Some(0);
  }
}
