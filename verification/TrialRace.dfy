/** Every interleaving of the trial threads (`myThreadFun`), one atomic step per access of the shared
    flag FOUND_POSITIVE and per trial. */
module TrialRace {
  import opened Bytes
  import opened Options
  import opened Trials
  import opened TrialThreads

  /** Where a thread is; i is the record its pointer stands at. */
  datatype Pc =
    | Check(i: nat)  // the loop condition: trials left, and the flag still 0
    | Try(i: nat)    // decrypt the hint and compare
    | Hit            // set the flag
    | Stopped

  datatype Race = Race(found: bool, threads: seq<Pc>)

  /** hits[j] says whether record j matches; thread t of T works on its chunk. */
  function End(hits: seq<bool>, t: nat, T: nat): nat
    requires T > 0
  {
    Start(t + 1, |hits|, T)
  }

  function Next(hits: seq<bool>, found: bool, pc: Pc, end: nat): (bool, Pc) {
    match pc
    case Check(i) => (found, if i < end && !found then Try(i) else Stopped)
    case Try(i) => (found, if i < |hits| && hits[i] then Hit else Check(i + 1))
    case Hit => (true, Stopped)
    case Stopped => (found, Stopped)
  }

  function Begin(hits: seq<bool>, T: nat, found: bool): Race
    requires T > 0
  {
    Race(found, seq(T, t requires 0 <= t < T => Check(Start(t, |hits|, T))))
  }

  /** The state after a schedule, a sequence of thread numbers; None if a stopped thread is scheduled. */
  function Play(hits: seq<bool>, T: nat, found: bool, schedule: seq<nat>): (r: Option<Race>)
    requires T > 0
    ensures r.Some? ==> |r.value.threads| == T
  {
    if schedule == [] then Some(Begin(hits, T, found))
    else
      var t := schedule[|schedule| - 1];
      match Play(hits, T, found, schedule[..|schedule| - 1])
      case None => None
      case Some(s) =>
        if t >= T || s.threads[t] == Stopped then None
        else
          var (found', pc') := Next(hits, s.found, s.threads[t], End(hits, t, T));
          Some(Race(found', s.threads[t := pc']))
  }

  predicate AllStopped(s: Race) {
    forall t :: 0 <= t < |s.threads| ==> s.threads[t] == Stopped
  }

  // ---------- What every interleaving keeps ----------

  ghost predicate NoHit(hits: seq<bool>, from: nat, to: nat) {
    forall j :: from <= j < to && j < |hits| ==> !hits[j]
  }

  ghost predicate ThreadOk(hits: seq<bool>, found: bool, pc: Pc, start: nat, end: nat) {
    match pc
    case Check(i) => start <= i && NoHit(hits, start, i)
    case Try(i) => start <= i < end && NoHit(hits, start, i)
    case Hit => exists j :: 0 <= j < |hits| && hits[j]
    case Stopped => !found ==> NoHit(hits, start, end)
  }

  ghost predicate Ok(hits: seq<bool>, T: nat, found0: bool, s: Race)
    requires T > 0
  {
    && |s.threads| == T
    && (found0 ==> s.found)
    && (s.found ==> found0 || exists j :: 0 <= j < |hits| && hits[j])
    && forall t :: 0 <= t < T ==> ThreadOk(hits, s.found, s.threads[t], Start(t, |hits|, T), End(hits, t, T))
  }

  lemma NextOk(hits: seq<bool>, found: bool, pc: Pc, start: nat, end: nat)
    requires ThreadOk(hits, found, pc, start, end) && start <= end
    ensures var (found', pc') := Next(hits, found, pc, end);
            ThreadOk(hits, found', pc', start, end) && (found ==> found') && (found' && !found ==> pc == Hit)
  {
  }

  lemma {:induction false} PlayOk(hits: seq<bool>, T: nat, found0: bool, schedule: seq<nat>)
    requires T > 0 && Play(hits, T, found0, schedule).Some?
    ensures Ok(hits, T, found0, Play(hits, T, found0, schedule).value)
  {
    if schedule != [] {
      var prefix, t := schedule[..|schedule| - 1], schedule[|schedule| - 1];
      PlayOk(hits, T, found0, prefix);
      StepOk(hits, T, found0, Play(hits, T, found0, prefix).value, t);
    }
  }

  lemma StepOk(hits: seq<bool>, T: nat, found0: bool, s: Race, t: nat)
    requires T > 0 && Ok(hits, T, found0, s) && t < T
    ensures var (found', pc') := Next(hits, s.found, s.threads[t], End(hits, t, T));
            Ok(hits, T, found0, Race(found', s.threads[t := pc']))
  {
    ChunkForward(t, |hits|, T);
    assert ThreadOk(hits, s.found, s.threads[t], Start(t, |hits|, T), End(hits, t, T));
    NextOk(hits, s.found, s.threads[t], Start(t, |hits|, T), End(hits, t, T));
  }

  /** When all threads have been joined, the flag is set exactly if it was set at the start or some record
      matches: early exit never hides the only match. */
  lemma JoinedFlagIff(hits: seq<bool>, T: nat, found0: bool, schedule: seq<nat>)
    requires T > 0
    requires var s := Play(hits, T, found0, schedule); s.Some? && AllStopped(s.value)
    ensures Play(hits, T, found0, schedule).value.found <==> found0 || exists j :: 0 <= j < |hits| && hits[j]
  {
    PlayOk(hits, T, found0, schedule);
    var s := Play(hits, T, found0, schedule).value;
    ChunkEnds(|hits|, T);
    forall j | 0 <= j < |hits| && hits[j] ensures s.found {
      var t := ChunkOf(j, T, |hits|, T);
      assert s.threads[t] == Stopped;
      assert !s.found ==> NoHit(hits, Start(t, |hits|, T), End(hits, t, T));
    }
  }

  // ---------- All threads stop ----------

  /** An upper bound on the steps that a thread has left. */
  function Left(pc: Pc, end: nat): nat {
    match pc
    case Check(i) => if i < end then 2 * (end - i) + 2 else 1
    case Try(i) => if i < end then 2 * (end - i) + 1 else 2
    case Hit => 1
    case Stopped => 0
  }

  function TotalLeft(hits: seq<bool>, T: nat, threads: seq<Pc>, n: nat): nat
    requires T > 0 && n <= |threads|
  {
    if n == 0 then 0 else TotalLeft(hits, T, threads, n - 1) + Left(threads[n - 1], End(hits, n - 1, T))
  }

  lemma {:induction false} TotalLeftUpdate(hits: seq<bool>, T: nat, threads: seq<Pc>, n: nat, t: nat, pc: Pc)
    requires T > 0 && n <= |threads| && t < |threads|
    ensures TotalLeft(hits, T, threads[t := pc], n) == TotalLeft(hits, T, threads, n)
              + if t < n then Left(pc, End(hits, t, T)) - Left(threads[t], End(hits, t, T)) else 0
  {
    if n != 0 { TotalLeftUpdate(hits, T, threads, n - 1, t, pc); }
  }

  lemma {:induction false} TotalLeftAtBegin(hits: seq<bool>, T: nat, found: bool, n: nat)
    requires 0 < T && n <= T
    ensures TotalLeft(hits, T, Begin(hits, T, found).threads, n) <= 2 * Start(n, |hits|, T) + 2 * n
  {
    if n != 0 {
      TotalLeftAtBegin(hits, T, found, n - 1);
      ChunkForward(n - 1, |hits|, T);
    }
  }

  lemma {:induction false} EveryStepCounts(hits: seq<bool>, T: nat, found: bool, schedule: seq<nat>)
    requires T > 0 && Play(hits, T, found, schedule).Some?
    ensures |schedule| + TotalLeft(hits, T, Play(hits, T, found, schedule).value.threads, T)
            <= TotalLeft(hits, T, Begin(hits, T, found).threads, T)
  {
    if schedule != [] {
      var prefix, t := schedule[..|schedule| - 1], schedule[|schedule| - 1];
      EveryStepCounts(hits, T, found, prefix);
      PlayOk(hits, T, found, prefix);
      var s := Play(hits, T, found, prefix).value;
      var end := End(hits, t, T);
      assert ThreadOk(hits, s.found, s.threads[t], Start(t, |hits|, T), end);
      var pc' := Next(hits, s.found, s.threads[t], end).1;
      TotalLeftUpdate(hits, T, s.threads, T, t, pc');
    }
  }

  lemma StepsAreBounded(hits: seq<bool>, T: nat, found: bool, schedule: seq<nat>)
    requires T > 0 && Play(hits, T, found, schedule).Some?
    ensures |schedule| <= 2 * |hits| + 2 * T
  {
    EveryStepCounts(hits, T, found, schedule);
    TotalLeftAtBegin(hits, T, found, T);
    ChunkEnds(|hits|, T);
  }

  lemma RunningThreadGoesOn(hits: seq<bool>, T: nat, found: bool, schedule: seq<nat>, t: nat)
    requires T > 0 && Play(hits, T, found, schedule).Some? && t < T
    requires Play(hits, T, found, schedule).value.threads[t] != Stopped
    ensures Play(hits, T, found, schedule + [t]).Some?
  {
    assert (schedule + [t])[..|schedule|] == schedule;
  }

  /** No interleaving runs for more than 2 * trials + 2 * T steps, and as long as a thread has not stopped
      it can be scheduled: so all threads stop, on every interleaving. */
  lemma AllThreadsStop(hits: seq<bool>, T: nat, found: bool, schedule: seq<nat>)
    requires T > 0 && Play(hits, T, found, schedule).Some?
    ensures |schedule| <= 2 * |hits| + 2 * T
    ensures !AllStopped(Play(hits, T, found, schedule).value) ==>
              exists t: nat :: Play(hits, T, found, schedule + [t]).Some?
  {
    StepsAreBounded(hits, T, found, schedule);
    var s := Play(hits, T, found, schedule).value;
    if t: nat :| t < T && s.threads[t] != Stopped {
      RunningThreadGoesOn(hits, T, found, schedule, t);
    }
  }

  // ---------- Early exit ----------

  /** The steps that a thread has left once the flag is set: it finishes the trial at hand, no other. */
  function LeftOnceFound(pc: Pc): nat {
    match pc case Check(_) => 1 case Try(_) => 2 case Hit => 1 case Stopped => 0
  }

  function TotalOnceFound(threads: seq<Pc>): (r: nat)
    ensures r <= 2 * |threads|
  {
    if threads == [] then 0 else LeftOnceFound(threads[0]) + TotalOnceFound(threads[1..])
  }

  lemma {:induction false} TotalOnceFoundUpdate(threads: seq<Pc>, t: nat, pc: Pc)
    requires t < |threads|
    ensures TotalOnceFound(threads[t := pc]) + LeftOnceFound(threads[t]) == TotalOnceFound(threads) + LeftOnceFound(pc)
  {
    if t == 0 {
      assert threads[t := pc][1..] == threads[1..];
    } else {
      TotalOnceFoundUpdate(threads[1..], t - 1, pc);
      assert threads[t := pc][1..] == threads[1..][t - 1 := pc];
    }
  }

  lemma FoundStep(hits: seq<bool>, pc: Pc, end: nat)
    requires pc != Stopped
    ensures var (found', pc') := Next(hits, true, pc, end); found' && LeftOnceFound(pc') < LeftOnceFound(pc)
  {
  }

  /** Once the flag is set it stays set, and all threads together take at most two more steps per thread: nobody
      starts another trial after looking at the flag. */
  lemma {:induction false} EarlyExit(hits: seq<bool>, T: nat, found: bool, schedule: seq<nat>, more: seq<nat>)
    requires T > 0 && Play(hits, T, found, schedule).Some? && Play(hits, T, found, schedule).value.found
    requires Play(hits, T, found, schedule + more).Some?
    ensures Play(hits, T, found, schedule + more).value.found
    ensures |more| + TotalOnceFound(Play(hits, T, found, schedule + more).value.threads)
            <= TotalOnceFound(Play(hits, T, found, schedule).value.threads)
    ensures |more| <= 2 * T
    decreases |more|
  {
    if more == [] {
      assert schedule + more == schedule;
    } else {
      var rest, t := more[..|more| - 1], more[|more| - 1];
      var all := schedule + more;
      assert all[..|all| - 1] == schedule + rest && all[|all| - 1] == t;
      EarlyExit(hits, T, found, schedule, rest);
      var s := Play(hits, T, found, schedule + rest).value;
      FoundStep(hits, s.threads[t], End(hits, t, T));
      TotalOnceFoundUpdate(s.threads, t, Next(hits, true, s.threads[t], End(hits, t, T)).1);
    }
  }

  // ---------- Against the sequential scan ----------

  function HitsOf(stream: Stream, userKey: Bytes, ciphertext: Bytes): seq<bool> {
    seq(|ciphertext| / 64, i requires 0 <= i < |ciphertext| / 64 => Match(stream, userKey, ciphertext, i))
  }

  /** Started with the flag at 0, the joined threads leave it at 1 exactly when user_get_file_key finds a
      record, whatever the interleaving and the number of threads. */
  lemma ThreadsAgreeWithScan(stream: Stream, userKey: Bytes, ciphertext: Bytes, T: nat, schedule: seq<nat>)
    requires T > 0
    requires var s := Play(HitsOf(stream, userKey, ciphertext), T, false, schedule); s.Some? && AllStopped(s.value)
    ensures Play(HitsOf(stream, userKey, ciphertext), T, false, schedule).value.found
            <==> FileKey(stream, userKey, ciphertext).Some?
  {
    var hits := HitsOf(stream, userKey, ciphertext);
    JoinedFlagIff(hits, T, false, schedule);
    var first := FirstMatch(stream, userKey, ciphertext, 0);
    if first.Some? {
      assert hits[first.value];
    } else {
      forall j | 0 <= j < |hits| ensures !hits[j] { FirstMatchIsFirst(stream, userKey, ciphertext, 0, j); }
    }
  }
}
