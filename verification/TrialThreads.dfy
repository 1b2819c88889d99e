/** The multi-threaded trial decryption of the C client: how the trials are divided among the threads. */
module TrialThreads {
  import opened Bytes

  // ---------- Chunks ----------

  const THREADS_COUNT := 4

  /** start_trials of thread i out of T. */
  function Start(i: nat, trials: nat, T: nat): nat
    requires T > 0
  {
    i * trials / T
  }

  /** Splitting off the multiples of T. */
  lemma StartSplit(i: nat, trials: nat, T: nat)
    requires T > 0
    ensures Start(i, trials, T) == i * (trials / T) + i * (trials % T) / T
  {
    var q, r := trials / T, trials % T;
    assert trials == q * T + r;
    assert i * trials == (i * q) * T + i * r by {
      assert i * (q * T + r) == i * (q * T) + i * r;
      assert i * (q * T) == (i * q) * T;
    }
    DivMultiple(i * q, i * r, T);
  }

  lemma DivMultiple(m: nat, x: nat, T: nat)
    requires T > 0
    ensures (m * T + x) / T == m + x / T
  {
    var q, r := x / T, x % T;
    assert m * T + x == (m + q) * T + r by { assert (m + q) * T == m * T + q * T; }
    DivUnique(m * T + x, m + q, r, T);
  }

  lemma DivUnique(x: nat, q: nat, r: nat, T: nat)
    requires T > 0 && x == q * T + r && r < T
    ensures x / T == q
  {
    var q', r' := x / T, x % T;
    assert x == q' * T + r';
    assert (q - q') * T == r' - r by { assert (q - q') * T == q * T - q' * T; }
    if q > q' { assert (q - q') * T >= T by { MulAtLeast(q - q', T); } }
    if q < q' { assert (q' - q) * T >= T by { MulAtLeast(q' - q, T); } }
  }

  lemma MulAtLeast(k: nat, T: nat)
    requires k >= 1
    ensures k * T >= T
  {
    assert k * T == (k - 1) * T + T;
    assert (k - 1) * T >= 0;
  }

  lemma DivStep(x: nat, r: nat, T: nat)
    requires r < T
    ensures x / T <= (x + r) / T <= x / T + 1
  {
    var q, m := x / T, x % T;
    if m + r < T { DivUnique(x + r, q, m + r, T); }
    else {
      assert (q + 1) * T == q * T + T;
      DivUnique(x + r, q + 1, m + r - T, T);
    }
  }

  /** A chunk has trials / T records or one more. */
  lemma ChunkSize(i: nat, trials: nat, T: nat)
    requires T > 0
    ensures var size := Start(i + 1, trials, T) - Start(i, trials, T);
            trials / T <= size <= trials / T + 1
  {
    var q, r := trials / T, trials % T;
    StartSplit(i, trials, T);
    StartSplit(i + 1, trials, T);
    assert (i + 1) * q == i * q + q && (i + 1) * r == i * r + r;
    DivStep(i * r, r, T);
  }

  lemma ChunkEnds(trials: nat, T: nat)
    requires T > 0
    ensures Start(0, trials, T) == 0 && Start(T, trials, T) == trials
  {
    DivUnique(T * trials, trials, 0, T);
  }

  lemma ChunkForward(i: nat, trials: nat, T: nat)
    requires T > 0
    ensures Start(i, trials, T) <= Start(i + 1, trials, T)
  {
    ChunkSize(i, trials, T);
  }

  lemma {:induction false} StartMonotone(i: nat, j: nat, trials: nat, T: nat)
    requires T > 0 && i <= j
    ensures Start(i, trials, T) <= Start(j, trials, T)
    decreases j - i
  {
    if i < j {
      StartMonotone(i, j - 1, trials, T);
      ChunkForward(j - 1, trials, T);
    }
  }

  /** No chunk ends behind the last trial: the clamp is never needed. */
  lemma ClampNeverTaken(i: nat, trials: nat, T: nat)
    requires i < T
    ensures Start(i + 1, trials, T) <= trials
  {
    StartMonotone(i + 1, T, trials, T);
    ChunkEnds(trials, T);
  }

  /** Every trial lies in some chunk... */
  lemma {:induction false} ChunkOf(j: nat, k: nat, trials: nat, T: nat) returns (i: nat)
    requires 0 < k <= T && j < Start(k, trials, T)
    ensures i < k && Start(i, trials, T) <= j < Start(i + 1, trials, T)
  {
    if Start(k - 1, trials, T) <= j { i := k - 1; }
    else {
      if k == 1 { ChunkEnds(trials, T); assert false; }
      i := ChunkOf(j, k - 1, trials, T);
    }
  }

  /** ...and in one only. */
  lemma ChunkUnique(j: nat, i: nat, i': nat, trials: nat, T: nat)
    requires T > 0
    requires Start(i, trials, T) <= j < Start(i + 1, trials, T)
    requires Start(i', trials, T) <= j < Start(i' + 1, trials, T)
    ensures i == i'
  {
    if i < i' { StartMonotone(i + 1, i', trials, T); }
    if i' < i { StartMonotone(i' + 1, i, trials, T); }
  }

  /** The arguments handed to a thread. */
  datatype Arg = Arg(offset: int32, size: int32)

  /** The loop of _mt_user_get_file_key, in C ints: nothing overflows for a ciphertext whose size is an
      int, the clamp changes nothing, and each thread gets exactly the records of its chunk. */
  method FeedThreads(cSize: int32) returns (args: seq<Arg>)
    requires cSize >= 0
    ensures |args| == 4
    ensures forall i :: 0 <= i < 4 ==>
              var n := cSize as int / 64;
              && args[i].offset as int == 64 * (i * n / 4)
              && args[i].size as int == 64 * ((i + 1) * n / 4 - i * n / 4)
    ensures forall i :: 0 <= i < THREADS_COUNT ==>
              var n := cSize as int / 64;
              && args[i].offset as int == 64 * Start(i, n, THREADS_COUNT)
              && args[i].size as int == 64 * (Start(i + 1, n, THREADS_COUNT) - Start(i, n, THREADS_COUNT))
              && 0 <= args[i].offset as int <= args[i].offset as int + args[i].size as int <= cSize as int
  {
    var trials: int32 := cSize / 64;
    args := [];
    var i: int32 := 0;
    while i < 4
      invariant 0 <= i <= 4 && |args| == i as int
      invariant forall k :: 0 <= k < i as int ==>
                  var n := cSize as int / 64;
                  && args[k].offset as int == 64 * Start(k, n, THREADS_COUNT)
                  && args[k].size as int == 64 * (Start(k + 1, n, THREADS_COUNT) - Start(k, n, THREADS_COUNT))
                  && 0 <= args[k].offset as int <= args[k].offset as int + args[k].size as int <= cSize as int
    {
      ClampNeverTaken(i as int, trials as int, THREADS_COUNT);
      ChunkSize(i as int, trials as int, THREADS_COUNT);
      var startTrials: int32 := (i * trials) / 4;
      var endTrials: int32 := ((i + 1) * trials) / 4;
      if endTrials > trials { endTrials := trials; }
      args := args + [Arg(64 * startTrials, (endTrials - startTrials) * 64)];
      i := i + 1;
    }
  }
}
