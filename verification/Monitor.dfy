/** The simulated reference monitor of the C client's test, which writes one record per group member in
    place, and the reader that must find the user's record again. */
module Monitor {
  import opened Bytes
  import opened Options
  import opened Crypto
  import opened Trials

  /** Where the test puts the user's record. */
  function UserPosition(n: nat): nat { 2 * (n / 3) }

  function RecordKey(n: nat, userKey: Bytes, randoms: nat -> Key, i: nat): Bytes {
    if i == UserPosition(n) then userKey else randoms(i)
  }

  function RecordHint(n: nat, i: nat): Key {
    if i == UserPosition(n) then PositiveHint() else NegativeHint()
  }

  ghost predicate RecordWritten(stream: Stream, key: Bytes, hint: Key, fileKey: Key, ciphertext: Bytes, i: nat) {
    && 64 * i + 64 <= |ciphertext|
    && Hint(ciphertext, i) == Ctr(stream, key, hint)
    && SealedKey(ciphertext, i) == Ctr(stream, key, fileKey)
  }

  ghost predicate Written(stream: Stream, n: nat, userKey: Bytes, fileKey: Key, randoms: nat -> Key,
                          ciphertext: Bytes, upTo: nat) {
    forall i :: 0 <= i < upTo ==>
      RecordWritten(stream, RecordKey(n, userKey, randoms, i), RecordHint(n, i), fileKey, ciphertext, i)
  }

  /** aes_encrypt into the buffer. */
  method WriteBlock(a: array<byte>, it: nat, block: Key)
    requires it + 32 <= a.Length
    modifies a
    ensures a[..it] == old(a[..it]) && a[it..it + 32] == block
  {
    forall k | 0 <= k < 32 { a[it + k] := block[k]; }
  }

  lemma PrefixKeepsRecord(stream: Stream, key: Bytes, hint: Key, fileKey: Key, before: Bytes, after: Bytes,
                          i: nat, it: nat)
    requires RecordWritten(stream, key, hint, fileKey, before, i)
    requires 64 * i + 64 <= it <= |before| == |after| && after[..it] == before[..it]
    ensures RecordWritten(stream, key, hint, fileKey, after, i)
  {
    assert Hint(after, i) == after[..it][64 * i..64 * i + 32] && Hint(before, i) == before[..it][64 * i..64 * i + 32];
    assert SealedKey(after, i) == after[..it][64 * i + 32..64 * i + 64];
    assert SealedKey(before, i) == before[..it][64 * i + 32..64 * i + 64];
  }

  lemma PrefixKeepsWritten(stream: Stream, n: nat, userKey: Bytes, fileKey: Key, randoms: nat -> Key,
                           before: Bytes, after: Bytes, upTo: nat)
    requires Written(stream, n, userKey, fileKey, randoms, before, upTo)
    requires 64 * upTo <= |before| == |after| && after[..64 * upTo] == before[..64 * upTo]
    ensures Written(stream, n, userKey, fileKey, randoms, after, upTo)
  {
    forall i | 0 <= i < upTo
      ensures RecordWritten(stream, RecordKey(n, userKey, randoms, i), RecordHint(n, i), fileKey, after, i)
    {
      var key := RecordKey(n, userKey, randoms, i);
      PrefixKeepsRecord(stream, key, RecordHint(n, i), fileKey, before, after, i, 64 * upTo);
    }
  }

  /** One turn of the loop: the hint, then the file key, under the same key. */
  method WriteRecord(stream: Stream, a: array<byte>, key: Bytes, hint: Key, fileKey: Key, i: nat)
    requires 64 * i + 64 <= a.Length
    modifies a
    ensures a[..64 * i] == old(a[..64 * i]) && RecordWritten(stream, key, hint, fileKey, a[..], i)
  {
    var it := 64 * i;
    WriteBlock(a, it, Ctr(stream, key, hint));
    assert a[it..it + 32] == a[..it + 32][it..];
    ghost var mid := a[..it + 32];
    it := it + 32;
    WriteBlock(a, it, Ctr(stream, key, fileKey));
    assert a[..it][..64 * i] == a[..64 * i] && mid[..64 * i] == old(a[..64 * i]);
    assert Hint(a[..], i) == a[..it][64 * i..] == mid[64 * i..];
    assert SealedKey(a[..], i) == a[it..it + 32];
  }

  method WriteNext(stream: Stream, n: nat, userKey: Bytes, fileKey: Key, randoms: nat -> Key, a: array<byte>, i: nat)
    requires 64 * i + 64 <= a.Length && Written(stream, n, userKey, fileKey, randoms, a[..], i)
    modifies a
    ensures Written(stream, n, userKey, fileKey, randoms, a[..], i + 1)
  {
    ghost var before := a[..];
    assert before[..64 * i] == a[..64 * i];
    WriteRecord(stream, a, RecordKey(n, userKey, randoms, i), RecordHint(n, i), fileKey, i);
    assert a[..][..64 * i] == a[..64 * i];
    PrefixKeepsWritten(stream, n, userKey, fileKey, randoms, before, a[..], i);
  }

  /** The loop of basic_user_validation_test. */
  method Simulate(stream: Stream, n: nat, userKey: Bytes, fileKey: Key, randoms: nat -> Key) returns (a: array<byte>)
    requires 64 * n < INT_LIMIT
    ensures a.Length == 64 * n && Written(stream, n, userKey, fileKey, randoms, a[..], n)
  {
    a := new byte[64 * n];
    for i := 0 to n
      invariant Written(stream, n, userKey, fileKey, randoms, a[..], i)
    {
      WriteNext(stream, n, userKey, fileKey, randoms, a, i);
    }
  }

  /** The bytes that the monitor leaves: for member number 2(n/3) the encryption of ones under the user's key,
      for everybody else that of zeros under a random key, and behind it the file key under the same key. */
  lemma WrittenBytes(stream: Stream, n: nat, userKey: Bytes, fileKey: Key, randoms: nat -> Key, ciphertext: Bytes,
                     i: nat)
    requires Written(stream, n, userKey, fileKey, randoms, ciphertext, n) && i < n && |ciphertext| == 64 * n
    ensures var user := i == 2 * (n / 3);
            var key := if user then userKey else randoms(i);
            && AllAre(Ctr(stream, key, ciphertext[64 * i..64 * i + 32]), if user then 0x31 else 0x30)
            && ciphertext[64 * i + 32..64 * i + 64] == Ctr(stream, key, fileKey)
  {
    var key, hint := RecordKey(n, userKey, randoms, i), RecordHint(n, i);
    assert RecordWritten(stream, key, hint, fileKey, ciphertext, i);
    CtrInvolution(stream, key, hint);
  }

  /** A record written under a random key that nevertheless shows the user the positive hint. */
  predicate FalsePositive(stream: Stream, userKey: Bytes, random: Bytes) {
    Ctr(stream, userKey, Ctr(stream, random, NegativeHint())) == PositiveHint()
  }

  /** A false positive never yields the file key: the same difference of key streams that turns the
      negative hint into the positive one also alters the file key. */
  lemma FalsePositiveGarbles(stream: Stream, userKey: Bytes, random: Bytes, fileKey: Key)
    requires FalsePositive(stream, userKey, random)
    ensures Ctr(stream, userKey, Ctr(stream, random, fileKey)) != fileKey
  {
    HintsDiffer();
    CtrInvolution(stream, random, NegativeHint());
    if Ctr(stream, userKey, Ctr(stream, random, fileKey)) == fileKey {
      CrossDecryptUnchanged(stream, userKey, random, fileKey);
      SameStream(stream, userKey, random, NegativeHint());
    }
  }

  lemma HintsDiffer()
    ensures PositiveHint() != NegativeHint()
  {
    assert PositiveHint()[0] != NegativeHint()[0];
  }

  lemma SameStream(stream: Stream, k: Bytes, k': Bytes, block: Key)
    requires stream(k) == stream(k')
    ensures Ctr(stream, k, Ctr(stream, k', block)) == Ctr(stream, k', Ctr(stream, k', block))
  {
  }

  lemma UserRecordMatches(stream: Stream, n: nat, userKey: Bytes, fileKey: Key, randoms: nat -> Key, ciphertext: Bytes)
    requires n >= 1 && Written(stream, n, userKey, fileKey, randoms, ciphertext, n)
    ensures UserPosition(n) < n && Match(stream, userKey, ciphertext, UserPosition(n))
    ensures Ctr(stream, userKey, SealedKey(ciphertext, UserPosition(n))) == fileKey
  {
    CtrInvolution(stream, userKey, PositiveHint());
    CtrInvolution(stream, userKey, fileKey);
    var p := UserPosition(n);
    assert RecordWritten(stream, RecordKey(n, userKey, randoms, p), RecordHint(n, p), fileKey, ciphertext, p);
  }

  /** For every group size from 1 on, the position is in range, the reader finds a key, and it is the file
      key exactly when no record before the user's is a false positive. */
  lemma ReaderUndoesMonitorIff(stream: Stream, n: nat, userKey: Bytes, fileKey: Key, randoms: nat -> Key,
                               ciphertext: Bytes)
    requires n >= 1 && |ciphertext| == 64 * n && Written(stream, n, userKey, fileKey, randoms, ciphertext, n)
    ensures UserPosition(n) < n && FileKey(stream, userKey, ciphertext).Some?
    ensures FileKey(stream, userKey, ciphertext) == Some(fileKey)
            <==> forall j :: 0 <= j < UserPosition(n) ==> !FalsePositive(stream, userKey, randoms(j))
  {
    var p := UserPosition(n);
    UserRecordMatches(stream, n, userKey, fileKey, randoms, ciphertext);
    var first := FirstMatch(stream, userKey, ciphertext, 0);
    FirstMatchIsFirst(stream, userKey, ciphertext, 0, p);
    var f := first.value;
    if f < p {
      assert RecordWritten(stream, RecordKey(n, userKey, randoms, f), RecordHint(n, f), fileKey, ciphertext, f);
      assert FalsePositive(stream, userKey, randoms(f));
      FalsePositiveGarbles(stream, userKey, randoms(f), fileKey);
    } else {
      forall j | 0 <= j < p ensures !FalsePositive(stream, userKey, randoms(j)) {
        FirstMatchIsFirst(stream, userKey, ciphertext, 0, j);
        assert RecordWritten(stream, RecordKey(n, userKey, randoms, j), RecordHint(n, j), fileKey, ciphertext, j);
      }
    }
  }

  // ---------- False positives do occur ----------

  /** The first records of the monitor's output. */
  function Output(stream: Stream, n: nat, userKey: Bytes, fileKey: Key, randoms: nat -> Key, upTo: nat): (r: Bytes)
    ensures |r| == 64 * upTo
  {
    if upTo == 0 then []
    else
      var i := upTo - 1;
      var key := RecordKey(n, userKey, randoms, i);
      Output(stream, n, userKey, fileKey, randoms, i) + Ctr(stream, key, RecordHint(n, i)) + Ctr(stream, key, fileKey)
  }

  lemma {:induction false} OutputWritten(stream: Stream, n: nat, userKey: Bytes, fileKey: Key, randoms: nat -> Key,
                                         upTo: nat)
    ensures Written(stream, n, userKey, fileKey, randoms, Output(stream, n, userKey, fileKey, randoms, upTo), upTo)
  {
    if upTo > 0 {
      var i := upTo - 1;
      OutputWritten(stream, n, userKey, fileKey, randoms, i);
      LastRecordWritten(stream, n, userKey, fileKey, randoms, i);
      var before := Output(stream, n, userKey, fileKey, randoms, i);
      var after := Output(stream, n, userKey, fileKey, randoms, upTo);
      assert after[..64 * i] == before;
      forall j | 0 <= j < i
        ensures RecordWritten(stream, RecordKey(n, userKey, randoms, j), RecordHint(n, j), fileKey, after, j)
      {
        assert RecordWritten(stream, RecordKey(n, userKey, randoms, j), RecordHint(n, j), fileKey, before, j);
        PrefixSameRecord(before, after, j);
      }
    }
  }

  lemma PrefixSameRecord(before: Bytes, after: Bytes, j: nat)
    requires 64 * j + 64 <= |before| <= |after| && after[..|before|] == before
    ensures Hint(after, j) == Hint(before, j) && SealedKey(after, j) == SealedKey(before, j)
  {
    assert Hint(after, j) == after[..|before|][64 * j..64 * j + 32];
    assert SealedKey(after, j) == after[..|before|][64 * j + 32..64 * j + 64];
  }

  lemma LastRecordWritten(stream: Stream, n: nat, userKey: Bytes, fileKey: Key, randoms: nat -> Key, i: nat)
    ensures RecordWritten(stream, RecordKey(n, userKey, randoms, i), RecordHint(n, i), fileKey,
                          Output(stream, n, userKey, fileKey, randoms, i + 1), i)
  {
    var key := RecordKey(n, userKey, randoms, i);
    var before := Output(stream, n, userKey, fileKey, randoms, i);
    var hint, sealed := Ctr(stream, key, RecordHint(n, i)), Ctr(stream, key, fileKey);
    var all := before + hint + sealed;
    assert all[64 * i..64 * i + 32] == hint && all[64 * i + 32..64 * i + 64] == sealed;
  }

  /** A cipher whose stream is all zeros for one key and all ones for every other. */
  function Unlucky(userKey: Bytes): Stream {
    k => if k == userKey then Repeated(0) else Repeated(1)
  }

  /** The two hints differ in one bit per byte, which is what such a pair of streams differs in. */
  lemma UnluckyFalsePositive(userKey: Bytes, random: Bytes)
    requires random != userKey
    ensures FalsePositive(Unlucky(userKey), userKey, random)
  {
    var stream := Unlucky(userKey);
    var shown := Ctr(stream, userKey, Ctr(stream, random, NegativeHint()));
    HintBits();
    assert forall i :: 0 <= i < 32 ==> shown[i] == PositiveHint()[i];
  }

  lemma HintBits()
    ensures Xor(0x30, 1) == 0x31 && Xor(0x31, 0) == 0x31
  {
    assert XorBits(0x30 / 2, 0, 7) == 0x18 by { XorZero(0x18, 7); }
    XorZero(0x31, 8);
    Pow2Of8();
  }

  lemma {:induction false} XorZero(a: nat, n: nat)
    requires a < Pow2(n)
    ensures XorBits(a, 0, n) == a
  {
    if n > 0 { XorZero(a / 2, n - 1); }
  }

  /** A group of three, in which the reader takes the first record for the user's and returns a wrong key. */
  lemma ReaderMayReturnWrongKey(userKey: Bytes, random: Key, fileKey: Key)
    requires random != userKey
    ensures var stream, randoms := Unlucky(userKey), (i: nat) => random;
            var ciphertext := Output(stream, 3, userKey, fileKey, randoms, 3);
            && Written(stream, 3, userKey, fileKey, randoms, ciphertext, 3)
            && FileKey(stream, userKey, ciphertext).Some? && FileKey(stream, userKey, ciphertext) != Some(fileKey)
  {
    var stream, randoms := Unlucky(userKey), (i: nat) => random;
    var ciphertext := Output(stream, 3, userKey, fileKey, randoms, 3);
    OutputWritten(stream, 3, userKey, fileKey, randoms, 3);
    UnluckyFalsePositive(userKey, random);
    assert FalsePositive(stream, userKey, randoms(0));
    ReaderUndoesMonitorIff(stream, 3, userKey, fileKey, randoms, ciphertext);
  }
}
