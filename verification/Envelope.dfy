/** Opening an envelope on the client (Envelope.kt), linear and indexed. The specification
    functions work on records; the methods work on byte offsets, as the source does. */
module Envelope {
  import opened Bytes
  import opened Options
  import opened Crypto
  import opened Search

  const ENCRYPTED_KEY_BYTES := IV_BYTES + KEY_BYTES + TAG_BYTES
  /** 88, and written so in products, which keeps them linear. */
  const RECORD_BYTES := HASH_BYTES + ENCRYPTED_KEY_BYTES

  // ---------- Linear envelopes ----------

  /** Try the records in turn; only a bad tag moves on to the next one. */
  function LinearOpen(c: Suite, envelope: Bytes, userKey: Bytes): Result
    decreases |envelope|
  {
    if envelope == [] then Err(NotInEnvelope)
    else if |envelope| < ENCRYPTED_KEY_BYTES then Err(BufferUnderflow)
    else
      var r := DecryptAes(c, envelope[..ENCRYPTED_KEY_BYTES], userKey, []);
      if r == Err(BadTag) then LinearOpen(c, envelope[ENCRYPTED_KEY_BYTES..], userKey) else r
  }

  /** `Envelope.open`: a buffer position that advances by 60 bytes. */
  method OpenLinear(c: Suite, envelope: Bytes, userKey: Bytes) returns (r: Result)
    ensures r == LinearOpen(c, envelope, userKey)
  {
    var position := 0;
    while position < |envelope|
      invariant position <= |envelope|
      invariant LinearOpen(c, envelope, userKey) == LinearOpen(c, envelope[position..], userKey)
    {
      if |envelope| - position < ENCRYPTED_KEY_BYTES { return Err(BufferUnderflow); }
      var encryptedKey := envelope[position..position + ENCRYPTED_KEY_BYTES];
      assert encryptedKey == envelope[position..][..ENCRYPTED_KEY_BYTES];
      assert envelope[position..][ENCRYPTED_KEY_BYTES..] == envelope[position + ENCRYPTED_KEY_BYTES..];
      position := position + ENCRYPTED_KEY_BYTES;
      var attempt := DecryptAes(c, encryptedKey, userKey, []);
      if attempt != Err(BadTag) { return attempt; }
    }
    return Err(NotInEnvelope);
  }

  /** What the record behind i earlier ones gives. */
  function Trial(c: Suite, envelope: Bytes, userKey: Bytes, i: nat): Result
    requires 60 * i + 60 <= |envelope|
  {
    DecryptAes(c, envelope[60 * i..60 * i + 60], userKey, [])
  }

  lemma TrialOfRest(c: Suite, envelope: Bytes, userKey: Bytes, i: nat)
    requires 60 * (i + 1) + 60 <= |envelope|
    ensures Trial(c, envelope[60..], userKey, i) == Trial(c, envelope, userKey, i + 1)
  {
    assert envelope[60..][60 * i..60 * i + 60] == envelope[60 * (i + 1)..60 * (i + 1) + 60];
  }

  /** On any bytes, the first 60-byte record that does not end in a bad tag decides. */
  lemma {:induction false} LinearOpenFirst(c: Suite, envelope: Bytes, userKey: Bytes, i: nat)
    requires 60 * i + 60 <= |envelope| && Trial(c, envelope, userKey, i) != Err(BadTag)
    requires forall j :: 0 <= j < i ==> Trial(c, envelope, userKey, j) == Err(BadTag)
    ensures LinearOpen(c, envelope, userKey) == Trial(c, envelope, userKey, i)
    decreases i
  {
    assert envelope[..60] == envelope[60 * 0..60 * 0 + 60];
    if i > 0 {
      assert Trial(c, envelope, userKey, 0) == Err(BadTag);
      TrialOfRest(c, envelope, userKey, i - 1);
      forall j | 0 <= j < i - 1 ensures Trial(c, envelope[60..], userKey, j) == Err(BadTag) {
        TrialOfRest(c, envelope, userKey, j);
      }
      LinearOpenFirst(c, envelope[60..], userKey, i - 1);
    }
  }

  /** If there is none, the key is not in the envelope, or the buffer ends within a record. */
  lemma {:induction false} LinearOpenNone(c: Suite, envelope: Bytes, userKey: Bytes)
    requires forall j :: 0 <= j && 60 * j + 60 <= |envelope| ==> Trial(c, envelope, userKey, j) == Err(BadTag)
    ensures LinearOpen(c, envelope, userKey) == Err(if |envelope| % 60 == 0 then NotInEnvelope else BufferUnderflow)
    decreases |envelope|
  {
    if |envelope| >= 60 {
      assert envelope[..60] == envelope[60 * 0..60 * 0 + 60];
      assert Trial(c, envelope, userKey, 0) == Err(BadTag);
      forall j | 0 <= j && 60 * j + 60 <= |envelope[60..]| ensures Trial(c, envelope[60..], userKey, j) == Err(BadTag) {
        TrialOfRest(c, envelope, userKey, j);
      }
      LinearOpenNone(c, envelope[60..], userKey);
    }
  }

  // ---------- Indexed envelopes ----------

  function RecordCount(envelope: Bytes): nat
    requires |envelope| >= NONCE_BYTES
  {
    (|envelope| - NONCE_BYTES) / 88
  }

  lemma RecordInBounds(envelope: Bytes, i: int)
    requires |envelope| >= NONCE_BYTES && 0 <= i < RecordCount(envelope)
    ensures 0 <= NONCE_BYTES + 88 * i <= NONCE_BYTES + 88 * (i + 1) <= |envelope|
  {
  }

  function Record(envelope: Bytes, i: nat): (r: Bytes)
    requires |envelope| >= NONCE_BYTES && i < RecordCount(envelope)
    ensures |r| == RECORD_BYTES
  {
    RecordInBounds(envelope, i);
    envelope[NONCE_BYTES + 88 * i..NONCE_BYTES + 88 * (i + 1)]
  }

  /** The hashes of an envelope, in the order in which they lie. */
  function Hashes(envelope: Bytes): (hs: seq<Bytes>)
    requires |envelope| >= NONCE_BYTES
    ensures |hs| == RecordCount(envelope)
    ensures forall i :: 0 <= i < |hs| ==> hs[i] == Record(envelope, i)[..HASH_BYTES]
  {
    seq(RecordCount(envelope), i requires 0 <= i < RecordCount(envelope) => Record(envelope, i)[..HASH_BYTES])
  }

  /** Zeros fill a user key shorter than 32 bytes before hashing. */
  function HashToFind(c: Suite, envelope: Bytes, userKey: Bytes): Bytes
    requires |envelope| >= NONCE_BYTES
  {
    c.sha224(envelope[..NONCE_BYTES] + Resize(userKey, KEY_BYTES))
  }

  /** The meaning of opening an indexed envelope: decrypt the record that the search finds. */
  function IndexedOpen(c: Suite, envelope: Bytes, userKey: Bytes): Result {
    if |envelope| < NONCE_BYTES || |userKey| > KEY_BYTES then Err(IndexOutOfBounds)
    else
      var hs, target := Hashes(envelope), HashToFind(c, envelope, userKey);
      FoundIsMatch(hs, target, 0, |hs| - 1);
      match Find(hs, target).found
      case None => Err(NotInEnvelope)
      case Some(i) => DecryptAes(c, Record(envelope, i)[HASH_BYTES..], userKey, [])
  }

  ghost function ProbesOf(c: Suite, envelope: Bytes, userKey: Bytes): nat {
    if |envelope| < NONCE_BYTES || |userKey| > KEY_BYTES then 0
    else Find(Hashes(envelope), HashToFind(c, envelope, userKey)).probes
  }

  /** The digest input: nonce, then the user key, in a zeroed 44-byte array. */
  method DigestOf(c: Suite, envelope: Bytes, userKey: Bytes) returns (hash: Bytes)
    requires |envelope| >= NONCE_BYTES && |userKey| <= KEY_BYTES
    ensures hash == HashToFind(c, envelope, userKey)
  {
    var buffer := new byte[NONCE_BYTES + KEY_BYTES](_ => 0);
    forall i | 0 <= i < NONCE_BYTES { buffer[i] := envelope[i]; }
    forall i | 0 <= i < |userKey| { buffer[NONCE_BYTES + i] := userKey[i]; }
    assert buffer[..] == envelope[..NONCE_BYTES] + Resize(userKey, KEY_BYTES);
    hash := c.sha224(buffer[..]);
  }

  /** The index arithmetic of one probe, in 32-bit Ints, as the source writes it: nothing overflows
      for any envelope that a Java array can hold, and the offsets are those of the record. */
  method ProbeOffsets(envelope: Bytes, left: int32, right: int32) returns (currentIndex: int32, position: int32)
    requires NONCE_BYTES <= |envelope| < INT_LIMIT && 0 <= left <= right && right as int < RecordCount(envelope)
    ensures left <= currentIndex <= right && currentIndex as int == left as int + (right as int - left as int) / 2
    ensures 0 <= position && position as int == 88 * currentIndex as int
    ensures position as int + RECORD_BYTES <= |envelope| - NONCE_BYTES
    ensures var at := NONCE_BYTES + position as int;
            && envelope[at..at + HASH_BYTES] == Hashes(envelope)[currentIndex]
            && envelope[at + HASH_BYTES..at + RECORD_BYTES] == Record(envelope, currentIndex as int)[HASH_BYTES..]
  {
    currentIndex := left + (right - left) / 2;
    RecordInBounds(envelope, currentIndex as int);
    position := currentIndex * 88;
  }

  /** The first value of `right`. */
  method LastIndex(envelope: Bytes) returns (right: int32)
    requires NONCE_BYTES <= |envelope| < INT_LIMIT
    ensures right as int + 1 == |Hashes(envelope)|
  {
    var remaining: int32 := (|envelope| - NONCE_BYTES) as int32;
    right := remaining / 88 - 1;
  }

  /** One turn of the search loop: read the hash at the probe and compare it. */
  method ProbeHash(envelope: Bytes, hashToFind: Bytes, left: int32, right: int32)
    returns (position: int32, comparison: int32)
    requires NONCE_BYTES <= |envelope| < INT_LIMIT && |hashToFind| == HASH_BYTES
    requires 0 <= left <= right && right as int < RecordCount(envelope)
    ensures var i := left as int + (right as int - left as int) / 2;
            && position as int == 88 * i
            && (comparison == 0 <==> Hashes(envelope)[i] == hashToFind)
            && (comparison < 0 <==> Less(Hashes(envelope)[i], hashToFind))
  {
    var currentIndex;
    currentIndex, position := ProbeOffsets(envelope, left, right);
    var at := NONCE_BYTES + position as int;
    comparison := CompareTo(envelope[at..at + HASH_BYTES], hashToFind);
  }

  /** What the bounds stand for: the whole search is the search between them, after the probes so far. */
  ghost predicate Narrowed(hs: seq<Bytes>, target: Bytes, left: int, right: int, probes: nat) {
    0 <= left <= right + 1 <= |hs| && Find(hs, target) == After(SearchFrom(hs, target, left, right), probes)
  }

  lemma NarrowStep(hs: seq<Bytes>, target: Bytes, left: int, right: int, probes: nat)
    requires left <= right && Narrowed(hs, target, left, right, probes)
    ensures var i := left + (right - left) / 2;
            && 0 <= i < |hs|
            && (hs[i] == target ==> Find(hs, target) == Probe(Some(i), probes + 1))
            && (hs[i] != target && Less(hs[i], target) ==> Narrowed(hs, target, left + 1, right, probes + 1))
            && (hs[i] != target && !Less(hs[i], target) ==> Narrowed(hs, target, left, right - 1, probes + 1))
  {
    SearchStep(hs, target, left, right, probes);
  }

  lemma NarrowedToNothing(hs: seq<Bytes>, target: Bytes, left: int, right: int, probes: nat)
    requires left > right && Narrowed(hs, target, left, right, probes)
    ensures Find(hs, target) == Probe(None, probes)
  {
  }

  /** The search loop of `IndexedEnvelope.open`, in 32-bit Ints over the bytes of the envelope: the
      position of the record found, behind the nonce, or -1 when the bounds cross. */
  method FindRecord(envelope: Bytes, hashToFind: Bytes) returns (found: int32, ghost probes: nat)
    requires NONCE_BYTES <= |envelope| < INT_LIMIT && |hashToFind| == HASH_BYTES
    ensures match Find(Hashes(envelope), hashToFind).found
            case None => found == -1
            case Some(i) => found as int == 88 * i
    ensures probes == Find(Hashes(envelope), hashToFind).probes
  {
    ghost var hs := Hashes(envelope);
    probes := 0;
    var left: int32 := 0;
    var right := LastIndex(envelope);
    while left <= right
      invariant 0 <= left && right as int < |hs|
      invariant Narrowed(hs, hashToFind, left as int, right as int, probes)
      decreases right as int - left as int
    {
      NarrowStep(hs, hashToFind, left as int, right as int, probes);
      probes := probes + 1;
      var position, comparison := ProbeHash(envelope, hashToFind, left, right);
      if comparison == 0 { return position, probes; }
      if comparison < 0 { left := left + 1; } else { right := right - 1; }
    }
    NarrowedToNothing(hs, hashToFind, left as int, right as int, probes);
    found := -1;
  }

  /** `IndexedEnvelope.open`. */
  method OpenIndexed(c: Suite, envelope: Bytes, userKey: Bytes) returns (r: Result, ghost probes: nat)
    requires DigestLength(c) && |envelope| < INT_LIMIT
    ensures r == IndexedOpen(c, envelope, userKey)
    ensures probes == ProbesOf(c, envelope, userKey)
  {
    if |envelope| < NONCE_BYTES || |userKey| > KEY_BYTES { return Err(IndexOutOfBounds), 0; }
    var hashToFind := DigestOf(c, envelope, userKey);
    var position;
    position, probes := FindRecord(envelope, hashToFind);
    if position < 0 { return Err(NotInEnvelope), probes; }
    FoundIsMatch(Hashes(envelope), hashToFind, 0, |Hashes(envelope)| - 1);
    ghost var found := Find(Hashes(envelope), hashToFind).found.value;
    RecordInBounds(envelope, found);
    var at := NONCE_BYTES + position as int + HASH_BYTES;
    var encryptedKey := envelope[at..at + ENCRYPTED_KEY_BYTES];
    assert encryptedKey == Record(envelope, found)[HASH_BYTES..];
    r := DecryptAes(c, encryptedKey, userKey, []);
  }

  /** Whatever the envelope, sorted or not, a key comes out only of a record that carries the hash
      of the user's key. */
  lemma OpenedComesFromMatch(c: Suite, envelope: Bytes, userKey: Bytes)
    requires IndexedOpen(c, envelope, userKey).Ok?
    ensures |envelope| >= NONCE_BYTES
    ensures exists i: nat | i < RecordCount(envelope) ::
              && Record(envelope, i)[..HASH_BYTES] == HashToFind(c, envelope, userKey)
              && DecryptAes(c, Record(envelope, i)[HASH_BYTES..], userKey, []) == IndexedOpen(c, envelope, userKey)
  {
    var hs, target := Hashes(envelope), HashToFind(c, envelope, userKey);
    FoundIsMatch(hs, target, 0, |hs| - 1);
    var i := Find(hs, target).found.value;
    assert Record(envelope, i)[..HASH_BYTES] == hs[i];
  }

  /** By bytes, on any envelope whose hashes increase: the record with the hash of nonce and key decides. */
  lemma SortedEnvelopeOpen(c: Suite, envelope: Bytes, userKey: Bytes, i: nat)
    requires |envelope| >= 12 && |userKey| <= 32 && StrictlySorted(Hashes(envelope))
    requires 12 + 88 * i + 88 <= |envelope|
    requires envelope[12 + 88 * i..12 + 88 * i + 28] == c.sha224(envelope[..12] + Resize(userKey, 32))
    ensures IndexedOpen(c, envelope, userKey) ==
            DecryptAes(c, envelope[12 + 88 * i + 28..12 + 88 * i + 88], userKey, [])
  {
    var hs := Hashes(envelope);
    RecordInBounds(envelope, i);
    assert Record(envelope, i)[..28] == envelope[12 + 88 * i..12 + 88 * i + 28];
    assert Record(envelope, i)[28..] == envelope[12 + 88 * i + 28..12 + 88 * i + 88];
    SortedPresent(hs, hs[i], i);
  }

  /** Without such a record, and for data that the source cannot copy, opening fails. */
  lemma IndexedOpenFails(c: Suite, envelope: Bytes, userKey: Bytes)
    ensures IndexedOpen(c, envelope, userKey) == Err(IndexOutOfBounds) <==> |envelope| < 12 || |userKey| > 32
    ensures |envelope| >= 12 && |userKey| <= 32
            && (forall i :: 0 <= i && 12 + 88 * i + 88 <= |envelope| ==>
                  envelope[12 + 88 * i..12 + 88 * i + 28] != c.sha224(envelope[..12] + Resize(userKey, 32)))
            ==> IndexedOpen(c, envelope, userKey) == Err(NotInEnvelope)
  {
    if |envelope| >= 12 && |userKey| <= 32
       && (forall i :: 0 <= i && 12 + 88 * i + 88 <= |envelope| ==>
             envelope[12 + 88 * i..12 + 88 * i + 28] != c.sha224(envelope[..12] + Resize(userKey, 32)))
    {
      NoRecordNotFound(c, envelope, userKey);
    }
  }

  lemma NoRecordNotFound(c: Suite, envelope: Bytes, userKey: Bytes)
    requires |envelope| >= 12 && |userKey| <= 32
    requires forall i :: 0 <= i && 12 + 88 * i + 88 <= |envelope| ==>
               envelope[12 + 88 * i..12 + 88 * i + 28] != c.sha224(envelope[..12] + Resize(userKey, 32))
    ensures IndexedOpen(c, envelope, userKey) == Err(NotInEnvelope)
  {
    var hs, target := Hashes(envelope), HashToFind(c, envelope, userKey);
    forall i | 0 <= i < |hs| ensures hs[i] != target {
      RecordInBounds(envelope, i);
      assert Record(envelope, i)[..28] == envelope[12 + 88 * i..12 + 88 * i + 28];
    }
    AbsentNotFound(hs, target);
  }
}
