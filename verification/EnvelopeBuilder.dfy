/** Building an envelope on the server (`AnonymBE::generate_envelope`), and what the client makes
    of it. */
module EnvelopeBuilder {
  import opened Bytes
  import opened Ordered
  import opened Options
  import opened Crypto
  import opened Search
  import opened Envelope

  type Ivs = nat -> Iv

  function Digest(c: Suite, nonce: Iv, key: Bytes): Bytes {
    c.sha224(nonce + key)
  }

  /** `Crypto::encrypt_aesgcm`: IV, ciphertext and tag. */
  function SealKey(c: Suite, key: Key, bucket: Key, iv: Iv): Bytes {
    iv + c.seal(key, iv, [], bucket)
  }

  /** Strings appended one after the other. */
  function Flat(rs: seq<Bytes>): Bytes {
    if rs == [] then [] else rs[0] + Flat(rs[1..])
  }

  lemma {:induction false} FlatAppend(rs: seq<Bytes>, r: Bytes)
    ensures Flat(rs + [r]) == Flat(rs) + r
  {
    if rs == [] {
      assert [r][1..] == [] && [] + [r] == [r];
    } else {
      FlatAppend(rs[1..], r);
      assert (rs + [r])[1..] == rs[1..] + [r];
      assert rs[0] + (Flat(rs[1..]) + r) == rs[0] + Flat(rs[1..]) + r;
    }
  }

  /** `orderedhashes` after the keys have been entered in turn: a later key replaces an earlier one
      that has the same digest. */
  function Index(c: Suite, nonce: Iv, keys: seq<Key>, bucket: Key, ivs: Ivs): (m: seq<Entry>)
    ensures Sorted(m) && |m| <= |keys|
  {
    if keys == [] then []
    else
      var n := |keys| - 1;
      Assign(Index(c, nonce, keys[..n], bucket, ivs), Digest(c, nonce, keys[n]), SealKey(c, keys[n], bucket, ivs(n)))
  }

  function IndexRecords(m: seq<Entry>): (rs: seq<Bytes>)
    ensures |rs| == |m| && forall i :: 0 <= i < |m| ==> rs[i] == m[i].key + m[i].value
  {
    seq(|m|, i requires 0 <= i < |m| => m[i].key + m[i].value)
  }

  function LinearRecords(c: Suite, keys: seq<Key>, bucket: Key, ivs: Ivs): (rs: seq<Bytes>)
    ensures |rs| == |keys|
    ensures forall i :: 0 <= i < |keys| ==> rs[i] == SealKey(c, keys[i], bucket, ivs(i))
  {
    seq(|keys|, i requires 0 <= i < |keys| => SealKey(c, keys[i], bucket, ivs(i)))
  }

  function IndexedEnvelope(c: Suite, nonce: Iv, keys: seq<Key>, bucket: Key, ivs: Ivs): Bytes {
    nonce + Flat(IndexRecords(Index(c, nonce, keys, bucket, ivs)))
  }

  function LinearEnvelope(c: Suite, keys: seq<Key>, bucket: Key, ivs: Ivs): Bytes {
    Flat(LinearRecords(c, keys, bucket, ivs))
  }

  method GenerateIndexed(c: Suite, keys: seq<Key>, bucket: Key, nonce: Iv, ivs: Ivs) returns (ctext: Bytes)
    ensures ctext == IndexedEnvelope(c, nonce, keys, bucket, ivs)
  {
    var orderedHashes: seq<Entry> := [];
    for i := 0 to |keys|
      invariant orderedHashes == Index(c, nonce, keys[..i], bucket, ivs)
    {
      assert keys[..i + 1][..i] == keys[..i];
      orderedHashes := Assign(orderedHashes, Digest(c, nonce, keys[i]), SealKey(c, keys[i], bucket, ivs(i)));
    }
    assert keys[..|keys|] == keys;
    ctext := WriteIndex(nonce, orderedHashes);
  }

  method WriteIndex(nonce: Iv, orderedHashes: seq<Entry>) returns (ctext: Bytes)
    ensures ctext == nonce + Flat(IndexRecords(orderedHashes))
  {
    ctext := nonce;
    ghost var rs := IndexRecords(orderedHashes);
    for i := 0 to |orderedHashes|
      invariant ctext == nonce + Flat(rs[..i])
    {
      FlatAppend(rs[..i], rs[i]);
      assert rs[..i + 1] == rs[..i] + [rs[i]];
      ctext := ctext + (orderedHashes[i].key + orderedHashes[i].value);
    }
    assert rs[..|rs|] == rs;
  }

  method GenerateLinear(c: Suite, keys: seq<Key>, bucket: Key, ivs: Ivs) returns (ctext: Bytes)
    ensures ctext == LinearEnvelope(c, keys, bucket, ivs)
  {
    ctext := [];
    ghost var rs := LinearRecords(c, keys, bucket, ivs);
    for i := 0 to |keys|
      invariant ctext == Flat(rs[..i])
    {
      FlatAppend(rs[..i], rs[i]);
      assert rs[..i + 1] == rs[..i] + [rs[i]];
      ctext := ctext + SealKey(c, keys[i], bucket, ivs(i));
    }
    assert rs[..|rs|] == rs;
  }

  // ---------- The layout of an indexed envelope ----------

  ghost predicate WellSized(m: seq<Entry>) {
    forall e :: e in m ==> |e.key| == HASH_BYTES && |e.value| == ENCRYPTED_KEY_BYTES
  }

  lemma {:induction false} FlatRecord(rs: seq<Bytes>, i: nat)
    requires forall r :: r in rs ==> |r| == 88
    ensures |Flat(rs)| == 88 * |rs|
    ensures i < |rs| ==> Flat(rs)[88 * i..88 * i + 88] == rs[i]
  {
    if rs != [] {
      FlatRecord(rs[1..], if i == 0 then 0 else i - 1);
      if 0 < i < |rs| {
        assert Flat(rs)[88 * i..88 * i + 88] == Flat(rs[1..])[88 * (i - 1)..88 * (i - 1) + 88];
      }
    }
  }

  /** Reading back: record by record, the index that was written. */
  lemma EnvelopeLayout(nonce: Iv, m: seq<Entry>)
    requires WellSized(m)
    ensures var e := nonce + Flat(IndexRecords(m));
            && |e| == NONCE_BYTES + RECORD_BYTES * |m| && e[..NONCE_BYTES] == nonce
            && RecordCount(e) == |m| && Hashes(e) == Keys(m)
            && forall i :: 0 <= i < |m| ==> Record(e, i)[HASH_BYTES..] == m[i].value
  {
    var rs := IndexRecords(m);
    var e := nonce + Flat(rs);
    FlatRecord(rs, 0);
    forall i | 0 <= i < |m|
      ensures Record(e, i)[..HASH_BYTES] == m[i].key && Record(e, i)[HASH_BYTES..] == m[i].value
    {
      FlatRecord(rs, i);
      RecordInBounds(e, i);
      assert m[i] in m;
      assert Record(e, i) == Flat(rs)[88 * i..88 * i + 88];
    }
  }

  lemma {:induction false} IndexWellSized(c: Suite, nonce: Iv, keys: seq<Key>, bucket: Key, ivs: Ivs)
    requires Correct(c)
    ensures WellSized(Index(c, nonce, keys, bucket, ivs))
  {
    if keys != [] { IndexWellSized(c, nonce, keys[..|keys| - 1], bucket, ivs); }
  }

  // ---------- Which key's record survives in the index ----------

  /** The last position whose key has digest `h`. */
  function LastWith(c: Suite, nonce: Iv, keys: seq<Key>, h: Bytes): (r: Option<nat>)
    ensures r.Some? ==> && r.value < |keys| && Digest(c, nonce, keys[r.value]) == h
                        && forall j :: r.value < j < |keys| ==> Digest(c, nonce, keys[j]) != h
    ensures r == None ==> forall j :: 0 <= j < |keys| ==> Digest(c, nonce, keys[j]) != h
  {
    if keys == [] then None
    else if Digest(c, nonce, keys[|keys| - 1]) == h then Some(|keys| - 1)
    else
      var r := LastWith(c, nonce, keys[..|keys| - 1], h);
      assert forall j :: 0 <= j < |keys| - 1 ==> keys[..|keys| - 1][j] == keys[j];
      r
  }

  lemma {:induction false} IndexMeaning(c: Suite, nonce: Iv, keys: seq<Key>, bucket: Key, ivs: Ivs, h: Bytes)
    ensures match LastWith(c, nonce, keys, h)
            case None => forall e :: e in Index(c, nonce, keys, bucket, ivs) ==> e.key != h
            case Some(i) => Entry(h, SealKey(c, keys[i], bucket, ivs(i))) in Index(c, nonce, keys, bucket, ivs)
  {
    if keys != [] {
      var n := |keys| - 1;
      IndexMeaning(c, nonce, keys[..n], bucket, ivs, h);
      if Digest(c, nonce, keys[n]) != h {
        assert LastWith(c, nonce, keys, h) == LastWith(c, nonce, keys[..n], h);
      }
    }
  }

  function DigestSet(c: Suite, nonce: Iv, keys: seq<Key>): set<Bytes> {
    set k | k in keys :: Digest(c, nonce, k)
  }

  function KeySet(m: seq<Entry>): set<Bytes> {
    set e | e in m :: e.key
  }

  lemma KeySetSplit(m: seq<Entry>)
    requires m != []
    ensures KeySet(m) == {m[0].key} + KeySet(m[1..])
  {
    assert m == [m[0]] + m[1..];
  }

  lemma FirstKeyIsNew(m: seq<Entry>)
    requires Sorted(m) && m != []
    ensures m[0].key !in KeySet(m[1..])
  {
    LessIrreflexive(m[0].key);
  }

  lemma {:induction false} SortedKeysDistinct(m: seq<Entry>)
    requires Sorted(m)
    ensures |KeySet(m)| == |m|
  {
    if m != [] {
      SortedKeysDistinct(m[1..]);
      FirstKeyIsNew(m);
      KeySetSplit(m);
    }
  }

  lemma SortedUnique(m: seq<Entry>, i: nat, e: Entry)
    requires Sorted(m) && i < |m| && e in m && e.key == m[i].key
    ensures e == m[i]
  {
    var j :| 0 <= j < |m| && m[j] == e;
    LessIrreflexive(e.key);
  }

  /** What a user key makes of the record sealed for `key`. */
  function Attempt(key: Key, bucket: Key, k: Bytes): Result {
    if !KeySizeOk(k) then Err(InvalidKey) else if k == key then Ok(bucket) else Err(BadTag)
  }

  lemma SealThenOpen(c: Suite, key: Key, bucket: Key, iv: Iv, k: Bytes)
    requires Correct(c) && (k == key || Refuses(c, key, iv, [], bucket, k, []))
    ensures DecryptAes(c, SealKey(c, key, bucket, iv), k, []) == Attempt(key, bucket, k)
  {
    var sealed := c.seal(key, iv, [], bucket);
    assert (iv + sealed)[..IV_BYTES] == iv && (iv + sealed)[IV_BYTES..] == sealed;
  }

  ghost predicate OpensRecord(c: Suite, nonce: Iv, keys: seq<Key>, bucket: Key, e: Entry, k: Key) {
    k in keys && Digest(c, nonce, k) == e.key && DecryptAes(c, e.value, k, []) == Ok(bucket)
  }

  lemma EntryOpens(c: Suite, nonce: Iv, keys: seq<Key>, bucket: Key, ivs: Ivs, e: Entry)
    requires Correct(c) && e in Index(c, nonce, keys, bucket, ivs)
    ensures exists k :: OpensRecord(c, nonce, keys, bucket, e, k)
  {
    var m := Index(c, nonce, keys, bucket, ivs);
    IndexMeaning(c, nonce, keys, bucket, ivs, e.key);
    var j := LastWith(c, nonce, keys, e.key).value;
    var i :| 0 <= i < |m| && m[i] == e;
    SortedUnique(m, i, Entry(e.key, SealKey(c, keys[j], bucket, ivs(j))));
    SealThenOpen(c, keys[j], bucket, ivs(j), keys[j]);
    assert OpensRecord(c, nonce, keys, bucket, e, keys[j]);
  }

  lemma IndexHasDigest(c: Suite, nonce: Iv, keys: seq<Key>, bucket: Key, ivs: Ivs)
    ensures DigestSet(c, nonce, keys) == KeySet(Index(c, nonce, keys, bucket, ivs))
  {
    var m := Index(c, nonce, keys, bucket, ivs);
    forall h ensures h in DigestSet(c, nonce, keys) <==> h in KeySet(m) {
      IndexMeaning(c, nonce, keys, bucket, ivs, h);
    }
  }

  ghost predicate RecordOpens(c: Suite, nonce: Iv, keys: seq<Key>, bucket: Key, e: Bytes, i: nat)
    requires |e| >= NONCE_BYTES && i < RecordCount(e)
  {
    exists k :: OpensRecord(c, nonce, keys, bucket, Entry(Hashes(e)[i], Record(e, i)[HASH_BYTES..]), k)
  }

  lemma EnvelopeRecordOpens(c: Suite, nonce: Iv, keys: seq<Key>, bucket: Key, ivs: Ivs, i: nat)
    requires Correct(c) && i < |Index(c, nonce, keys, bucket, ivs)|
    ensures var e := IndexedEnvelope(c, nonce, keys, bucket, ivs);
            |e| >= NONCE_BYTES && i < RecordCount(e) && RecordOpens(c, nonce, keys, bucket, e, i)
  {
    var m := Index(c, nonce, keys, bucket, ivs);
    IndexWellSized(c, nonce, keys, bucket, ivs);
    EnvelopeLayout(nonce, m);
    EntryOpens(c, nonce, keys, bucket, ivs, m[i]);
    var k :| OpensRecord(c, nonce, keys, bucket, m[i], k);
    var e := IndexedEnvelope(c, nonce, keys, bucket, ivs);
    assert m[i] == Entry(Hashes(e)[i], Record(e, i)[HASH_BYTES..]);
  }

  /** The builder's output is a well-formed index: 12 + 88m bytes for m distinct digests, digests
      strictly increasing in the client's order, each record decrypting under a member's key with
      that digest to the bucket key. */
  lemma IndexedEnvelopeWellFormed(c: Suite, nonce: Iv, keys: seq<Key>, bucket: Key, ivs: Ivs)
    requires Correct(c)
    ensures var e, m := IndexedEnvelope(c, nonce, keys, bucket, ivs), |DigestSet(c, nonce, keys)|;
            && |e| == 12 + 88 * m && m <= |keys| && RecordCount(e) == m
            && StrictlySorted(Hashes(e))
            && forall i :: 0 <= i < m ==> RecordOpens(c, nonce, keys, bucket, e, i)
  {
    var m := Index(c, nonce, keys, bucket, ivs);
    IndexHasDigest(c, nonce, keys, bucket, ivs);
    SortedKeysDistinct(m);
    IndexWellSized(c, nonce, keys, bucket, ivs);
    EnvelopeLayout(nonce, m);
    var e := IndexedEnvelope(c, nonce, keys, bucket, ivs);
    assert RecordCount(e) == |m|;
    forall i | 0 <= i < |m| ensures RecordOpens(c, nonce, keys, bucket, e, i) {
      EnvelopeRecordOpens(c, nonce, keys, bucket, ivs, i);
    }
  }

  // ---------- Byte by byte ----------

  /** The record at byte `at` was made for keys[j]: digest, IV, sealed bucket key. */
  ghost predicate IndexedRecordAt(c: Suite, nonce: Iv, keys: seq<Key>, bucket: Key, ivs: Ivs, e: Bytes, at: nat,
                                  j: nat) {
    && j < |keys| && at + 88 <= |e|
    && e[at..at + 28] == c.sha224(nonce + keys[j])
    && e[at + 28..at + 40] == ivs(j)
    && e[at + 40..at + 88] == c.seal(keys[j], ivs(j), [], bucket)
  }

  lemma SealedRecordBytes(c: Suite, key: Key, bucket: Key, iv: Iv, r: Bytes)
    requires Correct(c) && r == SealKey(c, key, bucket, iv)
    ensures |r| == 60 && r[..12] == iv && r[12..60] == c.seal(key, iv, [], bucket)
  {
  }

  lemma IndexedRecordBytes(c: Suite, nonce: Iv, keys: seq<Key>, bucket: Key, ivs: Ivs, e: Bytes, at: nat, j: nat)
    requires Correct(c) && j < |keys| && at + 88 <= |e|
    requires e[at..at + 28] == Digest(c, nonce, keys[j]) && e[at + 28..at + 88] == SealKey(c, keys[j], bucket, ivs(j))
    ensures IndexedRecordAt(c, nonce, keys, bucket, ivs, e, at, j)
  {
    var r := e[at + 28..at + 88];
    SealedRecordBytes(c, keys[j], bucket, ivs(j), r);
    assert e[at + 28..at + 40] == r[..12] && e[at + 40..at + 88] == r[12..60];
  }

  /** Entry i of the index is that of the last key with its digest. */
  lemma IndexEntry(c: Suite, nonce: Iv, keys: seq<Key>, bucket: Key, ivs: Ivs, i: nat) returns (j: nat)
    requires i < |Index(c, nonce, keys, bucket, ivs)|
    ensures j < |keys| && forall j' :: j < j' < |keys| ==> Digest(c, nonce, keys[j']) != Digest(c, nonce, keys[j])
    ensures Index(c, nonce, keys, bucket, ivs)[i] ==
            Entry(Digest(c, nonce, keys[j]), SealKey(c, keys[j], bucket, ivs(j)))
  {
    var m := Index(c, nonce, keys, bucket, ivs);
    IndexMeaning(c, nonce, keys, bucket, ivs, m[i].key);
    assert m[i] in m;
    j := LastWith(c, nonce, keys, m[i].key).value;
    SortedUnique(m, i, Entry(m[i].key, SealKey(c, keys[j], bucket, ivs(j))));
  }

  /** The bytes behind the nonce of an indexed envelope: every 88 bytes the SHA-224 of nonce and key, the IV and
      the bucket key sealed for that key, where the key is the last one with its digest. */
  lemma IndexedEnvelopeBytes(c: Suite, nonce: Iv, keys: seq<Key>, bucket: Key, ivs: Ivs, i: nat) returns (j: nat)
    requires Correct(c) && i < |DigestSet(c, nonce, keys)|
    ensures IndexedRecordAt(c, nonce, keys, bucket, ivs, IndexedEnvelope(c, nonce, keys, bucket, ivs), 12 + 88 * i, j)
    ensures forall j' :: j < j' < |keys| ==> c.sha224(nonce + keys[j']) != c.sha224(nonce + keys[j])
  {
    IndexedEnvelopeSize(c, nonce, keys, bucket, ivs);
    j := IndexEntry(c, nonce, keys, bucket, ivs, i);
    EntryIsRecord(c, nonce, keys, bucket, ivs, i, j);
  }

  lemma EntryIsRecord(c: Suite, nonce: Iv, keys: seq<Key>, bucket: Key, ivs: Ivs, i: nat, j: nat)
    requires Correct(c) && i < |Index(c, nonce, keys, bucket, ivs)| && j < |keys|
    requires Index(c, nonce, keys, bucket, ivs)[i] ==
             Entry(Digest(c, nonce, keys[j]), SealKey(c, keys[j], bucket, ivs(j)))
    ensures IndexedRecordAt(c, nonce, keys, bucket, ivs, IndexedEnvelope(c, nonce, keys, bucket, ivs), 12 + 88 * i, j)
  {
    EntryBytes(c, nonce, keys, bucket, ivs, i);
    IndexedRecordBytes(c, nonce, keys, bucket, ivs, IndexedEnvelope(c, nonce, keys, bucket, ivs), 12 + 88 * i, j);
  }

  /** An indexed envelope is the nonce and 88 bytes for every distinct digest. */
  lemma IndexedEnvelopeSize(c: Suite, nonce: Iv, keys: seq<Key>, bucket: Key, ivs: Ivs)
    requires Correct(c)
    ensures var m, e := Index(c, nonce, keys, bucket, ivs), IndexedEnvelope(c, nonce, keys, bucket, ivs);
            |m| == |DigestSet(c, nonce, keys)| && |e| == 12 + 88 * |m| && e[..12] == nonce
  {
    var m := Index(c, nonce, keys, bucket, ivs);
    IndexHasDigest(c, nonce, keys, bucket, ivs);
    SortedKeysDistinct(m);
    IndexWellSized(c, nonce, keys, bucket, ivs);
    EnvelopeLayout(nonce, m);
  }

  lemma EntryBytes(c: Suite, nonce: Iv, keys: seq<Key>, bucket: Key, ivs: Ivs, i: nat)
    requires Correct(c) && i < |Index(c, nonce, keys, bucket, ivs)|
    ensures var m, e := Index(c, nonce, keys, bucket, ivs), IndexedEnvelope(c, nonce, keys, bucket, ivs);
            && 12 + 88 * i + 88 <= |e| && e[12 + 88 * i..12 + 88 * i + 28] == m[i].key
            && e[12 + 88 * i + 28..12 + 88 * i + 88] == m[i].value
  {
    IndexWellSized(c, nonce, keys, bucket, ivs);
    EnvelopeLayout(nonce, Index(c, nonce, keys, bucket, ivs));
    RecordAsSlices(IndexedEnvelope(c, nonce, keys, bucket, ivs), i);
  }

  lemma RecordAsSlices(e: Bytes, i: nat)
    requires |e| >= 12 && i < RecordCount(e)
    ensures 12 + 88 * i + 88 <= |e|
    ensures e[12 + 88 * i..12 + 88 * i + 28] == Hashes(e)[i]
    ensures e[12 + 88 * i + 28..12 + 88 * i + 88] == Record(e, i)[28..]
  {
    RecordInBounds(e, i);
    assert Record(e, i) == e[12 + 88 * i..12 + 88 * i + 88];
  }

  /** The bytes of a linear envelope: every 60 bytes the IV and the bucket key sealed for the next key. */
  lemma {:induction false} LinearEnvelopeBytes(c: Suite, keys: seq<Key>, bucket: Key, ivs: Ivs, i: nat)
    requires Correct(c)
    ensures var e := LinearEnvelope(c, keys, bucket, ivs);
            && |e| == 60 * |keys|
            && (i < |keys| ==> && e[60 * i..60 * i + 12] == ivs(i)
                               && e[60 * i + 12..60 * i + 60] == c.seal(keys[i], ivs(i), [], bucket))
    decreases |keys|
  {
    if keys != [] {
      var e := LinearEnvelope(c, keys, bucket, ivs);
      LinearEnvelopeFront(c, keys, bucket, ivs);
      LinearEnvelopeBytes(c, keys[1..], bucket, i => ivs(i + 1), if i == 0 then 0 else i - 1);
      if i == 0 {
        SealedRecordBytes(c, keys[0], bucket, ivs(0), e[..60]);
        assert e[60 * i..60 * i + 12] == e[..60][..12] && e[60 * i + 12..60 * i + 60] == e[..60][12..60];
      } else if i < |keys| {
        RestSlices(e, i);
      }
    }
  }

  lemma RestSlices(e: Bytes, i: nat)
    requires i > 0 && 60 * i + 60 <= |e|
    ensures e[60 * i..60 * i + 12] == e[60..][60 * (i - 1)..60 * (i - 1) + 12]
    ensures e[60 * i + 12..60 * i + 60] == e[60..][60 * (i - 1) + 12..60 * (i - 1) + 60]
  {
    DropThenSlice(e, 60, 60 * i, 60 * i + 12);
    DropThenSlice(e, 60, 60 * i + 12, 60 * i + 60);
  }

  lemma DropThenSlice(e: Bytes, k: nat, lo: nat, hi: nat)
    requires k <= lo <= hi <= |e|
    ensures e[k..][lo - k..hi - k] == e[lo..hi]
  {
  }

  // ---------- What opens ----------

  /** The searched hash determines the outcome: the record of the last key with that digest. */
  lemma IndexedOpenMeaning(c: Suite, nonce: Iv, keys: seq<Key>, bucket: Key, ivs: Ivs, k: Bytes)
    requires Correct(c) && |k| <= KEY_BYTES
    ensures IndexedOpen(c, IndexedEnvelope(c, nonce, keys, bucket, ivs), k) ==
            match LastWith(c, nonce, keys, Digest(c, nonce, Resize(k, KEY_BYTES)))
            case None => Err(NotInEnvelope)
            case Some(i) => DecryptAes(c, SealKey(c, keys[i], bucket, ivs(i)), k, [])
  {
    var m, e := Index(c, nonce, keys, bucket, ivs), IndexedEnvelope(c, nonce, keys, bucket, ivs);
    var h := Digest(c, nonce, Resize(k, KEY_BYTES));
    IndexWellSized(c, nonce, keys, bucket, ivs);
    EnvelopeLayout(nonce, m);
    IndexMeaning(c, nonce, keys, bucket, ivs, h);
    FindAgreesWithScan(Keys(m), h);
    match LastWith(c, nonce, keys, h) {
      case None =>
        assert forall i :: 0 <= i < |m| ==> m[i] in m;
      case Some(j) =>
        var x := Entry(h, SealKey(c, keys[j], bucket, ivs(j)));
        var i :| 0 <= i < |m| && m[i] == x;
        assert Keys(m)[i] == h;
        SortedUnique(m, Scan(Keys(m), h).value, x);
    }
  }

  /** A key is shadowed when a key with the same digest, but a different one, was entered last. */
  predicate Shadowed(c: Suite, nonce: Iv, keys: seq<Key>, k: Bytes) {
    k in keys && keys[LastWith(c, nonce, keys, Digest(c, nonce, k)).value] != k
  }

  /** The suite is correct, and each record made for another key refuses k. */
  ghost predicate OthersRefuse(c: Suite, keys: seq<Key>, bucket: Key, ivs: Ivs, k: Bytes) {
    Correct(c) && forall i :: 0 <= i < |keys| && keys[i] != k ==> Refuses(c, keys[i], ivs(i), [], bucket, k, [])
  }

  /** Exactly which keys open an indexed envelope: those of the members, unless shadowed. */
  lemma IndexedOpensIff(c: Suite, nonce: Iv, keys: seq<Key>, bucket: Key, ivs: Ivs, k: Bytes)
    requires OthersRefuse(c, keys, bucket, ivs, k)
    ensures var r := IndexedOpen(c, IndexedEnvelope(c, nonce, keys, bucket, ivs), k);
            && (r.Ok? <==> k in keys && !Shadowed(c, nonce, keys, k))
            && (r.Ok? ==> r == Ok(bucket))
            && (Shadowed(c, nonce, keys, k) ==> r == Err(BadTag))
  {
    if |k| <= KEY_BYTES {
      IndexedOpenMeaning(c, nonce, keys, bucket, ivs, k);
      var last := LastWith(c, nonce, keys, Digest(c, nonce, Resize(k, KEY_BYTES)));
      if last.Some? { SealThenOpen(c, keys[last.value], bucket, ivs(last.value), k); }
      if k in keys { assert Resize(k, KEY_BYTES) == k; }
    }
  }

  lemma LinearEnvelopeFront(c: Suite, keys: seq<Key>, bucket: Key, ivs: Ivs)
    requires keys != [] && Correct(c)
    ensures var e := LinearEnvelope(c, keys, bucket, ivs);
            && |e| >= ENCRYPTED_KEY_BYTES
            && e[..ENCRYPTED_KEY_BYTES] == SealKey(c, keys[0], bucket, ivs(0))
            && e[ENCRYPTED_KEY_BYTES..] == LinearEnvelope(c, keys[1..], bucket, i => ivs(i + 1))
  {
    assert LinearRecords(c, keys, bucket, ivs)[1..] == LinearRecords(c, keys[1..], bucket, i => ivs(i + 1));
  }

  lemma RestRefuse(c: Suite, keys: seq<Key>, bucket: Key, ivs: Ivs, k: Bytes)
    requires keys != [] && OthersRefuse(c, keys, bucket, ivs, k)
    ensures OthersRefuse(c, keys[1..], bucket, i => ivs(i + 1), k)
  {
    forall i | 0 <= i < |keys[1..]| && keys[1..][i] != k
      ensures Refuses(c, keys[1..][i], ivs(i + 1), [], bucket, k, [])
    {
      assert keys[i + 1] == keys[1..][i];
    }
  }

  /** A linear envelope opens with exactly the keys of the members. */
  lemma {:induction false} LinearOpensIff(c: Suite, keys: seq<Key>, bucket: Key, ivs: Ivs, k: Bytes)
    requires OthersRefuse(c, keys, bucket, ivs, k)
    ensures var r := LinearOpen(c, LinearEnvelope(c, keys, bucket, ivs), k);
            && (r.Ok? <==> k in keys)
            && (r.Ok? ==> r == Ok(bucket))
    decreases |keys|
  {
    if keys != [] {
      var rest := keys[1..];
      LinearOpenStep(c, keys, bucket, ivs, k);
      RestRefuse(c, keys, bucket, ivs, k);
      LinearOpensIff(c, rest, bucket, i => ivs(i + 1), k);
      assert keys == [keys[0]] + rest;
    }
  }

  /** The first record answers, or refuses and leaves the rest to answer. */
  lemma LinearOpenStep(c: Suite, keys: seq<Key>, bucket: Key, ivs: Ivs, k: Bytes)
    requires keys != [] && OthersRefuse(c, keys, bucket, ivs, k)
    ensures LinearOpen(c, LinearEnvelope(c, keys, bucket, ivs), k) ==
            if Attempt(keys[0], bucket, k) == Err(BadTag)
            then LinearOpen(c, LinearEnvelope(c, keys[1..], bucket, i => ivs(i + 1)), k)
            else Attempt(keys[0], bucket, k)
  {
    LinearEnvelopeFront(c, keys, bucket, ivs);
    SealThenOpen(c, keys[0], bucket, ivs(0), k);
  }

  predicate SameOrBothFail(a: Result, b: Result) {
    a == b || (a.Err? && b.Err?)
  }

  /** The index agrees with the plain envelope it speeds up exactly when the opener is not shadowed. */
  lemma ModesAgreeIff(c: Suite, nonce: Iv, keys: seq<Key>, bucket: Key, ivs: Ivs, ivs': Ivs, k: Bytes)
    requires OthersRefuse(c, keys, bucket, ivs, k) && OthersRefuse(c, keys, bucket, ivs', k)
    ensures SameOrBothFail(IndexedOpen(c, IndexedEnvelope(c, nonce, keys, bucket, ivs), k),
                           LinearOpen(c, LinearEnvelope(c, keys, bucket, ivs'), k))
            <==> !Shadowed(c, nonce, keys, k)
  {
    IndexedOpensIff(c, nonce, keys, bucket, ivs, k);
    LinearOpensIff(c, keys, bucket, ivs', k);
  }

  /** No two keys in play share a digest under this nonce. */
  ghost predicate NoCollision(c: Suite, nonce: Iv, keys: set<Bytes>) {
    forall a, b :: a in keys && b in keys && Digest(c, nonce, a) == Digest(c, nonce, b) ==> a == b
  }

  lemma NoCollisionNotShadowed(c: Suite, nonce: Iv, keys: seq<Key>, k: Bytes)
    requires NoCollision(c, nonce, set x | x in keys)
    ensures !Shadowed(c, nonce, keys, k)
  {
  }

  /** Without a collision in the group, both modes give every opener the same key or fail alike. */
  lemma ModesAgreeWithoutCollision(c: Suite, nonce: Iv, keys: seq<Key>, bucket: Key, ivs: Ivs, ivs': Ivs, k: Bytes)
    requires OthersRefuse(c, keys, bucket, ivs, k) && OthersRefuse(c, keys, bucket, ivs', k)
    requires NoCollision(c, nonce, set x | x in keys)
    ensures SameOrBothFail(IndexedOpen(c, IndexedEnvelope(c, nonce, keys, bucket, ivs), k),
                           LinearOpen(c, LinearEnvelope(c, keys, bucket, ivs'), k))
  {
    NoCollisionNotShadowed(c, nonce, keys, k);
    ModesAgreeIff(c, nonce, keys, bucket, ivs, ivs', k);
  }

  /** A collision does lock a member out: with the toy digest, which ignores the head of a key, the first
      of two members whose keys differ there cannot open the indexed envelope, while the linear one opens. */
  lemma CollisionShadows(nonce: Iv, a: Key, b: Key, bucket: Key, ivs: Ivs)
    requires a[4..] == b[4..] && a[..4] != b[..4]
    ensures IndexedOpen(Toy(), IndexedEnvelope(Toy(), nonce, [a, b], bucket, ivs), a) == Err(BadTag)
    ensures LinearOpen(Toy(), LinearEnvelope(Toy(), [a, b], bucket, ivs), a) == Ok(bucket)
  {
    PairRefuses(a, b, bucket, ivs);
    PairShadows(nonce, a, b);
    IndexedOpensIff(Toy(), nonce, [a, b], bucket, ivs, a);
    LinearOpensIff(Toy(), [a, b], bucket, ivs, a);
  }

  lemma PairRefuses(a: Key, b: Key, bucket: Key, ivs: Ivs)
    requires a[..4] != b[..4]
    ensures OthersRefuse(Toy(), [a, b], bucket, ivs, a)
  {
    assert Resize(a, 8)[..4] == a[..4] && Resize(b, 8)[..4] == b[..4];
    HypothesesSatisfiable(b, a, ivs(1), [], [], bucket);
  }

  lemma PairShadows(nonce: Iv, a: Key, b: Key)
    requires a[4..] == b[4..] && a != b
    ensures Shadowed(Toy(), nonce, [a, b], a)
  {
    ToyDigestIgnoresHead(nonce, a, b);
    var keys: seq<Key> := [a, b];
    assert keys[0] == a && keys[1] == b;
  }

  lemma ToyDigestIgnoresHead(nonce: Iv, a: Key, b: Key)
    requires a[4..] == b[4..]
    ensures Digest(Toy(), nonce, a) == Digest(Toy(), nonce, b)
  {
    var x, y := nonce + a, nonce + b;
    assert x[16..] == a[4..] && y[16..] == b[4..];
  }
}
