/** The whole path of a file: group, envelope, upload, retrieval. */
module Sharing {
  import opened Bytes
  import opened Crypto
  import opened EnvelopeBuilder
  import opened Membership
  import opened Service
  import opened EndToEnd
  import opened FileFormat

  /** A file stored with the envelope that the server answered is retrieved by exactly those who hold the
      key of a current member (one locked out by a digest collision excepted), and they get the data back. */
  lemma FileReadableIff(c: Suite, indexed: bool, turns: seq<Turn>, turn: Turn, g: Id, key: Key, data: Bytes, iv: Iv,
                        k: Bytes)
    requires Parse(c, turn.request, turn.random) == MakeEnvelope(g, key)
    requires var db := Serve(c, indexed, turns);
             && g in db.groups && db.groups[g] != {}
             && OthersRefuse(c, GroupKeyList(db, g), key, turn.random.ivs, k)
    requires var response := Handle(c, indexed, Serve(c, indexed, turns), turn.request, turn.random).1;
             response.Positive? && response.reply.Ciphertext? ==>
               4 + |c.b64Decode(response.reply.b64)| + 12 + |data| + 16 < INT_LIMIT
    ensures var db := Serve(c, indexed, turns);
            var response := Handle(c, indexed, db, turn.request, turn.random).1;
            && response.Positive? && response.reply.Ciphertext?
            && var envelope := c.b64Decode(response.reply.b64);
               var file := EncryptAndEncodeFile(c, data, envelope, key, iv);
               && file.Ok?
               && var r := Retrieve(c, indexed, file.value, k);
                  && (r.Ok? <==> && HeldByMember(c, indexed, turns, g, k)
                                 && !LockedOut(c, indexed, turn.random.nonce, GroupKeyList(db, g), k))
                  && (r.Ok? ==> r == Ok(data))
  {
    assert Resize(key, 32) == key;
    EnvelopeOpensIff(c, indexed, turns, turn, g, key, k);
    var response := Handle(c, indexed, Serve(c, indexed, turns), turn.request, turn.random).1;
    var envelope := c.b64Decode(response.reply.b64);
    StoredFile(c, indexed, data, envelope, key, iv, k);
  }

  lemma StoredFile(c: Suite, indexed: bool, data: Bytes, envelope: Bytes, key: Key, iv: Iv, k: Bytes)
    requires Correct(c) && 4 + |envelope| + 12 + |data| + 16 < INT_LIMIT
    requires var r := Open(c, indexed, envelope, k); r.Ok? ==> r == Ok(key)
    ensures var file := EncryptAndEncodeFile(c, data, envelope, key, iv);
            && file.Ok?
            && var r := Retrieve(c, indexed, file.value, k);
               (r.Ok? <==> Open(c, indexed, envelope, k).Ok?) && (r.Ok? ==> r == Ok(data))
  {
    if Open(c, indexed, envelope, k).Ok? {
      FileRoundTrip(c, indexed, data, envelope, key, iv, k);
    } else {
      DecryptAfterEncrypt(c, data, key, envelope, iv, key, envelope);
      UnframeOfFrame(envelope, CipherAes(c, data, key, envelope, Encrypt, iv).value);
    }
  }
}
