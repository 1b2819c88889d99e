/** Envelopes made while other threads change the database. */
module ThreadedEnvelopes {
  import opened Bytes
  import opened Crypto
  import opened Envelope
  import opened EnvelopeBuilder
  import opened Membership
  import opened Locks
  import opened LockInvariant
  import opened Linearizability

  /** Thread t took gmutex_ for a key listing of g after the first `from` events and has this answer. */
  ghost predicate Listed(n: nat, events: seq<Event>, from: nat, t: nat, g: Id, answer: Answer) {
    && from <= |events| && t < n && Reach(n, events).Some? && Reach(n, events[..from]).Some?
    && Reach(n, events[..from]).value.threads[t] == GkLook(GetKeys(g))
    && SameCall(n, events, from, t) && Reach(n, events).value.threads[t] == Return(GetKeys(g), answer)
  }

  /** On every interleaving, the envelope made of a returned key listing opens with exactly the keys of those
      who were members when the listing took gmutex_, whatever was done to the database meanwhile; an indexed
      one does so save for a shadowed member. */
  lemma ThreadedEnvelopeOpensIff(n: nat, events: seq<Event>, from: nat, t: nat, g: Id, keys: seq<Key>,
                                 c: Suite, nonce: Iv, bucket: Key, ivs: Ivs, k: Bytes)
    requires Listed(n, events, from, t, g, Answer.Keys(keys)) && OthersRefuse(c, keys, bucket, ivs, k)
    ensures var db := Reach(n, events[..from]).value.db;
            && (IndexedOpen(c, IndexedEnvelope(c, nonce, keys, bucket, ivs), k).Ok?
                <==> MemberKey(db, g, k) && !Shadowed(c, nonce, keys, k))
            && (LinearOpen(c, LinearEnvelope(c, keys, bucket, ivs), k).Ok? <==> MemberKey(db, g, k))
  {
    ListedAtThatMoment(n, events, from, t, g, keys);
    ListedIffMemberKey(Reach(n, events[..from]).value.db, g, keys, k);
    IndexedOpensIff(c, nonce, keys, bucket, ivs, k);
    LinearOpensIff(c, keys, bucket, ivs, k);
  }

  lemma AnsweredAtThatMoment(n: nat, events: seq<Event>, from: nat, t: nat, g: Id, answer: Answer)
    requires Listed(n, events, from, t, g, answer)
    ensures answer == Apply(Reach(n, events[..from]).value.db, GetKeys(g)).1
  {
    KeysAreSnapshot(n, events, from, t, g);
  }

  lemma AnswerIsListing(db: Db, g: Id, keys: seq<Key>)
    requires MembersKnown(db) && Apply(db, GetKeys(g)).1 == Answer.Keys(keys)
    ensures g in db.groups && OneKeyPerMember(db, g, keys)
  {
    GroupKeys(db, g);
  }

  lemma ListedAtThatMoment(n: nat, events: seq<Event>, from: nat, t: nat, g: Id, keys: seq<Key>)
    requires Listed(n, events, from, t, g, Answer.Keys(keys))
    ensures var db := Reach(n, events[..from]).value.db; g in db.groups && OneKeyPerMember(db, g, keys)
  {
    AnsweredAtThatMoment(n, events, from, t, g, Answer.Keys(keys));
    LockHolderSeesKnownMembers(n, events[..from], t);
    AnswerIsListing(Reach(n, events[..from]).value.db, g, keys);
  }
}
