# A-SKY key manager: a Dafny model

A-SKY shares encrypted files with groups over untrusted clouds. A key manager keeps users and groups; from a
group it builds an *envelope*, a list of records each of which one member can open with his or her own key, and
clients store the envelope in front of the encrypted file. This project models that system in Dafny and proves
what it is for: who can open what, after which history of requests, and on which interleavings of threads.

| file | what it models |
|---|---|
| `Bytes.dfy`, `Ordered.dfy`, `Options.dfy` | byte strings, their unsigned order, the ordered containers of the server |
| `Crypto.dfy` | AES-GCM, SHA-224 and base64 as functions with stated hypotheses; `cipherAes` |
| `Search.dfy`, `Envelope.dfy` | the client's search and the two ways to open an envelope |
| `EnvelopeBuilder.dfy` | the server's `generate_envelope`, and exactly which keys open its output |
| `Membership.dfy`, `Operations.dfy` | `MemDatabase` as a class and as a function on states; histories; when each operation is carried out |
| `Service.dfy`, `OkAnswers.dfy` | the request handler; what its answer "ok" stands for |
| `EndToEnd.dfy`, `Sharing.dfy` | whole runs of requests; the path of a file |
| `Locks.dfy`, `LockInvariant.dfy`, `Linearizability.dfy` | `MemDatabase` under its two mutexes, for any number of threads |
| `Deadlock.dfy`, `Progress.dfy`, `ThreadedEnvelopes.dfy` | when threads block each other, that calls end, envelopes made among threads |
| `FileFormat.dfy` | the stored file: framing, encryption, retrieval |
| `Trials.dfy`, `Monitor.dfy`, `TrialThreads.dfy`, `TrialRace.dfy` | the C client: trial decryption, its test monitor, its threads |
| `Tls.dfy`, `TlsTable.dfy`, `TlsRace.dfy` | ownership of descriptors and SSL handles; accept and receive interleaved |

## How to read it

Methods and classes follow the source step by step. Each is proved against a specification function
(`Apply`, `Handle`, `IndexedOpen`, `Unframe`, ...), and the results are lemmas about those functions, over all inputs,
all histories, or all interleavings.

Cryptography is a record of functions (`Crypto.Suite`). The hypotheses are `Correct` (lengths; decryption inverts
encryption; base64 decoding inverts encoding) and, of single sealed texts, `Refuses`: this text, sealed under this key,
IV and associated data, is refused under that other key or other associated data (sections 7.1 and 7.2 of NIST SP
800-38D). It is asked only of the records of the envelope at hand (`OthersRefuse`), never of all plaintexts, for which
AES-GCM does not have it. `HypothesesSatisfiable` shows that the hypotheses are consistent. Random numbers, the results
of `SSL_read` and `SSL_accept`, and the order in which the operating system hands out descriptors are parameters.

## What turned out not to hold, and exactly when it does

- *Every group member is a known user* fails between the two `clear` calls of `delete_all_data`, and nowhere else
  (`MembersKnownIff`), so exactly for the sets of methods that include it and can make a group
  (`UnknownMemberReachableIff`); no other lock holder can see that moment (`LockHolderSeesKnownMembers`).
- *The database never deadlocks* fails exactly when at least two threads run, and the methods they run include a
  deletion and the creation of a group (`StuckReachableIff`); without a group, the other methods that take `gmutex_`
  first are refused before they ask for `umutex_`. The stuck states are exactly the wait cycles (`StuckIff`), and a
  wait cycle is for ever (`CycleIsForEver`).
- *Every member opens the indexed envelope* fails for a member whose digest collides with that of a member entered
  later (`IndexedOpensIff`, `CollisionShadows`); the two envelope modes agree exactly otherwise (`ModesAgreeIff`).
- *"ok" means done* fails exactly for unknown HTTP verbs and for requests in which a field that is read is not a
  text: `process_input` answers ok and does nothing (`OkMeansDoneIff`, `NumberAnsweredOk`, `UnknownVerbAnsweredOk`).
- *A deletion removes the user it names and nobody else* fails for names with a zero byte, which the deletion alone
  passes through `c_str()`: the user stays, with all memberships and the key, and a user whose name is the part
  before the zero is deleted instead (`DeletionExactIff`, `DeletionAlwaysExactIff`, `CutNameDeletesAnother`,
  `DeletionRevokesKeyIff`, `CutNameSurvivesDeletion`).
- *A removal erases the connection that was closed* fails when its descriptor is reissued in between: exactly when
  the accepting thread's stale-entry check for that descriptor, or with several receivers another removal of it, came
  first (`RemovalErasesClosed`, `RemovalErasesClosedIff`, `OneReceiverRemovalIff`). Then it erases the newcomer
  (`LateRemovalErasesNewcomer`), or, if that one is not filed yet, throws an exception that nobody catches and ends
  the server (`RemovalThrowsIff`, `OneReceiverThrowsIff`, `EarlierRemovalEndsServer`). The server runs one receiver
  (`#define N 1` in anonymBE/src/anonymbe.cpp).
- *The reader of the C client returns the file key* fails exactly when an earlier record is a false positive, and then
  the key is always wrong, because both halves of a record meet the same key stream (`ReaderUndoesMonitorIff`,
  `ReaderMayReturnWrongKey`).
- *The joined flag tells whether a record matches* needs the flag to start at 0; it is never reset
  (`JoinedFlagIff`).

## Model

| member | source | states |
|---|---|---|
| `Bytes.CompareTo` | anonymbe-client/src/main/kotlin/ch/unine/anonymbe/client/Envelope.kt:9-19 | the sign of the result is that of the first differing byte, as an unsigned number; 0 for equal arrays only |
| `Bytes.LessIff` | anonymBE/src/enclave/anonymbe_service.hpp:85-95 | the order of `std::map<std::string, ...>` by positions: the first difference, in unsigned bytes, decides, and a prefix comes first |
| `Crypto.CipherAesInPlace` | anonymbe-client/src/main/kotlin/ch/unine/anonymbe/client/Encryption.kt:34-64 | the byte-array steps of both modes, with their failures in order, compute `CipherAes` |
| `Crypto.EncryptionBytes` | anonymbe-client/src/main/kotlin/ch/unine/anonymbe/client/Encryption.kt:34-64 | an encryption is the IV followed by what the cipher yields; keys of other sizes than 16, 24 and 32 are refused |
| `Crypto.DecryptionDecidedBy` | anonymbe-client/src/main/kotlin/ch/unine/anonymbe/client/Encryption.kt:34-64 | of any data under any key: which failure, or the cipher's verdict on the bytes behind the first 12, the IV |
| `Crypto.DecryptAfterEncrypt` | anonymbe-client/src/main/kotlin/ch/unine/anonymbe/client/Encryption.kt:34-78 | decryption gives the data back under the same key and associated data and fails under others that refuse the sealed text |
| `Search.FoundIsMatch` | anonymbe-client/src/main/kotlin/ch/unine/anonymbe/client/Envelope.kt:83-97 | on any records, sorted or not, what is found matches, and a failing search takes one probe per record |
| `Search.FindAgreesWithScan` | anonymbe-client/src/main/kotlin/ch/unine/anonymbe/client/Envelope.kt:81-99 | on strictly sorted hashes the search returns what a linear scan returns, found or not |
| `Search.FindCost` | anonymbe-client/src/main/kotlin/ch/unine/anonymbe/client/Envelope.kt:81-97 | the exact number of probes for a target at each position, and for an absent one |
| `Search.UnsortedMayMiss` | anonymbe-client/src/main/kotlin/ch/unine/anonymbe/client/Envelope.kt:81-97 | without the order a present hash can be missed |
| `Envelope.OpenLinear` | anonymbe-client/src/main/kotlin/ch/unine/anonymbe/client/Envelope.kt:33-47 | the buffer loop tries 60-byte records in turn and moves on only after a bad tag |
| `Envelope.LinearOpenFirst` | anonymbe-client/src/main/kotlin/ch/unine/anonymbe/client/Envelope.kt:33-47 | on any bytes, the first 60-byte record that does not end in a bad tag decides |
| `Envelope.LinearOpenNone` | anonymbe-client/src/main/kotlin/ch/unine/anonymbe/client/Envelope.kt:33-47 | without one, opening fails, as an underflow where the bytes end within a record |
| `Envelope.ProbeOffsets` | anonymbe-client/src/main/kotlin/ch/unine/anonymbe/client/Envelope.kt:81-93 | index and byte offset of each probe of the search stay within a 32-bit Int, for every envelope a Java array can hold, and point at the record |
| `Envelope.FindRecord` | anonymbe-client/src/main/kotlin/ch/unine/anonymbe/client/Envelope.kt:81-99 | the loop over the envelope bytes in Ints, moving one bound by one, computes `Find`: position of the record, and number of probes |
| `Envelope.OpenIndexed` | anonymbe-client/src/main/kotlin/ch/unine/anonymbe/client/Envelope.kt:68-100 | digest, search and decryption of the record found, with every failure |
| `Envelope.SortedEnvelopeOpen` | anonymbe-client/src/main/kotlin/ch/unine/anonymbe/client/Envelope.kt:68-100 | by bytes, on any envelope with increasing hashes: the record with the SHA-224 of nonce and zero-filled key decides |
| `Envelope.IndexedOpenFails` | anonymbe-client/src/main/kotlin/ch/unine/anonymbe/client/Envelope.kt:68-99 | exactly when the copies go out of bounds, and the failure without such a record |
| `Envelope.OpenedComesFromMatch` | anonymbe-client/src/main/kotlin/ch/unine/anonymbe/client/Envelope.kt:89-93 | on any envelope, an opened key comes from a record that carries the hash of the user's key |
| `EnvelopeBuilder.GenerateIndexed` | anonymBE/src/enclave/anonymbe_service.hpp:77-95 | the two loops over the ordered map write the nonce and the sorted records |
| `EnvelopeBuilder.GenerateLinear` | anonymBE/src/enclave/anonymbe_service.hpp:96-101 | the loop writes one record per key, in order |
| `EnvelopeBuilder.EnvelopeLayout` | anonymBE/src/enclave/anonymbe_service.hpp:81-95 | reading an envelope at the client's offsets gives back the index that was written |
| `EnvelopeBuilder.IndexedEnvelopeSize` | anonymBE/src/enclave/anonymbe_service.hpp:77-95 | the nonce comes first, then 88 bytes for every distinct digest |
| `EnvelopeBuilder.IndexedEnvelopeBytes` | anonymBE/src/enclave/anonymbe_service.hpp:85-95 | each 88 bytes are the SHA-224 of nonce and key, the IV, and the bucket key sealed for that key, the last one with its digest |
| `EnvelopeBuilder.LinearEnvelopeBytes` | anonymBE/src/enclave/anonymbe_service.hpp:96-101 | each 60 bytes are the IV and the bucket key sealed for the next key |
| `EnvelopeBuilder.IndexedEnvelopeWellFormed` | anonymBE/src/enclave/anonymbe_service.hpp:67-95 | 12 + 88m bytes for m distinct digests, strictly increasing, each record opening to the bucket key under a member's key |
| `EnvelopeBuilder.IndexedOpensIff` | anonymBE/src/enclave/anonymbe_service.hpp:77-95 | an indexed envelope opens with exactly the keys it was built for that are not shadowed, and to the bucket key, where its records refuse keys they were not made for |
| `EnvelopeBuilder.LinearOpensIff` | anonymBE/src/enclave/anonymbe_service.hpp:96-101 | a linear envelope opens with exactly the keys it was built for |
| `EnvelopeBuilder.ModesAgreeIff` | anonymBE/src/enclave/anonymbe_service.hpp:77-101 | both modes give the same key or both fail, for every key, exactly when the opener is not shadowed |
| `EnvelopeBuilder.ModesAgreeWithoutCollision` | anonymBE/src/enclave/anonymbe_service.hpp:77-101 | without a digest collision in the group both modes agree for every opener |
| `EnvelopeBuilder.CollisionShadows` | anonymBE/src/enclave/anonymbe_service.hpp:86-90 | two keys with one digest do lock out the earlier one, while the linear envelope opens |
| `Membership.MemDatabase.CreateUser` | anonymBE/src/enclave/memory_database.cpp:32-40 | a new user with its key, or a refusal that changes nothing |
| `Membership.MemDatabase.CreateGroup` | anonymBE/src/enclave/memory_database.cpp:43-60 | a new group with its first member, or the refusal of the first check that fails |
| `Membership.MemDatabase.AddMember` | anonymBE/src/enclave/memory_database.cpp:5-29 | the membership, or a refusal, or the note that it exists, the set being unchanged by the second insertion |
| `Membership.MemDatabase.RemoveMember` | anonymBE/src/enclave/memory_database.cpp:87-116 | the membership ends, or a refusal; the last `throw` is never reached |
| `Membership.MemDatabase.DeleteUser` | anonymBE/src/enclave/memory_database.cpp:63-68 | the loop takes the user out of every group and out of the users, and nothing else |
| `Membership.MemDatabase.DeleteAll` | anonymBE/src/enclave/memory_database.cpp:71-75 | nothing is left |
| `Membership.MemDatabase.IsMember` | anonymBE/src/enclave/memory_database.cpp:78-85 | the membership, or a refusal for an unknown group |
| `Membership.MemDatabase.GetKeys` | anonymBE/src/enclave/memory_database.cpp:119-141 | the 32-byte keys of the known members, in order, or a refusal |
| `Operations.CreateUserIff` | anonymBE/src/enclave/memory_database.cpp:32-40 | carried out iff the user is new; the key is stored, all else stays |
| `Operations.CreateGroupIff` | anonymBE/src/enclave/memory_database.cpp:43-60 | carried out iff the group is new and the user known; each refusal exactly; one membership comes in |
| `Operations.AddMemberIff` | anonymBE/src/enclave/memory_database.cpp:5-29 | carried out iff group and user are known and the user is no member; each refusal and the note exactly; one membership comes in |
| `Operations.RemoveMemberIff` | anonymBE/src/enclave/memory_database.cpp:87-116 | carried out iff the user is a known member; each refusal exactly; one membership goes, the group stays |
| `Operations.DeleteAlways` | anonymBE/src/enclave/memory_database.cpp:63-75 | always carried out; exactly the user, or everything, goes |
| `Operations.QuestionsIff` | anonymBE/src/enclave/memory_database.cpp:78-141 | questions change nothing; each answer and refusal exactly |
| `Operations.KeysMemberByMember` | anonymBE/src/enclave/memory_database.cpp:129-137 | a known member adds the stored key in 32 bytes, an unknown one nothing |
| `Membership.HistoriesKeepMembersKnown` | anonymBE/src/enclave/memory_database.cpp:5-116 | after every history all group members are known users |
| `Membership.MembershipIsLastTouch` | anonymBE/src/enclave/memory_database.cpp:5-116 | u is in g iff the last effective request that touched the pair was a create or an add |
| `Membership.DeletedUserStartsAfresh` | anonymBE/src/enclave/memory_database.cpp:63-75 | no membership survives a deletion; only a later add makes one |
| `Membership.StoredKeyIsLastKey` | anonymBE/src/enclave/memory_database.cpp:32-40 | the stored key is that of the last creation since the last deletion |
| `Membership.GroupKeys` | anonymBE/src/enclave/memory_database.cpp:119-141 | where members are known, a group that is not empty yields exactly one key per member, in the order of the names |
| `Locks.NextMovesLocks` | anonymBE/src/enclave/memory_database.cpp:5-141 | every action of every method acquires, keeps and releases each mutex as its position says |
| `LockInvariant.AdvanceInv` | anonymBE/src/enclave/memory_database.cpp:5-141 | each atomic step keeps mutual exclusion, what each thread has checked, and known members |
| `LockInvariant.MembersKnownIff` | anonymBE/src/enclave/memory_database.cpp:5-75 | for any number of threads and every interleaving, members are known except exactly between the two clears |
| `LockInvariant.LockHolderSeesKnownMembers` | anonymBE/src/enclave/memory_database.cpp:5-75 | whoever holds a mutex, the clearing thread aside, sees known members, also between check and insert and within the erasing loop |
| `LockInvariant.NeverAstonished` | anonymBE/src/enclave/memory_database.cpp:87-116 | on every interleaving a removal never ends in "this should not ever happen" |
| `LockInvariant.UnknownMemberReachableIff` | anonymBE/src/enclave/memory_database.cpp:5-75 | n threads running only methods of a set reach a state with an unknown member iff there is a thread and the set has `delete_all_data` and the creation of a group for a user it can create |
| `LockInvariant.ClearingExposesUnknownMember` | anonymBE/src/enclave/memory_database.cpp:71-75 | any such three calls, by one thread, do reach it |
| `Linearizability.NextSimulates` | anonymBE/src/enclave/memory_database.cpp:5-141 | each action is invisible, or is the one atomic effect of its method, or is its return |
| `Linearizability.Linearizable` | anonymBE/src/enclave/memory_database.cpp:5-141 | every interleaving has the invocations and answers of a run of the atomic object, in the same order |
| `Linearizability.EffectsAreSequential` | anonymBE/src/enclave/memory_database.cpp:5-141 | the atomic object is the sequential database run in the order of effects, state and answers |
| `Linearizability.AnswersAreSequential` | anonymBE/src/enclave/memory_database.cpp:5-141 | every answer a thread returns is the sequential one at the point at which the call took effect |
| `Linearizability.HistoryShowsAll` | anonymBE/src/enclave/memory_database.cpp:5-141 | the history compared is that of all invocations and all returns |
| `Linearizability.HistoriesUnderThreads` | anonymBE/src/enclave/memory_database.cpp:5-141 | on every interleaving, in the order of effects, membership is the last touch, the stored key that of the last creation, and members are known |
| `Linearizability.ReturnedKeysAreSnapshot` | anonymBE/src/enclave/memory_database.cpp:119-141 | a key listing returns one key per member as of its `gmutex_` acquisition, while users are created in between |
| `ThreadedEnvelopes.ThreadedEnvelopeOpensIff` | anonymBE/src/enclave/anonymbe_service.hpp:67-101 | on every interleaving an envelope made of a returned key listing opens with exactly the keys of the members at its `gmutex_` acquisition |
| `Deadlock.StuckIff` | anonymBE/src/enclave/memory_database.cpp:7-75 | a reachable state is stuck exactly when a deleting thread and a `gmutex_` holder wait for each other |
| `Deadlock.StuckReachableIff` | anonymBE/src/enclave/memory_database.cpp:5-141 | n threads running only methods of a set reach a deadlock iff n is at least 2 and the set has a deletion and the creation of a group |
| `Deadlock.OneOrderNeverStuck` | anonymBE/src/enclave/memory_database.cpp:7-75 | in any reachable state: no deadlock while nobody deletes, while all at work delete or create users, or while one thread is active |
| `Deadlock.MixedOrdersGetStuck` | anonymBE/src/enclave/memory_database.cpp:43-75 | any deletion and any `create_group` do reach a deadlock, among any number of threads from two on |
| `Deadlock.CycleIsForEver` | anonymBE/src/enclave/memory_database.cpp:5-141 | two threads that wait for each other stay where they are on every continuation |
| `Progress.StepsAreBounded` | anonymBE/src/enclave/memory_database.cpp:5-141 | without further invocations no interleaving of n threads has more than n(9 + 3m) steps, for m names in play |
| `Progress.HaltedIff` | anonymBE/src/enclave/memory_database.cpp:5-141 | when no step is left, every call has returned or a wait cycle blocks the rest, and only then |
| `Progress.EveryCallReturns` | anonymBE/src/enclave/memory_database.cpp:5-141 | threads that cannot deadlock by their number or methods end with every call returned |
| `Service.AnonymBE.GenerateEnvelope` | anonymBE/src/enclave/anonymbe_service.hpp:64-104 | the answer is the base64 of the envelope of the group's keys, or that of the exception or refusal |
| `Service.AnonymBE.ProcessPost` | anonymBE/src/enclave/anonymbe_service.hpp:143-165 | every path, with its order of parsing, reading and database call, has the meaning `Parse` gives it |
| `Service.AnonymBE.ProcessDelete` | anonymBE/src/enclave/anonymbe_service.hpp:168-188 | the same for deletions, the user name cut at its first zero byte |
| `Service.AnonymBE.Answer` | anonymBE/src/enclave/anonymbe_service.hpp:218-257 | the handlers' updates of error, extra and response give each exception its answer |
| `Service.AnonymBE.ProcessInput` | anonymBE/src/enclave/anonymbe_service.hpp:191-257 | every request, with its exceptions mapped to answers, has the effect and the answer of `Handle` |
| `Service.ErrorChangesNothing` | anonymBE/src/enclave/anonymbe_service.hpp:192-257 | an error answer, and an "already a member" note, leave users and groups as they were |
| `Service.ReAddIsNoted` | anonymBE/src/enclave/anonymbe_service.hpp:129-133 | adding a member again is answered ok with a note and changes nothing |
| `OkAnswers.MembershipOkMeans` | anonymBE/src/enclave/anonymbe_service.hpp:125-188 | for every body with the two names, an add or a removal answered ok changes that one membership and nothing else |
| `OkAnswers.GroupOkMeans` | anonymBE/src/enclave/anonymbe_service.hpp:149-159 | for every such body, a group created has its one member; the membership question is answered truthfully |
| `OkAnswers.UserOkMeans` | anonymBE/src/enclave/anonymbe_service.hpp:108-188 | a created user is answered with the stored key; a deletion removes exactly the user of the cut name |
| `OkAnswers.EnvelopeOkMeans` | anonymBE/src/enclave/anonymbe_service.hpp:64-104 | an envelope answered is that of the group's keys, never of none, and changes nothing |
| `OkAnswers.DeletionExactIff` | anonymBE/src/enclave/anonymbe_service.hpp:178-181 | a deletion removes exactly the user it names iff the name has no zero byte or neither it nor its cut form occurs |
| `OkAnswers.DeletionAlwaysExactIff` | anonymBE/src/enclave/anonymbe_service.hpp:178-181 | in every database it does iff the name has no zero byte |
| `OkAnswers.DeletionRevokesIff` | anonymBE/src/enclave/anonymbe_service.hpp:178-181 | after a deletion the named user is outside a group iff the name has no zero byte or the user was outside before |
| `OkAnswers.CutNameDeletesAnother` | anonymBE/src/enclave/anonymbe_service.hpp:178-181 | asked to delete one user, the service answers ok, keeps that user and deletes another |
| `OkAnswers.OkMeansDoneIff` | anonymBE/src/enclave/anonymbe_service.hpp:191-257 | for every verb, path and body ever answered ok: the ok can be relied on for some effect iff the verb is known and all fields read are texts; otherwise nothing ever changes |
| `OkAnswers.OkMeansWanted` | anonymBE/src/enclave/anonymbe_service.hpp:191-257 | and that effect is the one on the names in the request, cut for a deletion |
| `OkAnswers.NumberAnsweredOk` | anonymBE/src/enclave/anonymbe_service.hpp:222-242 | an add with a user_id that is no text is answered ok and adds nobody |
| `OkAnswers.UnknownVerbAnsweredOk` | anonymBE/src/enclave/anonymbe_service.hpp:206-214 | an unknown verb is answered ok and does nothing |
| `OkAnswers.UnreadableAnswer` | anonymBE/src/enclave/anonymbe_service.hpp:222-242 | a known verb: an unparsable body and a missing field are errors; a body or field of another type is answered ok; nothing changes |
| `OkAnswers.IllFormedOkIff` | anonymBE/src/enclave/anonymbe_service.hpp:205-242 | a request not well-formed is answered ok iff its verb is unknown, its body is no object, or the first field that cannot be read has another type |
| `OkAnswers.UnknownPathAnswer` | anonymBE/src/enclave/anonymbe_service.hpp:46-188 | a known verb on a path it does not serve is always an error |
| `OkAnswers.WellFormedOkIff` | anonymBE/src/enclave/anonymbe_service.hpp:125-257 | a well-formed request is answered ok iff nothing in the database stands against it, and with exactly that objection otherwise |
| `OkAnswers.EmptyEnvelopeIff` | anonymBE/src/enclave/anonymbe_service.hpp:71-75 | "empty envelope" is answered iff the group has members none of whom is known |
| `EndToEnd.ServeIsHistory` | anonymBE/src/enclave/anonymbe_service.hpp:125-188 | a run of requests is a history of the database, deletions under the cut names |
| `EndToEnd.NeverEmptyEnvelope` | anonymBE/src/enclave/anonymbe_service.hpp:71-75 | on no run is "empty envelope" answered |
| `EndToEnd.HeldKeyIsStored` | anonymBE/src/enclave/anonymbe_service.hpp:108-121 | the server stores for each user exactly the key that user was answered with, until a deletion reaches that very name |
| `EndToEnd.IndexedEnvelopeOpensIff` | anonymBE/src/enclave/anonymbe_service.hpp:64-104 | after any run, a group's indexed envelope opens, to the bucket key, with exactly the keys given to current members that are not shadowed |
| `EndToEnd.LinearEnvelopeOpensIff` | anonymBE/src/enclave/anonymbe_service.hpp:64-104 | the same for linear envelopes, without exception |
| `EndToEnd.EnvelopeOpensIff` | anonymBE/src/enclave/anonymbe_service.hpp:64-104 | both modes in one |
| `EndToEnd.EveryMemberOpens` | anonymBE/src/enclave/anonymbe_service.hpp:64-121 | with no digest collision in the group, the key given to any current member opens the envelope |
| `EndToEnd.RevokedCannotOpen` | anonymBE/src/enclave/anonymbe_service.hpp:168-188 | in either mode, once the database has removed or deleted a user, the user's key opens no new envelope, unless a remaining member holds the same key |
| `EndToEnd.DeletionRevokesKeyIff` | anonymBE/src/enclave/anonymbe_service.hpp:178-181 | in either mode, after a deletion request naming a user, the user's key opens an envelope of a group iff the user was a member, the name has a zero byte, and no collision locks the user out |
| `EndToEnd.CutNameSurvivesDeletion` | anonymBE/src/enclave/anonymbe_service.hpp:108-181 | a run of three requests after which a deleted user is a member and holds the key |
| `FileFormat.EncodeEnvelopeAndData` | anonymbe-client/src/main/kotlin/ch/unine/anonymbe/client/Client.kt:83-92 | the stream writes the length in four bytes, most significant first, envelope and data, or fails at 2^31 bytes |
| `FileFormat.ReadFile` | anonymbe-client/src/main/kotlin/ch/unine/anonymbe/client/Client.kt:49-55 | the stream reads envelope and data back, with every failure, also from files that are cut off |
| `FileFormat.UnframeMeaning` | anonymbe-client/src/main/kotlin/ch/unine/anonymbe/client/Client.kt:49-55 | parsing any file, by its bytes: too short, a negative length, whole, or cut off |
| `FileFormat.UnframeOfFrame` | anonymbe-client/src/main/kotlin/ch/unine/anonymbe/client/Client.kt:49-92 | parsing undoes framing for every envelope below 2^31 bytes |
| `FileFormat.FrameOfUnframeIff` | anonymbe-client/src/main/kotlin/ch/unine/anonymbe/client/Client.kt:49-92 | framing undoes parsing exactly for files not cut off within the envelope |
| `FileFormat.FileRoundTrip` | anonymbe-client/src/main/kotlin/ch/unine/anonymbe/client/Client.kt:49-80 | retrieving what was encoded gives the data back, for every envelope the user can open |
| `FileFormat.StoredFileBytes` | anonymbe-client/src/main/kotlin/ch/unine/anonymbe/client/Client.kt:63-92 | a stored file byte by byte: length, envelope, IV, the data sealed with the envelope as associated data |
| `FileFormat.RetrieveIff` | anonymbe-client/src/main/kotlin/ch/unine/anonymbe/client/Client.kt:49-80 | what retrieval returns from any file, decided by the envelope's key and the cipher on the bytes behind it |
| `FileFormat.SwappedEnvelopeFails` | anonymbe-client/src/main/kotlin/ch/unine/anonymbe/client/Client.kt:63-80 | another envelope in front of the same data makes decryption fail |
| `Sharing.FileReadableIff` | anonymbe-client/src/main/kotlin/ch/unine/anonymbe/client/Client.kt:24-80 | from requests to retrieval, in either mode: a stored file is read back with exactly the keys given to current members that are not locked out by a collision |
| `Trials.UserGetFileKey` | client/client.cpp:20-43 | the pointer scan returns the file key of the first matching record, or none |
| `Trials.CtrInvolution` | client/crypto.cpp:13-47 | decryption is encryption: applied twice, counter mode changes nothing |
| `Trials.CtrFlipsBits` | client/crypto.cpp:13-47 | counter mode flips exactly the bits set in the key stream |
| `Trials.FileKeyFirst` | client/client.cpp:20-43 | by bytes: the first record whose first half shows ones decides, its second half is the key |
| `Trials.FileKeyNone` | client/client.cpp:20-43 | without one no key is found |
| `Monitor.Simulate` | client/client.cpp:112-140 | the loop fills the buffer with one record per member, the user's at 2(n/3) |
| `Monitor.WrittenBytes` | client/client.cpp:112-140 | byte by byte: ones under the user's key at 2(n/3), zeros under random keys elsewhere, the file key behind |
| `Monitor.ReaderUndoesMonitorIff` | client/client.cpp:20-43 | for every n from 1 on a key is found, and it is the file key exactly when no earlier record is a false positive |
| `Monitor.ReaderMayReturnWrongKey` | client/client.cpp:20-43 | a cipher and three records with which the reader returns a wrong key |
| `TrialThreads.FeedThreads` | client/client.cpp:79-103 | in C ints, without overflow, thread i of 4 gets records i·n/4 to (i+1)·n/4 and stays in bounds |
| `TrialThreads.ChunkSize` | client/client.cpp:91-92 | for every trial and thread count, chunk sizes differ by at most one |
| `TrialThreads.ClampNeverTaken` | client/client.cpp:93-96 | no chunk reaches past the last trial |
| `TrialThreads.ChunkOf` | client/client.cpp:91-92 | the chunks cover every trial |
| `TrialThreads.ChunkUnique` | client/client.cpp:91-92 | no trial lies in two chunks |
| `TrialRace.AllThreadsStop` | client/client.cpp:54-76 | no interleaving is longer than 2·trials + 2·T steps, and a thread that has not stopped can go on |
| `TrialRace.EarlyExit` | client/client.cpp:54-76 | once the flag is set it stays set, and all threads stop within two steps each, without another trial |
| `TrialRace.JoinedFlagIff` | client/client.cpp:54-110 | after the joins the flag is set exactly if it was at the start or some record matches |
| `TrialRace.ThreadsAgreeWithScan` | client/client.cpp:20-110 | on every interleaving from flag 0, flag 1 after the joins iff the sequential scan finds a record |
| `Tls.StepOwned` | anonymBE/src/enclave/tls_config.cpp:158-263 | each call keeps: one owner per descriptor and handle, entries filed under their own descriptor, nothing released twice |
| `Tls.AcceptOwned` | anonymBE/src/enclave/tls_config.cpp:158-188 | an accepted connection is filed or fully released, and no stale entry is found |
| `Tls.FinishOwned` | anonymBE/src/enclave/tls_config.cpp:211-217 | finish releases every connection once and nothing else |
| `Tls.OwnedThroughout` | anonymBE/src/enclave/tls_config.cpp:158-294 | ownership holds throughout every run of calls that do not overlap |
| `Tls.ReceiveIff` | anonymBE/src/enclave/tls_config.cpp:268-294 | the first result that is not positive decides: after 0 the connection is released and its entry leaves, after an error all stays; the return codes exactly |
| `Tls.AcceptIff` | anonymBE/src/enclave/tls_config.cpp:158-188 | the return codes exactly; a new handle and entry, or a table left as it was |
| `Tls.StaleEntryReplaced` | anonymBE/src/enclave/tls_config.cpp:160-166 | a stale entry of a closed connection is replaced without a second release |
| `Tls.SecondReleaseCounts` | anonymBE/src/enclave/tls_config.cpp:252-263 | what the ownership results rule out: a second release of one descriptor or handle does count as misuse |
| `Tls.ReissuedOpenDescriptorMisused` | anonymBE/src/enclave/tls_config.cpp:158-188 | a descriptor handed out while the table owns it can be closed twice |
| `Tls.ContextIff` | anonymBE/src/enclave/tls_config.cpp:146-159 | connections are served from the first initialization on |
| `TlsTable.Connection.Close` | anonymBE/src/enclave/tls_config.cpp:252-263 | what the connection owns is released and forgotten |
| `TlsTable.Connection.MoveAssign` | anonymBE/src/enclave/tls_config.cpp:135-143 | the target's resources are released once and the source's taken over, also under self-assignment |
| `TlsTable.MakeNode` | anonymBE/src/enclave/tls_config.cpp:122-132 | through two moves the resources keep one owner, and the emptied temporaries release nothing |
| `TlsTable.ConnectionTable.AddConnection` | anonymBE/src/enclave/tls_config.cpp:158-188 | the class does what `Tls.AddConnection` says, return code included |
| `TlsTable.ConnectionTable.RemoveConnection` | anonymBE/src/enclave/tls_config.cpp:201-208 | the entry is erased and closed, or reported missing |
| `TlsTable.ConnectionTable.Receive` | anonymBE/src/enclave/tls_config.cpp:268-294 | reading to the end closes and removes the connection; errors leave it in place |
| `TlsTable.ConnectionTable.Finish` | anonymBE/src/enclave/tls_config.cpp:211-217 | the loop closes every entry and leaves the table empty |
| `TlsRace.StepInv` | anonymBE/src/enclave/tls_config.cpp:158-229 | each interleaved step keeps: an entry is open under its own descriptor or awaits its removal |
| `TlsRace.RemovalErasesClosed` | anonymBE/src/enclave/tls_config.cpp:158-208 | with no reissue between close and removal, every removal erases the connection that was closed, none throws, and no stale entry is met |
| `TlsRace.NothingLeaks` | anonymBE/src/enclave/tls_config.cpp:158-263 | on every interleaved run the open descriptors are exactly those open from the start, the one being accepted and those of connections in the table |
| `TlsRace.RemovalErasesClosedIff` | anonymBE/src/enclave/tls_config.cpp:191-208 | on every run with any number of receivers: it does iff no stale-entry check and no other removal has erased that descriptor's entry since the receiver got the connection |
| `TlsRace.OneReceiverRemovalIff` | anonymBE/src/enclave/tls_config.cpp:277-283 | with one receiver: iff no stale-entry check of that descriptor came between the close and the removal |
| `TlsRace.RemovalThrowsIff` | anonymBE/src/enclave/tls_config.cpp:201-208 | on every run a removal throws NOT_FOUND iff the descriptor's entry has been erased since the receiver got the connection and none has been filed since |
| `TlsRace.OneReceiverThrowsIff` | anonymBE/src/enclave/tls_config.cpp:277-283 | with one receiver: iff the stale-entry check came after the close and the new connection is not filed yet |
| `TlsRace.LateRemovalErasesNewcomer` | anonymBE/src/enclave/tls_config.cpp:158-208 | a reissue in between makes the removal erase and close the new connection |
| `TlsRace.EarlierRemovalEndsServer` | anonymBE/src/enclave/tls_config.cpp:201-294 | a run in which the removal throws out of `ecall_tls_recv`, and nothing happens any more |

## Left out

- AES, SHA-224, base64 and random generation: functions with hypotheses, or parameters.
- The MongoDB backend, the HTTP decoder, the JSON library and the storage clients: the model starts from parsed requests with typed fields.
- Exception and log texts, and the failure of `json::dump` on text that is not UTF-8 (an empty response): answers carry a reason instead of a text.
- Argument evaluation order: where group and user name are both unreadable, the group name decides the answer; C++ leaves the order open.
- Kotlin `assert` is taken as disabled, as the JVM does by default.
- `is_user_part_of_group` in the threaded model: it takes no lock, so it is modelled sequentially only.
- The C++ memory model: every flag access, map operation and lock action is one atomic step.
- Locks.Next: a lookup and the decision it leads to are one step, as are the two map operations of `operator[]` followed by `insert`.
- TlsRace.After: `close()` is one step, a connection object keeps its identity when its entry is erased under a reading thread (the source then uses a dead reference), and a receive call starts only on a connection that no other receive is using; overlapping receives on one connection are not modelled.
- `send`, the context and certificate set-up, and the use of the handle in the log line after a failed `SSL_accept`.
- `verifyEnvelope`, `uploadToCloud` and `generateSymmetricKeyAndGetEnvelope`: thin compositions of what is modelled.
- The event loop, the enclave boundary, the writer proxy, benchmarks and deployment files.
