# QUICKeR, modelled and proved in Dafny

QUICKeR keeps encrypted records in a key-value server. A record is rotated to a new data key without leaving
the server: the server seals the whole ciphertext into one more layer of authenticated encryption. This project
models that scheme, the server protocol around it and the programs that feed it, and proves what they are for.

| files | what they model |
|---|---|
| `Crypto` | the foreign cryptographic calls as functions with laws; a toy suite shows the laws can be met |
| `NestedAE`, `NestedAEBuffers`, `Layout` | the nested encryption scheme: on byte strings, as it runs in place on buffers, and byte by byte against the structs |
| `Protocol`, `Progress`, `Decryptability`, `Budget`, `UpdateWindow`, `KeyFreshness`, `Underscores`, `RootKeyChange` | server and clients as interleaved critical sections over records |
| `Server`, `ServerRefinement`, `LockAtomicity`, `WholeRun`, `ServedRuns`, `Decimal` | the same critical sections on the text store, why each may be taken as one step, and the refinement of whole runs |
| `Wire`, `Transport`, `Conversation` | space-joined commands, the tokenizer, NUL-terminated framing over partial sends and receives, and a whole exchange |
| `GoptSpec`, `GoptUse`, `GoptHyphens`, `Gopt` | the option parser: its grammar and table promise, what command lines spell, where the promise on hyphens fails, and the in-place parser |
| `MasterKey`, `RootRotation` | the loop that re-wraps every data key under a new root key, and what it leaves of the stored records |
| `KeyNames`, `Placement` | key names, their placement on servers, and the shares of the update machines |

The laws of `Crypto`: opening inverts sealing and keeps the length (AES-GCM, sections 7.1 and 7.2 of
NIST SP 800-38D); a shorter keystream is a prefix of a longer one (CTR mode, section 6.5 of NIST SP 800-38A);
unwrapping inverts wrapping, and an empty text is no wrap (`EmptyWrapFails`). `KeyBinding`, the idealisation that a tag or a wrap opens under at most one key, is a
hypothesis only where a lemma shows that something can no longer be decrypted.

Hypotheses that the code does not check and that the theorems carry:

- A freshly drawn history key is not all zero. The all-zero key is the sentinel of the innermost layer.
- The id owns its version counter: it is not empty and has no underscore (`OwnsCounter`). For any other id a SETALL
  counts up the version of the id named behind the last underscore. `Underscores` shows that the condition is exact:
  with an underscore a SETALL that falls between the read and the commit of an UP_UPDATE is lost (`LateCommitKeepsSetIff`).
- Ids and encoded texts hold no space and no NUL, without which commands do not come apart again (`CommandRoundTrip`).
- There is room for one more layer before each re-encryption. `Budget` states this as a count of commits. The guard at `src/cd_encryption/AE_Nested_AES.c:197`
  compares the payload length with the blob length but leaves out the 96 bytes that line 219 needs; `GuardNeverFires`
  shows that on a stored blob it never rejects, and that exactly at capacity the writes leave the buffer.
- No commit on the id comes between the updater's download and the server's first locked read. The version check of
  the server starts only at that read. `CommitDecryptsIff`, and over runs `CommitDecryptsIffInRun`, show the condition
  is exact, and `WindowIsNeeded` gives the run that breaks it.

Where the code and its comments or documentation differ, the code is followed:

- The option parser hands an argument that begins with a hyphen to an option marked as not taking one in three ways:
  attached behind `=`, attached to a short option, and as the word `-` alone; the header promises it never does
  (`src/common/gopt.h:46`, `src/common/gopt.h:94-103`, `src/common/gopt.c:109`, `src/common/gopt.c:143-147`,
  `src/common/gopt.c:192-196`). `HyphensGetThrough` gives the inputs. `NoHyphenInListIff` gives the exact condition, on the words and the table alone.
- `AE_Encrypt` returns the length without its 32-byte header, and the populate program stores that many bytes:
  32 bytes of pad are lost, and with them one re-encryption (`PopulateThenRotate`).
- SETALL advances the version counter named by the text behind the last underscore of the root version key, which
  belongs to the record exactly when its id has no underscore (`SuffixIsIdIff`). The steps of `Protocol` do the same.
- The server ignores the return code of `AE_ReEncrypt`: when the call rejects, it commits whatever the output buffers
  held (`After`, `NoLostUpdate`). A disciplined run never gets there.
- `update_master_key` rewrites the wraps and leaves the root versions stored beside them: a download that goes by a root
  version which still names the old key fails afterwards (`OpensUnderStoredVersionIff`).
- ROOTKEY overwrites only as many bytes as the new text has (`RootKeyTakesEffectIff`).
- `getall` and `setall` with no keys at all leave the terminating NUL out of the byte count (`BuildGetAll`).
- `decrypt_last_step` discards the return code of the level below, so its own reports the top layer only.

## Model

| member | source | states |
|---|---|---|
| Crypto.ToySuiteIsLawful | src/cd_encryption/AE_Nested_AES.h:9-12 | the laws assumed of the cryptographic calls, the length law and key binding included, are consistent |
| NestedAE.ParseInvertsMetaBytes | src/cd_encryption/AE_Nested_AES.h:44-50 | the 52-byte header record, with its 32-bit length, reads back as written |
| NestedAE.EncryptSeals | src/cd_encryption/AE_Nested_AES.c:22-56 | a fresh ciphertext has 32 + m + 96t bytes, its pad check passes and it holds the message under no layer |
| NestedAE.LayerPeels | src/cd_encryption/AE_Nested_AES.c:74-98 | a payload sealed with its history block peels to exactly what the payload below peels to |
| NestedAE.ReEncryptCarries | src/cd_encryption/AE_Nested_AES.c:196-225 | the output has the input's size, carries the same message with one layer more, and its payload length is the one AE_ReKeyGen recorded |
| NestedAE.RotationSeals | src/cd_encryption/AE_Nested_AES.c:151-225 | AE_ReKeyGen then AE_ReEncrypt keep message and size, under the new key, using one layer of pad |
| NestedAE.GuardNeverFires | src/cd_encryption/AE_Nested_AES.c:197-220 | a re-encryption of a stored blob goes through iff it is below capacity, and overruns its buffer iff it is exactly at capacity; the guard never rejects one |
| NestedAE.RotationsKeepMessage | src/cd_encryption/AE_Nested_AES.c:103-225 | for every number of rotations: they all go through iff within floor((D-32-m)/96), and then size and message are kept |
| NestedAE.PadCanBeTruncated | src/main/populate_database_updatable.c:240-270 | dropping pad bytes at the end leaves a blob that holds the same message |
| NestedAE.EncryptThenRotate | src/actions/actions.c:694-698 | an uploaded blob made for t re-encryptions admits exactly t |
| NestedAE.PopulateThenRotate | src/main/populate_database_updatable.c:235-270 | a populated blob made for t re-encryptions still decrypts and admits exactly t - 1 |
| NestedAE.HeldMessageDecrypts | src/cd_encryption/AE_Nested_AES.c:103-149 | AE_Decrypt of a blob that holds a message under any number of layers is that message |
| Layout.MetaLayout | src/cd_encryption/AE_Nested_AES.h:44-50 | the header record in numbers: seed at 0, payload key at 16, history key at 32, length at 48 with its lowest byte first |
| Layout.LengthIsSigned | src/cd_encryption/AE_Nested_AES.h:49 | the length field is read as a signed 32-bit number |
| Layout.CiphertextLayout | src/cd_encryption/AE_Nested_AES.c:22-56 | a fresh ciphertext in numbers: iv, tag, sealed message, pad of 96t keystream bytes, and its header |
| Layout.DeltaLayout | src/cd_encryption/AE_Nested_AES.c:151-194 | a delta exists iff the old key opens the header; it holds both old keys sealed under the new history key and a header 96 bytes longer |
| Layout.ReEncryptLayout | src/cd_encryption/AE_Nested_AES.c:196-225 | refused iff the payload exceeds the blob, goes through iff 96 more bytes fit; what it writes, position by position |
| Layout.TamperedPadFails | src/cd_encryption/AE_Nested_AES.c:127-139 | changing any one byte of the pad of a stored blob makes its decryption fail |
| Layout.ShortBlobFails | src/cd_encryption/AE_Nested_AES.c:118-122 | so does cutting into its payload |
| Layout.PayloadMustOpen | src/cd_encryption/AE_Nested_AES.c:63-83 | so does an outermost layer that does not open |
| Layout.DrawsAre | src/cd_encryption/AE_Nested_AES.c:27-48 | of the random draws only their sizes are asked, and that a history key has a byte other than zero |
| NestedAEBuffers.DecryptLastStep | src/cd_encryption/AE_Nested_AES.c:58-101 | the buffer-swapping recursion writes what the pure peeling gives, stays within length at every level, and returns 0 iff its own layer opens |
| NestedAEBuffers.AEDecrypt | src/cd_encryption/AE_Nested_AES.c:103-149 | writes the message that pure decryption gives; the ciphertext is untouched, and so is the message buffer when header, length or pad are refused |
| NestedAEBuffers.AEEncrypt | src/cd_encryption/AE_Nested_AES.c:22-56 | fills the buffer with the pure ciphertext and reports its length without the 32 header bytes |
| NestedAEBuffers.AEReKeyGen | src/cd_encryption/AE_Nested_AES.c:151-194 | produces the pure delta; -1 iff the old key does not open the header |
| NestedAEBuffers.AEReEncrypt | database/newSimpleServer/AE_Nested_AES.c:196-225 | from the front of an input buffer of any larger size, fills the whole second buffer with the pure re-encryption, or leaves it alone and returns -1 when it rejects |
| NestedAEBuffers.IsAllZero | src/cd_encryption/AE_Nested_AES.c:59-62 | true iff the key equals the key of zero bytes, in all its bytes |
| Protocol.StepAdvances | database/newSimpleServer/simple_server.c:485-527 | no step loses an id, and every change of a record that owns its counter raises its version by exactly one |
| Protocol.StepKeepsFits | database/newSimpleServer/simple_server.c:557-582 | every step keeps this, for ids that own their counter: as long as a version is the one a thread or updater saw, the values it saw with it are the stored ones |
| Protocol.RunCountsChanges | database/newSimpleServer/simple_server.c:494-506 | over any run the version of an id that owns its counter grows by exactly the number of changes of its record: SETALL and UP_UPDATE commits on it, and SETALLs on another id that only count it up |
| Protocol.NoLostUpdate | database/newSimpleServer/simple_server.c:557-657 | after any interleaving, on an id that owns its counter: a failed version check changes nothing, and an UP_UPDATE that commits re-encrypts exactly the header and data stored at that instant, on that id alone, or commits its untouched output buffers where AE_ReEncrypt rejected |
| Progress.EndFreesThread | database/newSimpleServer/simple_server.c:627-673 | the end of a SETALL or UP_UPDATE, committed or not, frees its thread and touches no other thread and no download |
| Progress.FailedCheckOnlyFrees | database/newSimpleServer/simple_server.c:646-657 | a failed version check frees the thread and changes nothing else |
| Progress.SetIsTakenIff | database/newSimpleServer/simple_server.c:428-467 | a SETALL is taken on iff the thread is free and the root keys are equal, and then waits to be committed |
| Progress.UpdateIsTakenIff | database/newSimpleServer/simple_server.c:557-582 | an UP_UPDATE is taken on iff the thread is free, with the version, header and data stored at that moment |
| Progress.NextSetGoesThrough | database/newSimpleServer/simple_server.c:731-913 | after every end of a command, a failed UP_UPDATE included, the same thread takes and commits a SETALL whose message a download then gives |
| Decryptability.UpdateIsReadable | src/actions/actions.c:921-1082 | an update made from the record as it still is goes through, keeps the message and adds one layer |
| Decryptability.StepKeepsReadable | database/newSimpleServer/simple_server.c:416-674 | every disciplined step keeps every record that owns its counter decryptable to its last committed message |
| Decryptability.DownloadGivesLastMessage | src/actions/actions.c:772-919 | after any disciplined run of any threads and ids, a download of an id that owns its counter gives the message of the last committed SETALL, or the populated one, whatever UP_UPDATEs came since |
| Decryptability.PopulatedStateIsReadable | src/main/populate_database_updatable.c:228-350 | the populated store is a state such runs may start from |
| Budget.BudgetIsDiscipline | src/actions/actions.c:694-698 | a run is disciplined iff each update is read within the window and while fewer UP_UPDATEs were committed since the last SETALL than its upload was made for; along it the layers are that count |
| Budget.DownloadWithinBudget | src/main/populate_database_updatable.c:240-270 | from a populated store, at most t - 1 commits on a populated record and at most its own t on an uploaded one: a download gives the message last set |
| UpdateWindow.CommitDecryptsIff | src/actions/actions.c:963-968 | for two versions under different payload keys, on an id that owns its counter: a committed UP_UPDATE whose re-encryption went through leaves its record decryptable iff no commit came between the download and the server's first read |
| UpdateWindow.StaleUpdateFails | database/newSimpleServer/simple_server.c:609-645 | an update built from another version of the record makes the download fail |
| UpdateWindow.WindowIsNeeded | src/actions/actions.c:963-1082 | from any populated store and on an id that owns its counter: download, SETALL, UP_UPDATE passes every check, commits, and loses the new message |
| UpdateWindow.FreshUpdateGoesThrough | src/actions/actions.c:921-1082 | on any store populated for two or more re-encryptions, a download and its update are a disciplined run that commits, adds a layer and keeps the message |
| UpdateWindow.SetThenUpdateGoesThrough | src/actions/actions.c:656-1082 | from any state with a free thread, a SETALL made for one or more re-encryptions and an update right after are a disciplined run that ends with the new message under one layer |
| KeyFreshness.RunKeepsKeysFit | src/cd_encryption/AE_Nested_AES.c:178 | over runs whose draws differ, no two versions of a record share a payload key, nor does a pending task with any record or download |
| KeyFreshness.CommitDecryptsIffInRun | src/actions/actions.c:963-968 | the window condition in every state that a run with distinct draws reaches, stale updates included: decryptable afterwards iff no commit came between download and first read |
| KeyFreshness.PopulatedKeysFit | src/main/populate_database_updatable.c:228-350 | such runs may start from the populated store |
| KeyFreshness.ReadAfterSetIsLate | src/actions/actions.c:963-1082 | a SETALL in the window leads to a pending update of another version: both answers of the window condition occur |
| KeyFreshness.ReadAtOnceQualifies | src/actions/actions.c:963-1082 | without one the run qualifies too, and the versions are equal |
| Underscores.SetAdvancesOwnVersionIff | database/newSimpleServer/simple_server.c:447-506 | a SETALL raises the version of its own record iff the id is not empty and has no underscore, and otherwise leaves it as it is |
| Underscores.SetAllBlocksUpdateIff | database/newSimpleServer/simple_server.c:447-506 | on the texts: after a SETALL, the version an UP_UPDATE has read is no longer the stored one iff the id is not empty and has no underscore |
| Underscores.LateUpdateOverwritesIff | database/newSimpleServer/simple_server.c:623-645 | on the texts: an UP_UPDATE read before a SETALL and committed after it leaves it alone iff the id is not empty and has no underscore, and else overwrites its wrap, header and data |
| Underscores.LateCommitKeepsSetIff | database/newSimpleServer/simple_server.c:447-645 | from any state with a readable record: after UP_UPDATE read, SETALL, UP_UPDATE commit a download gives the new message iff the id is not empty and has no underscore, and the old one otherwise |
| Underscores.LostSetAll | database/newSimpleServer/simple_server.c:447-645 | with "a_b" and "b" populated, that run on "a_b" passes every check and loses the SETALL |
| RootKeyChange.RunConservesStale | database/newSimpleServer/simple_server.c:425-527 | while the root key stays, each upload validated under another one is either still pending or was committed once |
| RootKeyChange.AtMostFourStaleCommits | database/newSimpleServer/simple_server.c:862-927 | after a ROOTKEY no run of the five threads commits more than four uploads under another root key |
| RootKeyChange.StaleBoundIsReached | database/newSimpleServer/simple_server.c:425-527 | whatever stale uploads are pending at the change, some run commits them all |
| RootKeyChange.FourIsTight | database/newSimpleServer/simple_server.c:425-527 | from any populated store and for every new root key, a run validates four uploads, changes the key and commits all four under the old one |
| Decimal.AtoiUndoesText | database/newSimpleServer/simple_server.c:496-499 | atoi undoes sprintf on every counter value |
| Decimal.TextIsDecimal | database/newSimpleServer/simple_server.c:498-499 | the text of a counter is its decimal representation without leading zeros |
| Decimal.AtoiStops | database/newSimpleServer/simple_server.c:496 | atoi reads up to the first character that is no digit, and gives 0 for a text without digits |
| Decimal.SameTextIsEquality | database/newSimpleServer/simple_server.c:627 | the length-plus-strncmp test on decimal texts is equality of the counters |
| Decimal.FitsVersionBuffer | database/newSimpleServer/simple_server.c:632-633 | the 10-byte text buffer holds a counter iff it has at most nine digits |
| Server.Server.GetAll | database/newSimpleServer/simple_server.c:355-402 | the reply holds the values of all keys in order, an empty text for a missing one |
| Server.Server.CheckRootKey | database/newSimpleServer/simple_server.c:425-464 | the first root version named decides, and gives the suffix of the counter |
| Server.Server.CommitSetAll | database/newSimpleServer/simple_server.c:478-523 | the store gets the next version and then each pair in order |
| Server.Server.CommitUpdate | database/newSimpleServer/simple_server.c:623-659 | three values and the next version are written iff the version text is the one seen |
| Server.Server.SetRootKey | database/newSimpleServer/simple_server.c:862-871 | each byte the new text has is overwritten, and behind it the old bytes stay |
| Server.RootKeyTakesEffectIff | database/newSimpleServer/simple_server.c:867-868 | the root key becomes the new text iff that is no shorter than the old one; else the tail of the old one follows |
| Server.SuffixIsIdIff | database/newSimpleServer/simple_server.c:447-481 | SETALL advances the counter of its own id iff the id is non-empty and has no underscore |
| Server.SuffixIsBehindLastUnderscore | database/newSimpleServer/simple_server.c:449-454 | the suffix of any key is the text behind its last underscore |
| Server.FirstRootVersionDecides | database/newSimpleServer/simple_server.c:428-464 | for any list of pairs, the first one that names a root version decides alone |
| Server.LastPairWins | database/newSimpleServer/simple_server.c:511-518 | for any list of pairs, the last one with a key determines its value |
| Server.PairsWinOverCounter | database/newSimpleServer/simple_server.c:494-518 | a pair that names the counter overwrites the version that was counted up before |
| ServerRefinement.CheckRefines | database/newSimpleServer/simple_server.c:428-464 | for every id, on an upload's words the check passes iff the root keys are equal, and finds the counter that the record step advances |
| ServerRefinement.SetCommitRefines | database/newSimpleServer/simple_server.c:485-523 | for every id, the SETALL commit on texts, under the counter its own check has found, is the SetCommit step on records |
| ServerRefinement.UpdateCommitRefines | database/newSimpleServer/simple_server.c:623-659 | the UP_UPDATE commit on texts, version comparison included, is the UpdateCommit step on records |
| ServerRefinement.GetAllReadsOneRecord | database/newSimpleServer/simple_server.c:369-381 | a GETALL of one id's fields returns the encoded fields of its one stored record |
| ServerRefinement.ClientReadsRecord | src/actions/actions.c:824-897 | a client that decodes the four texts of a record, the header as a struct of 16, 16 and 52 bytes, and decrypts them gets what a download of that record gives |
| ServerRefinement.MissingTextsFail | src/actions/actions.c:847-849 | a download without header or data gives no message |
| ServerRefinement.TextStoreRepresents | src/main/populate_database_updatable.c:337-370 | every store of records is represented by some text store |
| ServerRefinement.ToyCodecIsLawful | src/hiredis_storage/redis_storage.c:346-350 | the laws assumed of base64 and root key texts are consistent |
| LockAtomicity.SectionsAreAtomic | database/newSimpleServer/simple_server.c:486-523 | under any interleaving of single store commands, finished sections equal whole sections run one after the other |
| LockAtomicity.SetAllSectionCommits | database/newSimpleServer/simple_server.c:485-523 | the commands of a SETALL, run to the end, make the commit that the server is specified to make |
| LockAtomicity.UpdateSectionCommits | database/newSimpleServer/simple_server.c:623-659 | the same for the commands of an UP_UPDATE commit |
| LockAtomicity.GetAllReadsOneState | database/newSimpleServer/simple_server.c:369-381 | every finished GETALL returned the values of one single committed state |
| WholeRun.SectionRefines | database/newSimpleServer/simple_server.c:486-659 | every finished section, client downloads included, does to the texts what its protocol step does to the records, and every read returned the record of that step |
| WholeRun.ServerRefinesProtocol | database/newSimpleServer/simple_server.c:355-674 | for every interleaving of store commands whose sections are those of a protocol run, client downloads included, the texts represent that run's records whenever the lock is free, and all reads were answered from them |
| WholeRun.EveryDownloadGivesLastMessage | src/actions/actions.c:823-897 | in such a run, if it is disciplined, every finished client GETALL of an id that owns its counter returned four texts that decode and decrypt to the message last set before the step of that download; that step has exactly the sections before it that finished before the download |
| WholeRun.StoredTextsGiveLastMessage | database/newSimpleServer/simple_server.c:355-674 | whenever the lock is free the texts stored for such an id are those of a record that downloads to the message last set, and a client that has them reads it |
| ServedRuns.EveryRunIsServed | database/newSimpleServer/simple_server.c:355-674 | every protocol run is served: some interleaving of store commands has its sections, in order |
| ServedRuns.PopulatedRunsAreServed | src/main/populate_database_updatable.c:228-370 | from the populated store every run meets the hypotheses of the whole-run theorems |
| ServedRuns.TasksAreLogged | database/newSimpleServer/simple_server.c:557-599 | in a served run each pending update and each download of an updater is what decoding logged replies gives |
| ServedRuns.SectionFollowsFromLog | database/newSimpleServer/simple_server.c:596-645 | the commit of an UP_UPDATE, with all the texts it writes, is a function of the logged replies to the updater's download and to the server's own read |
| Wire.Split | src/common/common.c:237-262 | both passes agree on the count, and the array holds the maximal delimiter-free pieces in order |
| Wire.JoinRoundTrip | database/newSimpleServer/simple_server.c:384-393 | joined texts split back into themselves iff none is empty or holds the delimiter |
| Wire.LeadingDelimiter | src/common/common.c:247-259 | delimiters in front add no token |
| Wire.TokensSnoc | src/common/common.c:247-259 | the clean text behind the last delimiter is the last token, whatever stands before |
| Wire.CommandRoundTrip | src/hiredis_storage/redis_storage.c:316-334 | a command splits into exactly its words iff they are all clean |
| Wire.BuildGetAll | src/hiredis_storage/redis_storage.c:319-334 | the text of the command; the size counter is its length plus one, without the one if there is no key |
| Wire.BuildSetAll | src/hiredis_storage/redis_storage.c:373-396 | the text of the command, keys and values alternating; the size counter is its length plus one, without the one if there is no key |
| Wire.BuildReply | database/newSimpleServer/simple_server.c:371-393 | the reply is the joined values; the size is its length plus one, without the one if there is no value |
| Transport.SendAll | src/hiredis_storage/redis_storage.c:131-164 | exactly the first `total` bytes are on their way, in order, for every sequence of partial sends |
| Transport.RecvAll | src/hiredis_storage/redis_storage.c:93-129 | the buffer holds exactly the bytes taken off the stream, and the byte after the next is cleared, also where the size passed is the buffer's own |
| Transport.OneSend | src/hiredis_storage/redis_storage.c:137-144 | one send is offered what is left, but at most 50000 bytes |
| Transport.FailureEnds | src/hiredis_storage/redis_storage.c:102-144 | a call that returns 0 or an error ends either loop |
| Transport.ClearStaysInsideIff | src/hiredis_storage/redis_storage.c:127 | the byte cleared behind the message lies inside the buffer under every chunking iff the stream leaves two bytes to spare |
| Transport.FramingIff | src/hiredis_storage/redis_storage.c:102-119 | a NUL-terminated message arrives whole under every chunking iff it has no NUL inside |
| Transport.EnoughGrantsSendAll | src/hiredis_storage/redis_storage.c:144-158 | sends that never fail get the whole message out |
| Transport.Exchange | src/hiredis_storage/redis_storage.c:93-164 | sendall then recvall delivers exactly the message, however both ends cut it up |
| Conversation.GetAll | src/hiredis_storage/redis_storage.c:316-345 | a whole GETALL, with command and reply cut up in any way: the words the client splits from the reply are the stored values, if keys and values are not empty and hold no space and no NUL |
| Conversation.DownloadMessage | src/actions/actions.c:824-897 | from the bytes on the wire: what the client decodes and decrypts from the words it received is the message of the stored record |
| Conversation.KeysAreSendable | src/actions/actions.c:786-821 | the keys of an id without space and NUL survive the exchange |
| Conversation.ByteByByteDelivers | src/hiredis_storage/redis_storage.c:102-158 | connections that pass single bytes, or all at once, are among those meant |
| GoptSpec.LongIndexIsUnique | src/common/gopt.c:33-61 | for every table and argument the index is the first exact match, else the only prefix match, else the last, and no other index qualifies |
| GoptSpec.ShortIndexFrom | src/common/gopt.c:65-78 | the first element with that short name, or the last element |
| GoptSpec.MarkSetsOneBit | src/common/gopt.h:111-115 | recording a use sets one SEEN bit and keeps all other bits |
| GoptSpec.TableKeepsPromise | src/common/gopt.h:70-128 | after any uses each element has the documented count, last argument, SEEN flags and names, the last element the first unrecognized ones |
| GoptSpec.ParseKeepsPromise | src/common/gopt.h:55-129 | the documented table results hold for every argument list and every option table |
| GoptSpec.ParseReadsWords | src/common/gopt.c:98-216 | the grammar is a left-to-right reading, one word at a time, with only the pending use carried on |
| GoptSpec.OperandsKeepOrder | src/common/gopt.h:56-60 | operands are words of the list in their original order, and behind "--" every word is one |
| GoptUse.ParseInvertsSpelling | src/common/gopt.c:79-226 | for every table, spelling any list of long and short uses, clusters and operands, with any words behind "--", and parsing it gives that list back |
| GoptUse.LongKindsAreSpelled | src/common/gopt.c:130-155 | every kind of long use can be spelled |
| GoptUse.ShortKindsAreSpelled | src/common/gopt.c:158-210 | every kind of cluster can be spelled |
| GoptUse.PinIsTaken | src/common/common.c:104-108 | "--pin 1234" on an option table of the program gives the pin and no operand |
| GoptUse.LongTakesNextIff | src/common/gopt.c:107-155 | "--name" without "=": the use takes the next word, which is then no operand, iff the option requires an argument, there is a next word, and it is not a hyphen word that the option refuses; else it has none and the words are read for themselves |
| GoptUse.LastShortTakesNextIff | src/common/gopt.c:158-210 | the same for the last character of a cluster behind any number of characters without argument |
| GoptUse.AbbreviationIs | src/common/gopt.c:38-48 | the text before "=" abbreviates a name iff it is its beginning in either case of each letter, and spells it iff it is all of it |
| GoptUse.FlagBits | src/common/gopt.h:43-52 | the flag bits that the parser reads and sets, in numbers |
| GoptHyphens.ArgumentOrigin | src/common/gopt.c:107-208 | every argument is either attached to the option's own word or a whole word that the option took, never both |
| GoptHyphens.ListOrigin | src/common/gopt.c:98-216 | every argument of a parse comes from one of the words: attached within it, or the whole of one that the option takes |
| GoptHyphens.NoHyphenIff | src/common/gopt.c:107-208 | a word hands an argument beginning with a hyphen to an option marked NO_HYPHEN iff it meets a guard on word, mode and table: it is "-" where such an option waits, or "--name=-..." with such a name, or a cluster whose first character that may have an argument is such an option followed by a hyphen |
| GoptHyphens.NoHyphenInListIff | src/common/gopt.h:94-103 | for every argument list and table, some such use occurs iff some word meets the guard in the mode that reading the words before it leads to |
| GoptHyphens.HyphensGetThrough | src/common/gopt.c:143-147 | three argument lists that hand a hyphen argument to such an option |
| Gopt.LongOptionGetIndex | src/common/gopt.c:33-61 | the scanning loop finds the documented index |
| Gopt.ShortOptions | src/common/gopt.c:156-208 | a cluster of short options records exactly the events of the grammar in the table |
| Gopt.OptionWord | src/common/gopt.c:107-215 | one word does to the table what the grammar says; expecting an argument and having seen "--" never hold together |
| Gopt.SettlePending | src/common/gopt.c:107-122 | the pending option takes the word, or goes without, its WITH bit turned into WITHOUT |
| Gopt.Gopt | src/common/gopt.c:79-226 | for every argv and table: argv becomes the program name, exactly the operands in order and a null within bounds; the table is what the grammar's events leave |
| MasterKey.Vault.UpdateMasterKey | src/actions/actions.c:476-595 | the loop computes the re-wrapped store and outcome, and destroys the old key only at the normal end |
| MasterKey.RewrapKeepsHalfway | src/actions/actions.c:490-591 | at whichever exit, the ids passed open under the new key to their original data keys and all other records are untouched |
| MasterKey.FinishesIff | src/actions/actions.c:513-594 | success iff the ids are distinct and each has a wrap under the old key |
| MasterKey.OutcomeIs | src/actions/actions.c:513-546 | the exact exit on the store before the call: failure at id n iff the ids before go through and it has no wrap; retrying id n for ever iff they go through and its wrap is not under the old key or it was listed before |
| MasterKey.ReturnsIff | src/actions/actions.c:536-594 | the call returns iff no id stops it for ever |
| MasterKey.RewrapUsesOwnIvs | src/actions/actions.c:556-588 | each id passed has its original data key wrapped under the new root key with an iv of its own |
| MasterKey.EveryExitIsRecoverable | src/actions/actions.c:476-595 | at every exit, each data key a live root key could recover still is, listed records under another live key included, except unlisted records under the old key at the normal end |
| MasterKey.RecoverableIffListed | src/actions/actions.c:593 | after the old key is destroyed, a record that was under it can be recovered iff it was listed |
| MasterKey.OpensUnderStoredVersionIff | src/actions/actions.c:582-593 | a download by the root version stored beside a listed record gets its data key iff that version names the new key where the record was passed, the old key where it was not; after the normal end the old one opens none |
| RootRotation.RecordNames | src/actions/actions.c:665-688 | the five names of a record, letter by letter; the rotation writes under the name of the wrap |
| RootRotation.UploadIs | src/actions/actions.c:749-752 | the words of an upload, each value under its own name |
| RootRotation.QuestionsAre | src/actions/actions.c:818-970 | the keys that clients, updaters and the server ask for, and those an UP_UPDATE names |
| RootRotation.TextsFollowBytes | src/actions/actions.c:513-588 | the loop on encoded texts is the loop on bytes and writes under the names of the ids passed only |
| RootRotation.RotationRewrapsListed | src/actions/actions.c:476-595 | on a store that represents the records, at every exit: the wraps of the ids passed move to the new key with their data keys; all other wraps, headers, data, root versions and counters stay |
| KeyNames.NamesEqualIff | src/main/populate_database_updatable.c:304-306 | two names are equal iff their indices agree modulo 26^size |
| KeyNames.NameSpells | src/main/populate_database_updatable.c:304-306 | the letters of a name, with a as 0 and the first counting least, spell its index modulo 26^size |
| KeyNames.NamesAreDistinctIff | src/main/populate_database_updatable.c:300-309 | all generated names differ iff there are at most 26^5 of them |
| KeyNames.FillNames | src/main/populate_database_updatable.c:300-306 | the nested loops produce these names |
| Placement.RoundVisitsEachKeyOnce | src/main/ciphertext_updates_updatable_encryption.c:302 | for any numbers of machines and keys, a round visits every key index exactly once |
| Placement.StartRoundTrip | src/main/update_round_coordinator.c:202-212 | a machine reads back from the START command the pair it was assigned |
| Placement.RunStart | src/main/ciphertext_updates_updatable_encryption.c:296-319 | on a START command with at least two further words a machine contacts the key file's lines of its stride, in order |
| Placement.RunRound | src/main/update_round_coordinator.c:312-319 | the machines of a round together act on the lines that the visits name |
| Placement.BuildListing | src/main/populate_database_updatable.c:337-350 | the list of a server is its store keys joined by single spaces, with none after the last |
| Placement.KeyOnExactlyItsServer | src/main/populate_database_updatable.c:337-387 | with at most 26^5 keys, each value of a key is populated on the server the key file names and on no other |
| Placement.WriteKeyFile | src/main/populate_database_updatable.c:384-387 | line i names key i and address i mod the number of servers |
| Placement.FileLineRoundTrip | src/main/ciphertext_updates_updatable_encryption.c:193-205 | an update machine reads back the line that was written |
| Placement.FileTextIs | src/main/populate_database_updatable.c:386 | a line is the name, a space, the address and a newline |

## Left out

- OpenSSL, the HSM, Redis and base64: foreign calls, present only through their laws. HSM retry loops are taken to succeed at last, or, for a wrap that does not open, never to end.
- Confidentiality, unforgeability and randomness quality: they need a cryptographic model; random draws are parameters.
- Protocol.NoLostUpdate: leaves out the UP_UPDATEs whose re-encryption writes outside its buffers, and an updater whose own AE_ReKeyGen fails: it sends an uninitialised delta there, and nothing in the model.
- Protocol.StepAdvances: says nothing about records whose id has an underscore, of which it is false; SetStepAdvancesIff shows that. The id of a request and the id whose counter it advances are populated ones; for an unknown counter the server has no version text to convert and ends.
- KeyFreshness.CommitDecryptsIffInRun: leaves out runs that commit the undetermined buffers of a rejected re-encryption, and ids whose counter a SETALL on another id advances too.
- MasterKey.EveryExitIsRecoverable: for a listed record under another live key it needs KeyBinding, as without it the old key might open the same wrap to another data key.
- WholeRun.ServerRefinesProtocol: covers the GETALLs that clients and updaters send, of the four or three fields of one id; the root key check and ROOTKEY are under a lock of their own and appear as protocol steps only, not as store commands.
- Wire.BuildReply: with no keys at all the program writes its NUL one byte before the buffer, and the model writes nothing.
- NestedAEBuffers.DecryptLastStep: says nothing about the message buffer when a layer below fails to open, as the program itself returns success there; lengths that would index outside the buffers are excluded.
- NestedAEBuffers.AEReEncrypt: excludes the inputs on which the writes leave the buffer; GuardNeverFires says which they are.
- Decryptability.DownloadGivesLastMessage: gives the bytes that AE_Decrypt writes; the client then copies them up to the first NUL.
- RootKeyChange.AtMostFourStaleCommits: a root key is an abstract value here; its text as sent carries undetermined padding, and the server's 20-byte field may have no terminator.
- Server.Server.SetRootKey: the 20-byte size of the field is not modelled.
- Server.Server.CommitSetAll: requires the version counter to be there, without which the server ends; version counters are unbounded, and FitsVersionBuffer says when their texts fit.
- Transport.RecvAll: recv is offered the full size each time, so the stream as a whole has to fit the buffer, with the two bytes of ClearStaysInsideIff to spare.
- KeyNames.FillNames: names are texts without a terminator; the program also writes each one's NUL, at index key_size of a buffer of key_size bytes.
- Conversation.GetAll: the receive buffers are as large as the message with two bytes to spare, and both ends are one sequential method.
- Decimal.AtoiStops: leading blanks and signs are not modelled; counters are written without them.
- Placement.RunRound: machines run one after the other here, and each is sent its own pair; the shared buffer for the pair is not modelled, nor its limit of three digits per number.
- Placement.RunStart: requires the two numbers to be there and the step to be positive; with step 0 the machine never stops.
- Gopt.Gopt: option and argument texts are values, not pointers into argv; gopt_errors is not modelled.
- GET, SET and POPULATE as concurrent steps: they do not take the data lock. Populating is the initial state.
- The reply to a GET, the status replies of SETALL and UP_UPDATE, and the reply buffer's stale bytes: clients ignore them.
- The naive encrypt_and_upload, split_by_char, timers, logging, argument files, memory release, scripts, tests and benchmarks.
