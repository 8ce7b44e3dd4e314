# A model of the TPM 1.2 client library

This project models six parts of the client library in `swtpm-utils/lib` that hold state, loop or do
byte arithmetic, and proves what they are for:

- **Key residency** (`EvictionSweep`, `KeySwap`): the demand pager for the key slots of a TPM. Its
  eviction loop is a fold over the handle list with the source's stale return code, and the manager a
  class whose TPM commands and file operations may each fail.
- **The shadow audit log** (`OrdinalBitmap`, `AuditWire`, `AuditLog`, `AuditRuns`): the client's copy of
  the TPM's audit digest, recomputed from raw bytes, against a TPM that audits parsed commands
  (sections 14.1 and 14.2 of TPM Main Part 2).
- **Authorization digests** (`Hmac`, `ResponseAuth`, `Migrate`): lists that end at the first empty chunk,
  response trailers found from the end, and the two migration commands that split into cases.
- **The delegation file** (`Delegation`): records searched and overwritten in place, as a map.
- **PCR composites** (`Pcr`) and **key blobs** (`KeyBlob`): bit maps, counting and gathering loops, and
  walks along length fields, against the serialized structures.
- **Sessions** (`AuthEncryption`, `Sessions`, `ChangeAuth`): the choice of a session type, the shared
  secret at both ends, encrypted authorization, and a command in two sessions.

`Bytes` holds the words, digests and byte strings that all of them share. SHA-1, HMAC and AES are
function values of which only the lengths are known; where a statement needs them not to collide, it
says so about the values at hand.

## What turned out not to hold as stated

- The room guarantee of `needKeysRoom` can fail with a return value of 0, when the eviction loop runs off
  the end of the list: `NeedKeysRoom` gives the exact condition, and `RunsOffTheEnd` an instance.
- An addition to the delegation file leaves the file of the updated records only under the condition of
  `AddIsPutExactly`. Lookups can be right where it fails: `AddLookupsExactly` and `ShortenedLookupsExactly` say
  when, and `AddLosesRecord` is an instance where one is wrong.
- A chunk list is digested whole only under the condition of `FedWholeExactly` (`EmptyPartHides`), and the
  digest of `TPM_CMK_CreateBlob` with an empty migration blob or MSA list is not that of the wire bytes
  (`EmptyBlobCutsDigest`).
- The shadow set of audited ordinals is changed before the TPM has accepted the change, and reset to its
  defaults by a closing digest request: `StepAgreesExactly` says when that drives the two apart. The
  TPM counts audit sessions and the client does not, so the first audited command on a zero digest parts them
  until the next digest request (`SessionStartParts`, `ResetParts`, `SyncRestores`). The first update of a file that does not exist writes an uninitialised structure.
- The handle table of `transport.c` is wrong about `TPM_ORD_DisablePubekRead`.
- For the session openers the structure comments name all parameters; the code leaves out the fixed part.
  `RequestExtraction` and `ResponseExtraction` give both texts, and the honest TPM audits the documented one.
- With a DSAP preference and no delegation blob, or with no allowed type at hand, `TSS_SessionOpen` opens an
  OIAP session that the mask may not allow: `OpensAllowedExactly`, `OpensDisallowed`. What
  `TPM_ChangeKeyAuth` then sends is not accepted: `ChangeKeyAuth`.
- `TSS_GenPCRInfo` tells a length that includes a byte of padding.

## Model

| member | source | states |
|---|---|---|
| KeySwap.KeySwapper.NeedKeysRoom | swtpm-utils/lib/keyswap.c:412-419 | Whether a call is turned away, what it returns, and which keys it leaves loaded are told from what the environment answers to each operation. With nothing failing it returns 0 exactly if its eviction loop did, each key to be loaded is asked for once and has its file, and the requested keys fit beside those under owner control. Whatever it returns, no requested or owner-controlled key is evicted, no more keys than are missing, and none is lost in any state in between. If it returns 0 every requested key is loaded, and `room` slots plus one per stacked transport are free whenever nothing had to be evicted or the eviction loop stopped on its counter, and otherwise exactly when the requested and owner-controlled keys leave that much of the TPM |
| KeySwap.KeySwapper.NeedKeysRoomGeneral | swtpm-utils/lib/keyswap.c:262-402 | A call is turned away only if it is nested, swapping is off, or a query fails: the capacity query with 0, a short answer and the handle query with their codes. Otherwise evictions, loads and return code are those that the answers of the environment determine, whatever fails; the guard is as it was before |
| KeySwap.KeySwapper.NeedKeysRoomStacked | swtpm-utils/lib/keyswap.c:421-427 | The same for the stacked variant; it never evicts key1, and evicts one other key at most, only if the TPM is full and lacks key1; if it returns 0 it has evicted exactly as many |
| KeySwap.KeySwapper.MakeRoom | swtpm-utils/lib/keyswap.c:343-385 | The demand as the source counts it, key2 tested where key3 is meant, and an eviction loop run for exactly the shortfall, accounted for whatever it returns |
| KeySwap.CountSlots | swtpm-utils/lib/keyswap.c:343-352 | The slots counted, key2 tested where key3 is meant |
| KeySwap.KeySwapper.QueryTpm | swtpm-utils/lib/keyswap.c:309-340 | Which failure of the two queries ends a call, and with which code |
| KeySwap.KeySwapper.ManageKeys | swtpm-utils/lib/keyswap.c:343-394 | From the answered queries to the end of the loads, for every answer of the environment |
| KeySwap.NoFaultRoom | swtpm-utils/lib/keyswap.c:262-419 | With nothing failing an ordinary call is not turned away, and returns 0 exactly if its loop did, each key to be loaded is asked for once and has its file, and the requested keys fit beside those under owner control |
| KeySwap.NoFaultOutcome | swtpm-utils/lib/keyswap.c:262-402 | The same for a call with any margin, in terms of what the evictions leave |
| KeySwap.BroughtExactly | swtpm-utils/lib/keyswap.c:386-394 | With nothing failing the three loads succeed exactly if each missing key has its file, none is asked for twice, and there is room for all |
| KeySwap.KeySwapper.SwapOutKeys | swtpm-utils/lib/keyswap.c:176-215 | The eviction loop over the handle list, in its order and for every way it ends: it never evicts key1, key2 or key3, each key that leaves has its swap file, evictions and charged skips are the decrease of its counter, and if it ran off the end with 0 or the owner-control code all that could leave has left |
| KeySwap.KeySwapper.SwapOutKey | swtpm-utils/lib/keyswap.c:65-118 | The file is written before the key is evicted: at every step each key is in the TPM or in its file as saved, and a failure leaves the TPM as it was |
| KeySwap.KeySwapper.SwapInKey | swtpm-utils/lib/keyswap.c:121-173 | The key comes back from its file under its own handle, and the file goes only after the key is loaded |
| KeySwap.SwapRoundTrip | swtpm-utils/lib/keyswap.c:65-173 | Swapping a key out and in again leaves the TPM with exactly the keys it had |
| KeySwap.KeySwapper.Serve | swtpm-utils/lib/keyswap.c:262-427 | Over any sequence of calls of both forms, with any step failing, every key is kept in every state passed through and the guard ends as it began |
| KeySwap.IsKeyInTPM | swtpm-utils/lib/keyswap.c:221-255 | The search of the handle list finds exactly the listed handles and 0, 0x40000000, 0x40000006 and 0xffffffff |
| KeySwap.AccountedRoom | swtpm-utils/lib/keyswap.c:343-419 | From the slots demanded with the margin of 3, in spite of the miscounted key3, to the free slots in the end: both the exact condition and the guarantee of a loop that stopped on its counter |
| KeySwap.AccountedStacked | swtpm-utils/lib/keyswap.c:374-427 | Without a margin the demand of the stacked variant evicts one key or none, told apart by whether the TPM is full and the key absent, also in a call that fails |
| EvictionSweep.SweepEvictsOnly | swtpm-utils/lib/keyswap.c:188-207 | Whatever the swap-outs return, only visited keys whose own swap-out returned 0 are evicted, never a protected one |
| EvictionSweep.SweepAccounting | swtpm-utils/lib/keyswap.c:188-213 | Evictions plus the skips charged through the stale return code are the decrease of the counter, and no more skips are charged than protected keys were visited |
| EvictionSweep.SweepComplete | swtpm-utils/lib/keyswap.c:188-214 | A loop that runs off the end of the list leaves only keys that are protected, owner-controlled or evicted |
| EvictionSweep.SweepOutcome | swtpm-utils/lib/keyswap.c:188-214 | How any loop has ended: the accounting, and if it ran off the end, that all that could leave has left |
| EvictionSweep.RoomExactly | swtpm-utils/lib/keyswap.c:343-419 | The room guarantee as arithmetic on sets: with `room` + 3 slots demanded, `room` slots are free if and only if the keys that cannot leave allow it |
| EvictionSweep.MarginIsTight | swtpm-utils/lib/keyswap.c:194-213 | For every full TPM that lists the three requested keys first and every margin up to 3, the slots freed are those asked for less what the margin lacks of 3: only the margin of 3 frees enough |
| EvictionSweep.RunsOffTheEnd | swtpm-utils/lib/keyswap.c:188-214 | A concrete loop that returns 0 with three slots still missing |
| AuditWire.RequestExtraction | swtpm-utils/lib/auditing.c:407-443 | From the raw bytes of any well-formed request exactly the ordinal and the parameters are hashed, never a handle or an authorization byte, if and only if the handle table is right about the request and it is not OSAP or DSAP, of which the fixed part is left out; encrypted requests hash the ordinal alone |
| AuditWire.ResponseExtraction | swtpm-utils/lib/auditing.c:446-487 | The same for responses: return code, ordinal and parameters, if and only if the table is right or nothing but the return code is counted, and it is not the success of a session opener |
| AuditWire.RequestTextHashedExactly | swtpm-utils/include/tpm_structures.h:2251-2267 | For which requests the bytes that the client hashes are those that section 14.1 of TPM Main Part 2 names |
| AuditWire.ResponseTextHashedExactly | swtpm-utils/include/tpm_structures.h:2269-2285 | For which responses they are those that section 14.2 names |
| AuditWire.RequestFields | swtpm-utils/lib/auditing.c:551-574 | What the step-by-step size arithmetic comes to for any well-formed request, told by its ordinal, handles and parameters; no read leaves the message |
| AuditWire.ResponseFields | swtpm-utils/lib/auditing.c:679-711 | The same for responses |
| AuditLog.AuditFile.AuditInputstream | swtpm-utils/lib/auditing.c:521-641 | On raw bytes in the domain of C: the ordinal is looked up and the parameters are hashed, and the stored digest becomes SHA1 of the old one and any 32 bytes that hold the tag 0x0012, that hash and the counter at their offsets; every other outcome leaves the file alone. Without a file the defaults are created, and the ordinal is looked up in what the structure of the caller held |
| AuditLog.AuditFile.AuditOutputstream | swtpm-utils/lib/auditing.c:644-758 | The same for a response, with the tag 0x0013 |
| AuditLog.SerializeExactly | swtpm-utils/lib/newserialize.h:705-720 | The serialized event is laid out as tag, parameter digest, and tag, label and count of the counter at their offsets, and nothing else is |
| AuditLog.SerializeInjective | swtpm-utils/lib/newserialize.h:705-720 | The serialization determines event and counter |
| AuditLog.ExtendHashes | swtpm-utils/lib/auditing.c:577-625 | Extending a digest is hashing it with those bytes behind it |
| AuditLog.AuditFile.HashNoAuthParms | swtpm-utils/lib/auditing.c:407-443 | Which slice of the request is hashed, and when the digest variable is left as it was |
| AuditLog.AuditFile.HashNoAuthParmsResp | swtpm-utils/lib/auditing.c:446-487 | Which slices of the response are hashed around the ordinal, and when none are |
| AuditLog.AuditFile.InitAuditing | swtpm-utils/lib/auditing.c:908-922 | A reset writes the map of default ordinals, zero digests and a zero counter |
| AuditLog.AuditFile.ReadAuditingData | swtpm-utils/lib/auditing.c:489-505 | Reading a missing file creates it but does not fill in the structure of the caller |
| AuditLog.AuditFile.SetAuditDigest | swtpm-utils/lib/auditing.c:855-873 | A sync keeps the calculated digest for comparison before the stored one is replaced |
| AuditLog.AuditFile.SetAuditingCounterValue | swtpm-utils/lib/auditing.c:843-853 | The counter is replaced and nothing else |
| AuditLog.AuditFile.SetAuditStatus | swtpm-utils/lib/auditing.c:769-814 | Setting and clearing the status of an ordinal in the file, with the ordinals that are refused, and what a missing file becomes |
| AuditLog.AuditFile.IsAuditedOrdinal | swtpm-utils/lib/auditing.c:816-841 | The query answers with the bit of the map, and with no for ordinals from 256 on |
| OrdinalBitmap.SetRefines | swtpm-utils/lib/auditing.c:769-791 | Setting an ordinal in the 32-byte map adds its low byte to the set the map stands for and changes nothing else |
| OrdinalBitmap.ClearRefines | swtpm-utils/lib/auditing.c:793-804 | Clearing takes it out and changes nothing else |
| AuditRuns.DefaultsRefine | swtpm-utils/lib/auditing.c:875-922 | After a reset exactly the ordinals of the default table are members |
| AuditRuns.AuditTables | swtpm-utils/lib/auditing.c:760-906 | The ordinals of the two tables, by number |
| AuditRuns.NeverAuditedKept | swtpm-utils/lib/auditing.c:760-791 | A status change keeps the ordinals that must never be audited out of the map if and only if it is not an enabling of one from 256 on that shares their low byte |
| AuditRuns.NeverClearDefaults | swtpm-utils/lib/auditing.c:760-766 | After a reset none of these ordinals is in the map |
| AuditRuns.NeverAuditedRun | swtpm-utils/lib/auditing.c:760-814 | Over every run from a state without them, no such ordinal ever enters the map |
| AuditRuns.FirstUpdateWritesJunk | swtpm-utils/lib/auditing.c:489-505 | An update is independent of what an uninitialised structure held if and only if the file exists |
| AuditRuns.ExchangeFolds | swtpm-utils/lib/tpmutil.c:1120-1129 | From the raw bytes of any exchange the client extends its digest by exactly the two events of the parsed command if it succeeded and is audited, and by none otherwise; they are the documented events unless the command is a session opener |
| AuditRuns.DisablePubekReadNotHashed | swtpm-utils/lib/transport.c:762 | The table gives this default-audited command a handle it does not have; whatever its auth block, nothing of the request is hashed |
| AuditRuns.ShadowFold | swtpm-utils/lib/auditing.c:521-758 | Over every run between syncs, status changes included, the stored digest is the left fold of SHA1(digest, serialized event) over exactly the audited and successful commands, in order, with the set as it stands at each; the events are the documented ones if no session opener is audited, and nothing else changes |
| AuditRuns.FoldHashes | swtpm-utils/lib/auditing.c:577-625 | Each event of the fold adds one hash, over the digest so far and the 32 bytes of the event |
| AuditRuns.FoldSinceSync | swtpm-utils/lib/auditing.c:521-758 | The same for every run with a digest request in it, from the digest that the last one brought or, if it was a closing one, from zero |
| AuditRuns.SyncComparesFold | swtpm-utils/lib/auditing.c:855-873 | At a sync the calculated digest is the fold since the sync before, status changes included, and it equals what an honest TPM answers if the two agreed there and each step since was steady |
| AuditRuns.StepAgreesExactly | swtpm-utils/lib/auditing.c:262-278 | A step keeps client and TPM in agreement if and only if a status change is accepted by the TPM or changes nothing, a closing digest request finds the default ordinals audited, and no event starts an audit session or is one of a session opener; the only-if as far as the hash does not collide |
| AuditRuns.RunAgrees | swtpm-utils/lib/auditing.c:309-378 | Over every run of such steps, of any mixture of commands, digest, counter and audited set stay equal to those of the TPM |
| AuditRuns.SetsKeptExactly | swtpm-utils/lib/auditing.c:262-378 | A step keeps the sets of audited ordinals equal if and only if its status change is accepted or changes nothing, or its closing request finds the defaults |
| AuditRuns.SyncRestores | swtpm-utils/lib/auditing.c:100-119 | A truthful digest request makes counter and digest equal again, whatever drove them apart |
| AuditRuns.RunAgreesAfterSync | swtpm-utils/lib/auditing.c:100-378 | After any run that kept the sets equal, a digest request and then any run of steady steps, client and TPM agree |
| AuditRuns.SessionStartParts | swtpm-utils/include/tpm_structures.h:1875-1877 | The first audited command on a zero digest drives the counters apart, in every exchange |
| AuditRuns.ResetParts | swtpm-utils/lib/auditing.c:908-922 | An instance: the first command after a reset |
| Hmac.FedWholeExactly | swtpm-utils/lib/hmac.c:339-348 | A list of chunks is digested whole if and only if no empty chunk stands before a non-empty one |
| Hmac.EmptyPartHides | swtpm-utils/lib/hmac.c:339-348 | An instance of a list that is not digested whole |
| Hmac.AuthHmac | swtpm-utils/lib/hmac.c:327-360 | HMAC of SHA1 of the chunks before the first empty one, both nonces and the continue flag; a null pointer before the end of the list is refused |
| Hmac.RawHmac | swtpm-utils/lib/hmac.c:382-412 | HMAC of the chunks before the first empty one, with the same refusal |
| ResponseAuth.TilesGather | swtpm-utils/lib/hmac.c:118-128 | Pairs that tile a range gather exactly its bytes, in order, without leaving the buffer |
| ResponseAuth.CheckHmac1 | swtpm-utils/lib/hmac.c:85-141 | The result of the check of one auth block, code by code, on any buffer whose size field is right |
| ResponseAuth.CheckHmac2 | swtpm-utils/lib/hmac.c:228-300 | The same for two auth blocks |
| ResponseAuth.Response1Fields | swtpm-utils/lib/hmac.c:114-138 | On every response laid out as header, parameters and one 41-byte block, the offsets from the end recover its fields |
| ResponseAuth.Response2Fields | swtpm-utils/lib/hmac.c:254-297 | The same for two blocks |
| ResponseAuth.Auth1Agreement | swtpm-utils/lib/hmac.c:85-141 | If SHA-1 and HMAC do not collide on the two, a response is accepted if and only if client and TPM agree on return code, ordinal, parameters, both nonces and the flag |
| ResponseAuth.Auth2Agreement | swtpm-utils/lib/hmac.c:228-300 | The same for both blocks of a two-session response |
| Migrate.CmkDigestExactly | swtpm-utils/lib/migrate.c:1126-1239 | In all four cases of empty and non-empty tickets the digest covers the ordinal and exactly the wire bytes between parent handle and auth block, if and only if migration blob and MSA list are not empty |
| Migrate.EmptyBlobCutsDigest | swtpm-utils/lib/migrate.c:1150-1239 | An instance of a digest that is not that of the wire bytes |
| Migrate.CmkAuthorize | swtpm-utils/lib/migrate.c:1150-1216 | The four separate calls digest the one list of chunks |
| Migrate.MigrationResponse | swtpm-utils/lib/migrate.c:294-329 | Both lists of pairs, for an empty and a non-empty first field, tile the output parameters, and the two regions copied out are the two sized fields |
| Migrate.HonestMigration | swtpm-utils/lib/migrate.c:294-411 | For every honest layout the result of the check is 0 if and only if the MACs match over all parameters |
| Migrate.CheckMigrationResponse | swtpm-utils/lib/migrate.c:365-411 | The result of the check on any response, code by code, with one session or two; for every honest layout it is accepted if and only if its MACs match over all its parameters, and the copies are then the two fields |
| Delegation.BlobFile.Find | swtpm-utils/lib/delegation.c:649-698 | The search ends on every content of the file, with the cursor at the first match or where no header could be read |
| Delegation.BlobFile.Get | swtpm-utils/lib/delegation.c:750-776 | The blob or the error that the content determines, when the environment names no blob file of its own |
| Delegation.BlobFile.Add | swtpm-utils/lib/delegation.c:778-815 | Header and blob are written over what stands where the search ended |
| Delegation.HeaderFields | swtpm-utils/lib/delegation.c:626-634 | Each field of the header reads back at its offset |
| Delegation.AddBehindResidue | swtpm-utils/lib/delegation.c:665-688 | On a file that ends in bytes too few for a header a new record goes behind them |
| Delegation.BlobFile.Reset | swtpm-utils/lib/delegation.c:817-826 | A reset leaves the file of no records |
| Delegation.ScanFile | swtpm-utils/lib/delegation.c:649-698 | On every file of records the search finds the first record of the entity, or the end of the file |
| Delegation.GetIsLookup | swtpm-utils/lib/delegation.c:736-776 | On every file of records, getting a blob is looking up the map, with the error for a missing entity and the one for a small buffer |
| Delegation.AddIsPutExactly | swtpm-utils/lib/delegation.c:778-815 | Adding leaves exactly the file of the updated records if and only if the entity is new, the blob keeps its size, or the record is the last and the blob no shorter |
| Delegation.AddLookupsExactly | swtpm-utils/lib/delegation.c:736-815 | After any addition over a record the file answers every lookup as the updated map does, with buffers of any size, if and only if what the addition left behind answers for the entities that have no record before it |
| Delegation.ShortenedLookupsExactly | swtpm-utils/lib/delegation.c:736-815 | After shortening the last record all lookups are those of the updated map if and only if the end of the old blob seems to name no entity without a record, which it never does if it is shorter than a header |
| Delegation.FrontKept | swtpm-utils/lib/delegation.c:736-815 | Whatever the sizes, entities whose records stand before the one replaced are looked up as ever |
| Delegation.GrowthSwallows | swtpm-utils/lib/delegation.c:778-815 | A first record that grows by the size of the second takes its place |
| Delegation.AddLosesRecord | swtpm-utils/lib/delegation.c:736-815 | An instance of an addition that loses a record |
| Delegation.GetAfterAdd | swtpm-utils/lib/delegation.c:736-815 | After an addition to any file of records the search for the entity gives the new blob, whether or not the record fitted |
| Delegation.PutEntries | swtpm-utils/lib/delegation.c:778-815 | Replacing or appending a record changes the map at one key only |
| Delegation.RunIsMap | swtpm-utils/lib/delegation.c:778-815 | Over every run of additions that fit the file stays a file of records, whose map is the one the same updates give |
| Pcr.GenPcrInfo | swtpm-utils/lib/pcrs.c:609-698 | For every map and any failing read: the code of the first failure with the buffer untouched, or the structure whose two digests are SHA-1 of the serialized TPM_PCR_COMPOSITE, or a length of 0 for no registers |
| Pcr.GatherValues | swtpm-utils/lib/pcrs.c:651-672 | The value array, sized by the counting loop, is written inside its bounds, in ascending order of registers, and filled exactly |
| Pcr.CountRegisters | swtpm-utils/lib/pcrs.c:638-645 | The count is the number of registers the gathering loop reads |
| Pcr.SelectedIs | swtpm-utils/lib/pcrs.c:651-658 | A register is read exactly if its bit is set, once, in ascending order |
| Pcr.SelectionBits | swtpm-utils/lib/pcrs.c:631-637 | Each of the 24 bits stands in the selection bytes where section 8.1 of TPM Main Part 2 puts it |
| Pcr.WordRoundTrip | swtpm-utils/getcapability.c:486-493 | Three selection bytes made into a word and back are the same, whatever the fourth byte holds |
| Pcr.ShowReadPcrs | swtpm-utils/getcapability.c:469-518 | The list displayed, and for selections of three bytes the verdict: it says yes exactly if the stored digest is that of the composite of the selection and the values of the registers displayed |
| Pcr.ShownIsSelected | swtpm-utils/getcapability.c:469-481 | The registers displayed are those that the gathering loop reads |
| Pcr.HashedAsShownExactly | swtpm-utils/getcapability.c:486-493 | What is hashed is the composite of the displayed selection if and only if that has three bytes |
| Pcr.CompositeInjective | swtpm-utils/lib/newserialize.h:100-112 | A serialized composite determines the selection and every value |
| Pcr.LengthCountsPadding | swtpm-utils/lib/pcrs.c:611-617 | The length told is one more than that of the structure on the wire, as it counts a byte of padding |
| KeyBlob.KeySize | swtpm-utils/lib/keys.c:1131-1147 | For every key serialized at any offset of any larger buffer the walk returns its exact length, even with an empty modulus; where the walk over the public part is refused its error is returned |
| KeyBlob.PubKeySize | swtpm-utils/lib/keys.c:1154-1187 | The walk over two or three sized fields in any buffer, and where it refuses |
| KeyBlob.WalkFollowsPart | swtpm-utils/lib/keys.c:1154-1187 | For every public part in any buffer the walk ends where it ends, unless its modulus is empty and nothing follows |
| KeyBlob.WalkFindsPart | swtpm-utils/lib/keys.c:1154-1187 | Where a walk ends, a well-formed public part of that length does stand |
| KeyBlob.WalkFollowsKey | swtpm-utils/lib/keys.c:1131-1147 | In a key the walk over the public part never stops short, and the private length read behind it ends the key |
| KeyBlob.KeyHeadReads | swtpm-utils/lib/newserialize.h:762-775 | The fields of fixed size in a key read back at their offsets |
| KeyBlob.Key2Pub | swtpm-utils/lib/keys.c:1088-1123 | For every serialized key the copies make up the serialization of its TPM_PUBKEY, with the right length, and touch nothing behind it |
| AuthEncryption.CreateEncAuth | swtpm-utils/lib/oiaposap.c:73-125 | Bit by bit, the output is the value XORed with SHA1 of the secret and then the nonce, or with AES under the first half of the secret counting from the first half of the nonce, as the session's kind and entity type ask for |
| AuthEncryption.CtrEncrypt | swtpm-utils/lib/tpmutil.c:1305-1338 | The in-place loop over whole and partial blocks XORs each byte, bit by bit, with that of the encrypted counter as many steps on as blocks precede it, and leaves the counter of the last block |
| AuthEncryption.XorIsBitwise | swtpm-utils/lib/tpmutil.c:1345-1356 | Each bit is the exclusive or of the same bits of the two bytes |
| AuthEncryption.PadAt | swtpm-utils/lib/tpmutil.c:1305-1338 | Each byte of the pad comes from the counter as many steps on as blocks precede it, the low word counted modulo 2^32 and the other twelve bytes left alone |
| AuthEncryption.EncAuthTwice | swtpm-utils/lib/oiaposap.c:73-125 | In both modes encrypting twice gives the value back |
| Sessions.SharedOpen | swtpm-utils/lib/oiaposap.c:176-284 | An OSAP or DSAP opening: the request holds ordinal, entity type, entity value, odd nonce and entity at their offsets; what the TPM answers decides the result; both ends make their secrets of the same two nonces, and hold the same nonce and entity type |
| Sessions.OiapOpen | swtpm-utils/lib/oiaposap.c:132-159 | An OIAP opening: the request sent, the result that the TPM decides, and the handle and the nonce read from the response |
| Sessions.SessionOpen | swtpm-utils/lib/oiaposap.c:339-465 | The type, the request, field by field, and the code that mask, preference, entity type, delegation file and the answer of the TPM determine; a failure opens nothing, and a success opens one new session on whose secret, nonce and mode both ends agree if the authorization is right |
| Sessions.OpenKind | swtpm-utils/lib/oiaposap.c:396-465 | The same for each type of session |
| Sessions.OpenRequestFields | swtpm-utils/lib/oiaposap.c:191-195 | The fields of an opening request read back at their offsets |
| Sessions.NeededBlobIs | swtpm-utils/lib/oiaposap.c:398-437 | Which blob each entity type needs, by number |
| Sessions.OpensAllowedExactly | swtpm-utils/lib/oiaposap.c:365-465 | An allowed type is opened if and only if OIAP is allowed, or a wanted DSAP has its blob, or OSAP is allowed and not displaced by a wanted DSAP |
| Sessions.OpensDisallowed | swtpm-utils/lib/oiaposap.c:365-465 | An instance of a session of a type that the mask does not allow |
| Sessions.PreferenceHonoured | swtpm-utils/lib/oiaposap.c:365-465 | For every mask with OIAP or OSAP and every preference but DSAP an allowed type is opened; an allowed preference is followed unless it is DSAP without its blob |
| Sessions.SessionClose | swtpm-utils/lib/oiaposap.c:305-489 | A session that is open and that the TPM does not refuse to close is gone, and 0 is returned then only; every other session stays, on a TPM with TerminateHandle and on one without |
| Sessions.EncryptedAuthArrives | swtpm-utils/lib/oiaposap.c:73-125 | In a session on whose ends both sides agree the TPM decrypts what the client encrypted, in XOR and CTR mode |
| ChangeAuth.ChangeKeyAuth | swtpm-utils/lib/chgauth.c:73-213 | Every way out leaves the TPM with the sessions it had, but for new ones that it refuses to close. Which code is returned, and what is sent, field by field, is told for every answer of the TPM. With the right authorizations the request is accepted, and the new one decrypted from it, if and only if DSAP is not preferred or the parent key has a delegation blob; and 0 is returned if and only if the response carries the MACs of the secrets the TPM holds for the two sessions, the parent first, the new data then being its sized data |
| ChangeAuth.BuildRequest | swtpm-utils/lib/chgauth.c:122-180 | When the request is built, with which code it is refused, and its fields at their offsets; both MACs cover the bytes that are sent, and it is accepted if and only if the sessions are of the right kinds |
| ChangeAuth.RequestIsLaidOut | swtpm-utils/lib/chgauth.c:156-174 | Every field of the request stands at its offset: tag, size, ordinal, key handle, protocol, entity type, sized data, and in both blocks the session handle, the odd nonce and the flag |
| ChangeAuth.OpenBoth | swtpm-utils/lib/chgauth.c:109-121 | Either both sessions are new and asked for as they should be, or none is left that the TPM does not refuse to close; the code is the first that fails |
| ChangeAuth.BalancedExactly | swtpm-utils/lib/chgauth.c:73-213 | A TPM that refuses nothing has exactly the sessions it had |
| ChangeAuth.HonestResponse | swtpm-utils/lib/chgauth.c:200-210 | A response with sized data and two blocks gives 0 if and only if each block carries the MAC of its code, the ordinal and that data under the secret of its session |
| ChangeAuth.AcceptedIfAgreed | swtpm-utils/lib/chgauth.c:129-180 | From its raw bytes the TPM finds both MACs right and recovers the new authorization, for every size of the data, and accepts the request if and only if its first session is OSAP or DSAP and its second OIAP |
| ChangeAuth.ParentKind | swtpm-utils/lib/chgauth.c:109-121 | For every preference, the parent session is OSAP or DSAP if and only if DSAP is not preferred or has its blob; the other session is always OIAP |
| ChangeAuth.ChangeChunksFed | swtpm-utils/lib/chgauth.c:129-155 | The chunks digested are the ordinal and the parameters as they stand on the wire, with the one part that may be empty last |
| ChangeAuth.CheckChangeAuthResponse | swtpm-utils/lib/chgauth.c:195-210 | The code returned for any response; it is accepted if and only if it has the sized data and both MACs match, and the copy is that data |
| ChangeAuth.ChangeResponse | swtpm-utils/lib/chgauth.c:195-210 | In an honest response the pairs cover all parameters and the region copied out is the data |

## Left out

- KeySwap.KeySwapper.WriteContext: `fwrite` and `fclose` are taken to succeed, because the source does not look at their results; were they to fail, the key would be evicted without its context.
- KeySwap.KeySwapper.NeedKeysRoom: does not model the 32-bit wrap of slot counts, which would take more than 2^31 slots.
- KeySwap.KeySwapper.LoadContext: TPM_SaveContext, TPM_LoadContext, TPM_EvictKey and the capability queries are assumptions: a key comes back under the handle it was saved with, the handle list has no duplicates and no fixed handle, and no more keys are resident than fit.
- What the environment answers, in both the key manager and the sessions, is a function of how many operations were made before, which is any behaviour there can be; swap files are written by nobody else.
- Nested calls of the manager from inside its own TPM commands (through the transport layer) appear only as the guard that shuts them out.
- AuditRuns.RunAgrees: the TPM is assumed to audit a command once it has succeeded, a status change with the set in force after it, to raise its audit counter by one at the first event on a zero digest, and to answer digest requests truthfully; handles that the table counts are not among the parameters it audits.
- AuditRuns.StatusRefines: ordinals from 256 on are left to NeverAuditedKept, because they share bits with smaller ones; the runs change the status of smaller ones only.
- The parsing of the responses of TPM_GetAuditDigest and TPM_GetAuditDigestSigned, and the writing of the audit file to disk, beyond the state they lead to.
- Hmac.AuthHmac: null nonce pointers, which are refused as null chunks are.
- ResponseAuth.CheckHmac1: does not model the 32-bit wrap of the sum of a pair's offset and length.
- Migrate.CheckMigrationResponse: relies on the tag that TPM_Transmit has compared with that of the request; over a character device, where it does not compare them, on an honest TPM.
- The session handling of TPM_CMK_CreateBlob and TPM_CreateMigrationBlob, some of whose ways out keep the session open.
- Delegation.BlobFile.Get: the blob file named by the environment, which the source tries first, and failures to open the file.
- Pcr.GenPcrInfo: the registers do not change while they are read; the layout of the structure is that of the usual 2-byte alignment.
- Pcr.ShowReadPcrs: the output itself, and the part of the display that concerns writing.
- KeyBlob.PubKeySize: does not model offsets that wrap at 2^32, because only malformed length fields lead there.
- KeyBlob.KeyBytes: key parameters and PCR information are length-prefixed byte strings of any content.
- Sessions.SessionOpen: a null password, which the source copies from before it tests it; the entity type is given without its encryption byte.
- Sessions.SharedOpen: a response too short for its fields after a successful opening, which no honest TPM sends; OSAP and DSAP share one method because they differ only in the ordinal and the sized entity.
- ChangeAuth.ChangeKeyAuth: the room made for the parent key enters only through its return value, because that of keyswap.c is modelled on its own; the copy into the key's buffer is the returned value, not a write into that buffer.
- The 32-bit limits of buffers, `malloc`, null file names, environment variables as such, sockets and devices, and the serializers TSS_buildbuff and TSS_parsebuff, whose formats are modelled as the bytes they lay out.
- TSS_checkhmac1New, TSS_AsymKeySize, TSS_SymKeySize, the transport sessions and the other one-command wrappers, which would add only easy members.
- The command-line programs but for the display of PCR selections, the yum plugin and the packaging.
