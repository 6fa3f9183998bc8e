# Pico Keys: a verified model

Pico Keys is security-key firmware in C with a Python tool that provisions the boot fuses of the board.
This project models its nine hardest components in Dafny and proves what each is for, over every input, every
reachable state or every run. `dafny verify dfyconfig.toml` checks all of it.

A component is modelled twice where the firmware changes state in place: as a specification over values, and
as a class or an array method that does what the C code does, loop by loop, and is proved equal to the
specification. The theorems about whole runs are about the specification.

| files | component |
|---|---|
| `FusePlan`, `FuseResume`, `FuseSafety`, `FuseStages`, `FuseBoard` | staged, write-once programming of the boot fuses (`firmware.py`) |
| `Apdu`, `CommandChain` | response and command chaining of the APDU layer, sections 5.3.3 and 5.3.4 of ISO/IEC 7816-4:2013 |
| `AuditLog`, `AuditRecord`, `AuditEntries` | the audit journal: a ring of 128 slots with a hash-chain epoch |
| `ClientPin`, `ClientPinProofs`, `DeviceKey`, `KeyPowerLoss`, `PinAccess`, `PinHandler` | PIN retries, soft lock, device-key wrapping and power loss, section 6.5 of CTAP 2.1 |
| `Tlv`, `SecureMessaging`, `SmVerdict`, `SmChannel` | BER-TLV (section 8.1 of ITU-T X.690) and in-place secure messaging with AES |
| `LargeBlobs`, `LargeBlobAccess` | the fragmented large-blob upload, section 6.10 of CTAP 2.1 |
| `RpIndex`, `CredMgmt`, `PatientWalk` | enumeration over several commands, section 6.8 of CTAP 2.1 |
| `GetAssertion` | filtering, sorting and presenting assertions, sections 6.2 and 6.3 of CTAP 2.1 |
| `Hkdf`, `VaultBlob` | HKDF-Expand (section 2.3 of RFC 5869) and the layered vault blob |
| `Bytes` | bytes, numbers in bytes, and memcpy and memmove on arrays |

Cryptography is a value of arrow type, with the laws a proof needs as its precondition: decryption inverts
encryption, a MAC or hash has its length, an authenticated decryption accepts only what encryption made. These
laws can be met: `KeyPowerLoss.IdealIsLawful`, `SecureMessaging.IdentityIsLawful` and
`VaultBlob.IdentityIsLawful` name values that keep them. In the PIN and audit models a list holds every content
of the flash that may be found after a power loss: a write is visible at once but certain to stay only after a
successful synchronous commit. Each PIN content carries the PIN comparisons made since its count was last set
to 8. Clocks, channels, fresh nonces, user presence and authorization verdicts are inputs. Integers wrap where
C integers do: 16-bit lengths, 32-bit clocks, 8-bit counters.

## What the code does that its callers may not expect

Each of these is a theorem below, with the exact condition where there is one.

- Limiting a response that is already chained loses bytes (`Apdu.LimitIntactIff`). With the 2048-byte buffer
  of the drivers a chained first chunk never exceeds the limit, so the case does not arise there.
- A fingerprint that contains a zero word leaves that word blank, and load-key will accept a different key
  for the slot while its page is open (`FuseSafety.SlotAcceptsAnotherKey`).
- `check_keydev_encrypted` looks at the first byte only, so a 32-byte legacy key file that starts with 0x01
  loses its key to the first setPIN, getToken or changePIN that checks it, unless that command has just
  upgraded a legacy PIN record and so written the file anew (`DeviceKey.StepKeepsKey`).
- changePIN wraps the device key for the new PIN before it stores the new PIN record, so a power loss between
  the two leaves a key that no PIN opens (`KeyPowerLoss.ChangeSurvivesPowerLossIff`). When getToken upgrades a
  legacy PIN record it has the same gap (`KeyPowerLoss.TokenSurvivesPowerLossIff`); when changePIN upgrades
  one, the key file is open while the record changes, and nothing is lost.
- The padding before encryption and before the MAC adds a whole zero block when 0x80 ends a block
  (`SecureMessaging.PadIsMinimalIff`). For the MAC this never happens with 16-byte blocks.
- Of a two-byte tag only the low byte enters the MAC of a command, so two data objects whose tags differ in the high
  byte have the same MAC (`SmVerdict.MacInputIff`).
- `tlv_len_tag` computes in 16 bits (`Tlv.LenTagExactIff`), and the walker takes lengths that the writer would
  not produce (`Tlv.ReencodeIff`).
- A credential begin (0x04) that fails half-way leaves a total and a counter with which the next 0x05 is not
  refused (`CredMgmt.FailedBeginIff`), and an RP begin over too many RPs leaves the previous total
  (`CredMgmt.OverfullBeginIff`). A credential whose key cannot be derived breaks the walk, because the saved
  RP hash is released (`CredMgmt.EnumerationIff`).
- GetNextAssertion from another channel ends the walk of its owner (`GetAssertion.AssertionWalk`).
- An upload whose first fragment is empty cannot be continued: the second fragment again has offset 0 and
  counts as a start (`LargeBlobs.EmptyFirstFragmentStalls`).

## Model

| member | source | states |
|---|---|---|
| FusePlan.Matches | firmware.py:395 | The slots found are exactly those that are trusted and hold the whole fingerprint. |
| FusePlan.CountBounds | firmware.py:295-297 | A bit that every row holds counts all of them; a bit that counts is held by some row. |
| FusePlan.CountOfProgrammed | firmware.py:319-327 | Programming a row never lowers the count of a bit and leaves other bits alone, so a vote once won is never lost. |
| FuseResume.ResumeAfterOne | firmware.py:385-443 | After the first write of any plan, planning again from the new fuses gives exactly the remaining writes. |
| FuseResume.CrashResumption | firmware.py:385-443 | For every action, state, fingerprint and slot: after any prefix of a plan is burned, planning again gives exactly the rest; after all of it, nothing. |
| FuseResume.InterruptionsConverge | firmware.py:647-648 | However often burning is cut short and started over, the board holds the first so many writes of the first plan, and all of it once enough were allowed. |
| FuseResume.LocksComeLast | firmware.py:430-442 | In a plan the page locks come after every write that they would forbid. |
| FuseResume.PagesStayOpen | firmware.py:439-442 | Burning the first write leaves open every page that the rest of the plan writes. |
| FuseResume.RevocationKeepsTrust | firmware.py:428-430 | Revoking the other slots row by row never takes trust from the one trusted slot. |
| FuseSafety.FirstWritePermitted | firmware.py:394-442 | Every write of every plan is one its action may make: key words only while the slot is not yet valid, the valid bit only once the words are there, Secure Boot only when hardened and trusted, locks only after Secure Boot. |
| FuseSafety.RunGrows | firmware.py:385-443 | Over any run of interrupted plans no fuse bit is ever cleared and no written word changes; safety, once there, stays. |
| FuseSafety.SafeAlongPlan | firmware.py:385-443 | At every prefix of every plan bits are only added and the boot-safety invariant holds. |
| FuseSafety.SafeMeaning | firmware.py:295-297 | What the invariant gives: a voted Secure Boot bit means voted hardening bits and a trusted, unrevoked slot with a key in it. |
| FuseSafety.StagedBootSafety | firmware.py:394-430 | From a blank board, after any run of plans cut anywhere: if Secure Boot wins the vote, so do all hardening bits, and some trusted, unrevoked slot holds a key. |
| FuseSafety.ValidBitComesLast | firmware.py:396-409 | At every prefix of a load-key plan the valid bit of a fresh slot wins the vote only if all 16 fingerprint words equal the key. |
| FuseSafety.StoredKeyIsStable | firmware.py:399-406 | A stored fingerprint without zero words stays what it is over every run. |
| FuseSafety.TrustIsStable | firmware.py:394-430 | A trusted slot stays trusted over every run of interrupted plans, whatever keys and slots they are for. |
| FuseSafety.EnabledKeyStaysBootable | firmware.py:411-430 | Once an enable stage is accepted for a key without a zero word, its slot holds that key and is trusted after every later run. |
| FuseSafety.SlotAcceptsAnotherKey | firmware.py:385-443 | Load-key accepts some other fingerprint for a slot that stores one if and only if one of its 16 words is blank, no access key is set, the slot is not revoked, page 2 is open, and page 1 is open or the valid bit is in every copy. |
| FuseSafety.FingerprintOf | firmware.py:401 | Every 16 words are the words of some fingerprint, read two bytes at a time, low byte first. |
| FuseSafety.LockCompletes | firmware.py:423-436 | After a lock plan is burned the board is locked. |
| FuseSafety.LockLeavesOneKey | firmware.py:394-430 | After a lock plan is burned exactly the one slot that was trusted is trusted, it holds the signing key, and every other slot is revoked in every copy. |
| FuseSafety.LockedPlansNothing | firmware.py:396-442 | On a locked board every action, fingerprint and slot is refused or plans nothing. |
| FuseSafety.LockedIsAbsorbing | firmware.py:396-442 | No run changes a locked board. |
| FuseStages.PlansNothingIff | firmware.py:390-438 | An accepted stage plans nothing if and only if it is achieved: key words stored and valid bit in all three flags rows, hardening bits or Secure Boot bit in all eight critical rows, or pages locked and other slots revoked. |
| FuseStages.CompletedStage | firmware.py:385-443 | After the whole plan of any stage is burned the stage is achieved in every row. |
| FuseStages.EnableCompletes | firmware.py:415-422 | After a completed enable stage every critical row holds what lock asks for, and Secure Boot and all hardening bits win the vote. |
| FuseStages.StageAcceptedIff | firmware.py:394-438 | The exact boards on which each stage is accepted: load-key on a slot that is not revoked and blank or equal word by word, harden with exactly one trusted match, enable on hardened rows with the valid bit in every copy, lock with everything set, one trusted key and compatible page locks. |
| FuseStages.PlanAcceptedIff | firmware.py:385-443 | A plan is made if and only if the request is valid, no access key guards the pages, the stage accepts the board, and every page on which something is missing is open. |
| FuseStages.TwoCopiesClose | firmware.py:439-442 | A page counts as closed as soon as two of the three copies of its lock row have one of the BOOTSEL bits. |
| FuseStages.PlanFrame | firmware.py:394-438 | At every prefix of its plan a stage leaves the registers of the other stages as they were. |
| FuseStages.ProvisioningSucceeds | firmware.py:385-443 | From a blank board, for every key and slot, the four stages in turn are accepted and end on a locked board with Secure Boot and all hardening bits voted, exactly that slot trusted with exactly that key, and all others revoked. |
| FuseBoard.Board.PlanStage | firmware.py:385-443 | Appending writes stage by stage gives the planned list or the same refusal. |
| FuseBoard.Board.CollectWrites | firmware.py:390-438 | The writes and refusals of one action, collected in loops over rows and words. |
| FuseBoard.Board.WriteRow | firmware.py:319-327 | One row is programmed and the read-back tells whether the row now holds exactly the value written. |
| FuseBoard.Board.BurnPlan | firmware.py:647-648 | Burning a fresh plan up to any cut never fails its read-back and leaves the state of that cut. |
| FuseBoard.FreshWriteReadsBack | firmware.py:326-327 | Every write of a fresh plan, in turn, reads back as the value written. |
| Apdu.NextSends | pico-keys-sdk/src/apdu.c:308-331 | The first chunk is the start of the response, followed by 61 xx with the true number of bytes left, or 0 for 256 and more; the rest stays recoverable although two bytes of it were overwritten. |
| Apdu.GetResponseSends | pico-keys-sdk/src/apdu.c:175-232 | A GET RESPONSE sends the next bytes of what is unsent, status word last, and leaves exactly the remainder. |
| Apdu.LimitBeforeChaining | pico-keys-sdk/src/apdu.c:333-355 | Limiting a whole response is chaining it with the limit as Le. |
| Apdu.LimitIntactIff | pico-keys-sdk/src/apdu.c:333-355 | Limiting leaves the response intact if and only if it does not cut a response that was already chained. |
| Apdu.LimitFits | pico-keys-sdk/src/apdu.c:333-355 | With a limit of at least 2, limiting a response that was not chained never answers more than the limit: a response that fits is left alone, of any other the transport gets as much as it carries and 61, and the rest is kept. |
| Apdu.LimitAfterChainingLosesBytes | pico-keys-sdk/src/apdu.c:343-352 | A concrete response that is chained and then limited, after which eight bytes can never be fetched. |
| Apdu.ServeIsWire | pico-keys-sdk/src/apdu.c:175-232 | For every list of Le values the chunks are those of a buffer that is never overwritten. |
| Apdu.ExchangeIsWire | pico-keys-sdk/src/apdu.c:297-331 | The same for the whole exchange with a nonzero status word, from the finished response on. |
| Apdu.WireLosesNothing | pico-keys-sdk/src/apdu.c:175-232 | Joining the chunks, with the 61 xx trailer off all but the last, gives the body and status word, or the prefix asked for and the count of what is left. |
| Apdu.ChunkAnnounces | pico-keys-sdk/src/apdu.c:308-331 | The size of each chunk, and its last two bytes: 61 and the number of bytes left up to 255, 0 for more, or the status word of the response. |
| Apdu.ResponseChainingIsLossless | pico-keys-sdk/src/apdu.c:175-232 | For every body, nonzero status word and list of Le values: every chunk but the last says 61 xx, and joined without these trailers they are the prefix of the body asked for and the count of the rest, or all of body and status word as soon as the Le values cover the body. |
| Apdu.Responder.FinishResponse | pico-keys-sdk/src/apdu.c:297-306 | The status word is written right behind the body. |
| Apdu.Responder.NextChunk | pico-keys-sdk/src/apdu.c:308-331 | The in-place step of the first chunk; a zero status word sends nothing and changes nothing. |
| Apdu.Responder.GetResponseChunk | pico-keys-sdk/src/apdu.c:175-232 | The in-place step of a GET RESPONSE: restore the two bytes, then send the end or stamp further on. |
| Apdu.Responder.LimitChunk | pico-keys-sdk/src/apdu.c:333-355 | The in-place step of the limit. |
| CommandChain.BufferIsCurrentRun | pico-keys-sdk/src/apdu.c:44-97 | After any history the chain is open if and only if a run is in progress, and then it holds the header and the concatenation of exactly the fragments of that run. |
| CommandChain.DispatchesWholeRun | pico-keys-sdk/src/apdu.c:72-97 | What is dispatched is the data of the command alone, or all fragments of the run in order and then that data. |
| CommandChain.CompleteRunIsDispatched | pico-keys-sdk/src/apdu.c:82-96 | A complete run that fits is dispatched whole. |
| CommandChain.RunIsDropped | pico-keys-sdk/src/apdu.c:53-88 | Another header, an overflow or a SELECT drops the run. |
| CommandChain.WithoutRun | pico-keys-sdk/src/apdu.c:44-97 | Without an open run a fragment of up to 2037 bytes opens one, a longer one is refused, and any other command goes on with its own data. |
| CommandChain.InRunIff | pico-keys-sdk/src/apdu.c:44-97 | In an open run, exactly which commands are accepted as fragments, refused for their length, refused as not the last of the chain, or dispatched; an accepted fragment goes behind the run. |
| CommandChain.SameHeaderIff | pico-keys-sdk/src/apdu.c:44-60 | Two commands count as the same if they differ in nothing but data and the chaining bit of the class byte. |
| CommandChain.Chainer.AddFragment | pico-keys-sdk/src/apdu.c:44-70 | The fragment branch on the chain buffer and its globals. |
| CommandChain.Chainer.FinishCommand | pico-keys-sdk/src/apdu.c:71-97 | The last-command branch: reject, or move the data up and put the fragments in front. |
| AuditLog.SetBitIsOr | src/fido/audit.c:111 | Setting a target bit in a mask is an OR. |
| AuditLog.NewEntryStandsFor | src/fido/audit.c:85-95 | A new entry stands for its report and carries its sequence number. |
| AuditLog.BumpStandsFor | src/fido/audit.c:106-112 | Coalescing a report into an entry: its count is the number of merged reports up to saturation, the mask of a config write the OR of all merged targets, and the sequence number stays. |
| AuditLog.AppendFaithful | src/fido/audit.c:96-122 | Every append keeps each entry of the whole history standing for exactly the reports merged into it. |
| AuditLog.ReportsConserved | src/fido/audit.c:96-122 | Over any run of reports, failed flushes, scrubs and power losses, and in every record that may be found, the reports of each kind merged into the history are those written there; between two power losses these are the persisted ones, in order. |
| AuditLog.CommittedNeverLost | src/fido/audit.c:39-43 | A report whose record was committed synchronously is in everything that any later run can find, behind all that was taken before it. |
| AuditLog.EntrySumIsTally | src/fido/audit.c:107-110 | The sum over entries of 1 + repeat count never exceeds the number of reports of a kind, and equals it if and only if no entry of that kind saturated at 16 bits. |
| AuditLog.AuditorCountsReports | src/fido/audit.c:96-122 | From an empty journal, in every record a run may leave: an auditor who adds 1 + repeat count gets the number of reports of a kind written there if and only if none saturated. |
| AuditLog.EvictedNeverAltered | src/fido/audit.c:78-122 | Whatever a run may leave in flash goes on from a record that was there before it: entries already evicted stay as they were and none leaves the history. |
| AuditLog.FoldSplit | src/fido/audit.c:63-66 | Folding a history in two parts is folding it at once. |
| AuditLog.ScrubKeepsHead | src/fido/audit.c:125-135 | A scrub changes neither the head nor the next sequence number. |
| AuditEntries.EntryLayout | src/fido/audit.c:78-117 | Byte by byte what a new entry holds: number, wall time or milliseconds and which of the two, kind, auxiliary byte, detail cut or padded to eight bytes, zero count; for a configuration write only the mask bit of its target. |
| AuditEntries.RefusedIff | src/fido/audit.c:78-80 | A report is refused only when the 32-bit sequence number is used up and it cannot join an entry. |
| AuditEntries.FirstReportOfABoot | src/fido/audit.c:100-101 | The first report of a boot is entered behind a boot entry and never joins another. |
| AuditEntries.SeparateReportAdds | src/fido/audit.c:101-116 | Later a report that may not be merged always adds exactly one entry, its own, and changes none. |
| AuditEntries.RepeatedReportJoinsIff | src/fido/audit.c:101-118 | A report that may be merged adds no entry if and only if a kept entry of its kind exists (for a configuration write: is the last one); the latest such entry then counts one more and no other entry changes. |
| AuditEntries.WindowSlides | src/fido/audit.c:81-84 | An entry leaves the window only when 128 are kept. |
| AuditEntries.LatestAreKept | src/fido/audit.c:81-84 | Without scrubs every record a run may leave keeps the latest 128 entries, or all. |
| AuditEntries.ScrubForgets | src/fido/audit.c:130-131 | After a scrub nothing is left to export and the next report joins no entry. |
| AuditEntries.BootComesFirst | src/fido/audit.c:100-119 | Since power-up, while commits work, the journal takes in one boot report, before the first report, and then exactly the reports made, in order. |
| AuditEntries.HeadBindsHistory | src/fido/audit.c:63-66 | Two histories of one length with the same head are equal entry by entry, or two inputs with one hash exist. |
| AuditEntries.HeadOfTwo | src/fido/audit.c:136-140 | The chain starts from the genesis digest and takes the entries in order. |
| AuditRecord.CarriedLoads | src/fido/audit.c:53-61 | A record that carries a log passes the checks of load. |
| AuditEntries.TamperedIsRefused | src/fido/audit.c:57-59 | A record in which the number of a kept slot is overwritten loads if and only if the number is the same. |
| AuditEntries.OtherVersionIsRefused | src/fido/audit.c:55-56 | A record with another version byte is refused. |
| AuditRecord.AuditJournal.StoredLoads | src/fido/audit.c:44-61 | What is stored always passes those checks and carries the log, whatever flushes failed. |
| AuditRecord.AuditJournal.CheckRecord | src/fido/audit.c:55-60 | The loop over the window accepts exactly the records whose kept slots carry their sequence numbers. |
| AuditRecord.AuditJournal.Load | src/fido/audit.c:44-61 | The buffer becomes the stored record or the genesis record; false exactly when the record fails the checks. |
| AuditRecord.AuditJournal.AppendOne | src/fido/audit.c:78-95 | Evicting if the ring is full and placing the entry carries the log with one more entry; refused only at the last sequence number. |
| AuditRecord.AuditJournal.EvictOldest | src/fido/audit.c:81-84 | The oldest entry goes into the epoch hash and out of the window. |
| AuditRecord.AuditJournal.PlaceEntry | src/fido/audit.c:85-94 | The entry is built in its slot and no kept entry changes. |
| AuditRecord.AuditJournal.FindMerge | src/fido/audit.c:102-106 | The backward search finds the entry that coalescing rules allow, or none. |
| AuditRecord.AuditJournal.MergeInto | src/fido/audit.c:107-112 | Count and mask are patched in the slot, nothing else. |
| AuditRecord.AuditJournal.AppendReport | src/fido/audit.c:96-124 | The whole append on the record buffer, the file and boot_logged; disabled, it changes nothing. |
| AuditRecord.AuditJournal.ScrubDetails | src/fido/audit.c:125-135 | The scrub on buffer and file, with its result and a failed flush. |
| AuditRecord.AuditJournal.PutRecord | src/fido/audit.c:39-43 | A written record is read from then on, also when its commit fails; only a successful commit makes it the one that can be found. |
| AuditRecord.AuditJournal.FoldWindow | src/fido/audit.c:130-131 | The window is folded into the epoch and the slots are cleared. |
| AuditRecord.AuditJournal.Head | src/fido/audit.c:136-140 | The head is the fold of the whole logical history, although only the last entries are stored. |
| AuditRecord.AuditJournal.ExportWindow | src/fido/audit.c:143-146 | The exported window is the kept part of the history and its epoch the fold of exactly the evicted part. |
| AuditRecord.AuditJournal.PowerUp | src/fido/audit.c:33 | One of the records that may be in flash is found, and the boot flag is lost. |
| ClientPinProofs.StepBounded | src/fido/cbor_client_pin.c:589-643 | Every command, power loss and reset keeps, for each content the flash may hold: the comparisons made since that content last had its count set to 8, plus its count, do not exceed 8. |
| ClientPinProofs.BoundedGuessing | src/fido/cbor_client_pin.c:90-99 | In every run with power cuts at any point, the PIN comparisons made since the visible count was last set to 8 never exceed 8 minus that count, also when the write that would reset it is lost. |
| ClientPinProofs.LostResetKeepsGuess | src/fido/cbor_client_pin.c:848-910 | When power is lost before the record with count 8 is in flash, the successful comparison still counts and the decremented count is found. |
| ClientPinProofs.BlockedUntilReset | src/fido/cbor_client_pin.c:801-803 | A stored count of 0 stays 0 until authenticator reset, and no command succeeds meanwhile. |
| ClientPinProofs.RunCounted | src/fido/cbor_client_pin.c:663-673 | In every run the RAM counter of an unmarked record is the number of mismatches since power-up or success. |
| ClientPinProofs.MismatchLocksIff | src/fido/cbor_client_pin.c:655-677 | A mismatch locks if and only if it is the third since power-up or success or the marker is set (and is not the last try); then every state the flash may hold has the marker. |
| ClientPinProofs.LockedUntilInit | src/fido/cbor_client_pin.c:678-683 | Once locked, no run of commands succeeds until init_fido, a power loss or a reset; the accepted PINs and the key file stay what they are, in what is visible and in every content the flash may newly hold. |
| ClientPinProofs.OnlyCorrectPinClearsMarker | src/fido/cbor_client_pin.c:906-909 | Short of a reset, only a verified PIN on an unlocked device clears the marker. |
| ClientPinProofs.TryPinCorrect | src/fido/cbor_client_pin.c:633-643 | A comparison that succeeds comes after the decremented count is certain to be in flash. |
| PinAccess.AttemptCorrectIff | src/fido/cbor_client_pin.c:623-683 | An attempt gets through if and only if the record is well-formed, the decrement reaches the flash, the PIN decrypts and verifies, and the device is not locked; the marker does not matter. |
| PinAccess.AttemptCosts | src/fido/cbor_client_pin.c:623-683 | A malformed record or a refused write costs nothing; otherwise an attempt costs one retry in every content the flash may hold, also when the PIN does not decrypt or is right on a locked device. |
| PinAccess.TokenIff | src/fido/cbor_client_pin.c:776-948 | A token is given out if and only if the request is complete, the PIN is right on an unlocked device with working flash, the device key opens and no PIN change is pending; the count is then 8, the marker gone, the verifier current. |
| PinAccess.ChangeIff | src/fido/cbor_client_pin.c:577-775 | changePIN succeeds if and only if the request is complete, the old PIN is right on an unlocked device with working flash, the device key opens and the new PIN decrypts and is accepted; the record is then that of the new PIN. |
| PinAccess.SetIff | src/fido/cbor_client_pin.c:494-576 | setPIN succeeds if and only if no PIN is set and the request and the new PIN are in order; a refusal changes nothing. |
| PinAccess.HeldPinWorks | src/fido/cbor_client_pin.c:776-948 | On a device that holds a PIN and its key, unlocked and with working flash, a complete token request succeeds if and only if its PIN has the verifier of that PIN. |
| PinAccess.SetPinIsHeld | src/fido/cbor_client_pin.c:555-573 | After setPIN the device holds the new PIN, unlocked, with its key. |
| PinAccess.ChangedPinIsHeld | src/fido/cbor_client_pin.c:736-773 | After changePIN the device holds the new PIN, unlocked, with its key. |
| PinAccess.RestartUnlocks | src/fido/fido.c:404-413 | A locked device accepts its PIN again after init_fido or a power loss that keeps its files. |
| PinAccess.ResetAllowsSetPin | src/fido/cbor_reset.c:48-52 | After an authenticator reset setPIN succeeds and getToken does not. |
| DeviceKey.UseTokenKeepsKey | src/fido/cbor_client_pin.c:879-904 | A verified PIN gets its token past the device key and fails only on a pending forced PIN change. The key is kept if and only if the PIN record is legacy, the file is not ambiguous, or its shifted bytes decrypt to the key; the file is never ambiguous afterwards. |
| DeviceKey.ReplacePinKeepsKey | src/fido/cbor_client_pin.c:684-759 | The same for changePIN, under the new PIN on success and under the old one on refusal; success is decided by the new PIN alone. |
| DeviceKey.SetPinKeepsKey | src/fido/cbor_client_pin.c:565-573 | Setting the first PIN keeps the key if and only if the file is not ambiguous or its shifted bytes decrypt to the key; a refused setPIN changes nothing. |
| DeviceKey.StepKeepsKey | src/fido/cbor_client_pin.c:340-355 | Every command that reaches the check of the key file keeps the key of the accepted PIN exactly under that condition; every other command keeps it. |
| DeviceKey.DeviceKeySurvives | src/fido/fido.c:199-276 | Over every run of commands, through formats 0x01, 0x02 and 0x03 and the legacy upgrade, the accepted PIN gets the same device key at the end if and only if the first check of the key file does not mistake it. |
| DeviceKey.CheckedKeySurvives | src/fido/fido.c:217-251 | After one check every run keeps the key. |
| PinAccess.KeyIsSealed | src/fido/cbor_client_pin.c:340-355 | After every successful changePIN, and every successful getToken unless it met an unambiguous 32-byte file under a current record, the key file is in format 0x03; setPIN seals exactly format 0x01 and files mistaken for it. |
| DeviceKey.AmbiguousFileLosesKey | src/fido/cbor_client_pin.c:341-344 | A concrete ambiguous file whose key is lost by setPIN. |
| KeyPowerLoss.KeySurvivesPowerLoss | src/fido/cbor_client_pin.c:684-759 | In every run with power losses at any point: at every moment each content the flash may hold gives the same key to the accepted PIN, if and only if no step upgrades a legacy record by getToken with a PIN whose session key changes, mistakes the key file, or installs a PIN with another session key. |
| KeyPowerLoss.StepKeepsDurable | src/fido/cbor_client_pin.c:876-909 | The same for one command or power loss, decided by the state before it. |
| KeyPowerLoss.ChangeSurvivesPowerLossIff | src/fido/cbor_client_pin.c:684-759 | A changePIN that has verified the old PIN, under a legacy or a current record, is safe against power loss at any point if and only if it does not mistake the key file and installs no new PIN or one with the same session key. |
| KeyPowerLoss.SealedOkIff | src/fido/cbor_client_pin.c:741-759 | A key file wrapped for a session under a record of either format gives the key to the accepted PIN if and only if the session is that of the PIN. |
| KeyPowerLoss.TokenSurvivesPowerLossIff | src/fido/cbor_client_pin.c:879-909 | A getToken that has verified the PIN is safe against power loss at any point if and only if, for a legacy record, the PIN has the same session key in both formats, or, for a current one, the key file is not mistaken. |
| KeyPowerLoss.SetSurvivesPowerLossIff | src/fido/cbor_client_pin.c:555-573 | A setPIN is safe against power loss at any point if and only if it is refused or does not mistake the key file. |
| KeyPowerLoss.PowerLossCanLoseKey | src/fido/cbor_client_pin.c:741-759 | A concrete legacy record for which getToken, and changePIN to another PIN, succeed through a state in which a power loss loses the key. |
| KeyPowerLoss.CleanRunIsSafe | src/fido/cbor_client_pin.c:684-759 | Where no legacy record and no ambiguous key file is left, every run with power losses that installs no PIN with another session key is safe. |
| KeyPowerLoss.NewDevice | src/fido/fido.c:285-300 | A device that has just made its key, with no PIN set, satisfies every invariant that the theorems about runs start from. |
| PinHandler.PinStore.PersistRetryCounter | src/fido/cbor_client_pin.c:90-99 | True only when the record is the one possible content of the file; otherwise old or new may be found. |
| PinHandler.PinStore.LoadKeydev | src/fido/fido.c:199-259 | The key under the session, with format 0x02 rewrapped as 0x03 on the way. |
| PinHandler.PinStore.EncryptKeydevF1 | src/fido/fido.c:261-276 | The key file becomes format 0x01. |
| PinHandler.PinStore.CheckKeydevEncrypted | src/fido/cbor_client_pin.c:340-355 | A file whose first byte is 0x01 is wrapped under the session of the PIN. |
| PinHandler.PinStore.LoadDecremented | src/fido/cbor_client_pin.c:623-633 | The RAM copy of the PIN file, 34 or 35 bytes, with its count one lower and its marker kept. |
| PinHandler.PinStore.Matches | src/fido/cbor_client_pin.c:646-655 | The bytes compared are those of the current or the legacy verifier. |
| PinHandler.PinStore.Attempt | src/fido/cbor_client_pin.c:623-683 | Decrement, persist, compare, count: the attempt of the machine, on the bytes of the file. |
| PinHandler.PinStore.CountMismatch | src/fido/cbor_client_pin.c:655-677 | The mismatch branch with the marker bit and the second persist. |
| PinHandler.PinStore.UpgradeLegacy | src/fido/cbor_client_pin.c:684-695 | The legacy branch on the RAM copy and the key file. |
| PinHandler.PinStore.FinishToken | src/fido/cbor_client_pin.c:879-947 | getPinUvAuthToken after the comparison. |
| PinHandler.PinStore.HandleGetToken | src/fido/cbor_client_pin.c:776-948 | The whole branch is the machine step. |
| PinHandler.PinStore.ReplaceVerifiedPin | src/fido/cbor_client_pin.c:684-735 | changePIN after the comparison, up to the checks of the new PIN. |
| PinHandler.PinStore.InstallPin | src/fido/cbor_client_pin.c:736-773 | The key is taken out, wrapped for the new PIN, and the new record written. |
| PinHandler.PinStore.HandleChangePin | src/fido/cbor_client_pin.c:577-775 | The whole branch is the machine step. |
| PinHandler.PinStore.HandleSetPin | src/fido/cbor_client_pin.c:494-576 | The whole branch is the machine step. |
| PinHandler.PinStore.InitFido | src/fido/fido.c:404-413 | Power-up work clears the lock flag and the unlocked flag and nothing else. |
| Tlv.Walk | pico-keys-sdk/src/tlv.c:83-131 | On arbitrary bytes an item lies inside the data, ends where the cursor goes, and the cursor strictly advances. |
| Tlv.Items | pico-keys-sdk/src/tlv.c:83-131 | Everything that is ever walked is an item the writer can write. |
| Tlv.Stop | pico-keys-sdk/src/tlv.c:83-131 | Walking stops inside the data, at a place where the walker refuses. |
| Tlv.Walker.ReadTag | pico-keys-sdk/src/tlv.c:93-101 | The tag branch of the cursor. |
| Tlv.Walker.ReadLen | pico-keys-sdk/src/tlv.c:102-121 | The length branch of the cursor, with the trailing tag as zero-length marker. |
| Tlv.Walker.Next | pico-keys-sdk/src/tlv.c:83-131 | One step of the cursor. |
| Tlv.WriteLen | pico-keys-sdk/src/tlv.c:62-81 | The formatted length is written at its place and nothing else changes. |
| Tlv.LenTagExactIff | pico-keys-sdk/src/tlv.c:54-60 | The predicted size of an item is its encoded size if and only if that fits 16 bits. |
| Tlv.RoundTrip | pico-keys-sdk/src/tlv.c:62-131 | For every list of items with one- or two-byte tags and lengths up to 65535, walking their encoding gives exactly that list and stops at the end. |
| Tlv.WalkThenEncodeIff | pico-keys-sdk/src/tlv.c:83-131 | An item that was walked is written back unchanged if and only if its length field was canonical. |
| Tlv.ReencodeIff | pico-keys-sdk/src/tlv.c:83-131 | The same for everything walked: writing it back reproduces the data if and only if every length field was canonical. |
| Tlv.CanonicalReencodes | pico-keys-sdk/src/tlv.c:83-131 | With canonical lengths the items encode to exactly the bytes that were walked, up to the place where the walker stops. |
| Tlv.FirstWithIsFirst | pico-keys-sdk/src/tlv.c:133-147 | The value found is that of the first item with the tag, and none means no item has it. |
| Tlv.FindTag | pico-keys-sdk/src/tlv.c:133-147 | The loop finds that value. |
| Tlv.EncodedFindTag | pico-keys-sdk/src/tlv.c:133-147 | In encoded items it finds the value of the first item with the tag. |
| SecureMessaging.PadIsMinimalIff | pico-keys-sdk/src/eac.c:192-194 | The padding of the source is padding method 2 unless the 0x80 byte ends a block: then a whole block of zeros too many is added. |
| SecureMessaging.UnpadIff | pico-keys-sdk/src/eac.c:342-355 | Unpadding finds the length of every padded text, whatever it ends in, and gives 0 for anything malformed. |
| SecureMessaging.RemovePadding | pico-keys-sdk/src/eac.c:342-355 | The backward loop computes that. |
| SecureMessaging.FitsIff | pico-keys-sdk/src/eac.c:162-176 | A response can be wrapped if and only if it has at most 1998 bytes; the second size check never decides. |
| SecureMessaging.PredictionIsExact | pico-keys-sdk/src/eac.c:162-168 | For every response length the predicted size is the size of what is produced. |
| SecureMessaging.MacPaddingIsMinimal | pico-keys-sdk/src/eac.c:224-228 | With 16-byte blocks the MAC padding of a wrapped response is always the minimal one. |
| SecureMessaging.WrappedWalk | pico-keys-sdk/src/eac.c:191-231 | Walking what is produced gives DO87 when there is data, then DO99 with the status word and an eight-byte DO8E, and nothing else. |
| SecureMessaging.WrappedIsAccepted | pico-keys-sdk/src/eac.c:264-340 | What sm_wrap produces passes sm_verify at the same counter value. |
| SmVerdict.AcceptedIff | pico-keys-sdk/src/eac.c:321-339 | A command is accepted if and only if its last DO8E is the first eight bytes of the MAC over counter, covered header, odd objects and minimal padding, and this input fits the buffer. |
| SmVerdict.RefusalsIff | pico-keys-sdk/src/eac.c:321-339 | Without an eight-byte DO8E the data are wrong; with one that is not that MAC the verification fails. |
| SmVerdict.MacInputIs | pico-keys-sdk/src/eac.c:277-319 | What the MAC covers, byte by byte: the counter block, the header with 80 and eleven zeros if both indicator bits are set, and tag, length and value of each object with an odd tag, in order. |
| SmVerdict.CounterValue | pico-keys-sdk/src/eac.c:277-284 | The counter block is the counter, most significant byte first. |
| SmVerdict.MacInputIff | pico-keys-sdk/src/eac.c:277-319 | Two commands that both cover their header, or both do not, have the same MAC input if and only if counter, covered header and the covered objects agree; of a two-byte tag only the low byte counts. |
| SmVerdict.MinimalPadIff | pico-keys-sdk/src/eac.c:325-331 | Padding two different inputs gives two different inputs. |
| SmVerdict.OneMacOneCommand | pico-keys-sdk/src/eac.c:264-340 | Two accepted commands with one MAC agree in counter, covered header and covered objects, or two inputs with one MAC exist. |
| SecureMessaging.UnwrapInvertsWrap | pico-keys-sdk/src/eac.c:102-152 | Walking, decrypting and unpadding a wrapped response gives the original response, whatever it contains. |
| SmVerdict.OpenedByValue | pico-keys-sdk/src/eac.c:102-152 | A command whose body comes first is opened or refused by the value of that DO87 or DO85 alone: wrong indicator, empty or broken blocks, or the unpadded plaintext. |
| SmVerdict.NoBodyIsEmpty | pico-keys-sdk/src/eac.c:102-152 | A command without DO87 and DO85 is opened to nothing. |
| SmVerdict.LeOfCommand | pico-keys-sdk/src/eac.c:239-254 | The first DO97 gives the length, in one byte or two. |
| SmVerdict.NoLe | pico-keys-sdk/src/eac.c:239-254 | A command without DO97 expects nothing. |
| SmChannel.Channel.Wrap | pico-keys-sdk/src/eac.c:154-237 | In place: the buffer becomes DO87 (when there is data), DO99 and DO8E, with the sizes, counters and error cases of the source. |
| SmChannel.Channel.EncryptBody | pico-keys-sdk/src/eac.c:192-197 | Padding and encryption where the body stands. |
| SmChannel.Channel.WriteHeader | pico-keys-sdk/src/eac.c:201-218 | The overlapping moves and header bytes give the encoded data object for all three length forms. |
| SmChannel.Channel.ComputeMac | pico-keys-sdk/src/eac.c:178-228 | The MAC over counter block, objects and padding, from the cleared buffer. |
| SmChannel.Channel.AppendMac | pico-keys-sdk/src/eac.c:228-231 | All 16 bytes of the MAC are written, eight of them count. |
| SmChannel.Channel.Verify | pico-keys-sdk/src/eac.c:264-340 | The verdict on a command, with the length checks, the counter and the order of errors. |
| SmChannel.Channel.CollectSigned | pico-keys-sdk/src/eac.c:302-319 | The walk copies exactly the objects with odd tags behind the header and keeps the last DO8E; false exactly on overflow. |
| SmChannel.Channel.CheckMac | pico-keys-sdk/src/eac.c:277-339 | The MAC is computed over exactly the covered objects with minimal padding. |
| SmChannel.Channel.GetLe | pico-keys-sdk/src/eac.c:239-254 | The last two bytes of the first DO97. |
| SmChannel.Channel.LocateBody | pico-keys-sdk/src/eac.c:116-135 | The last DO87 or DO85, with the padding-indicator flag that stays set. |
| SmChannel.Channel.Unwrap | pico-keys-sdk/src/eac.c:102-152 | The command data becomes the plaintext in place, or stays as it was on every error. |
| LargeBlobs.StageKeepsConsistent | src/fido/cbor_large_blobs.c:173-190 | Staging a fragment extends what was sent by exactly that fragment; the last one succeeds if and only if the truncated hash is right. |
| LargeBlobs.WriteCases | src/fido/cbor_large_blobs.c:119-192 | A write either is refused, changing nothing but what a start resets, or stages its fragment at the expected offset. |
| LargeBlobs.StepKeepsConsistent | src/fido/cbor_large_blobs.c:119-191 | In every run with restarts, refused fragments and timeouts the staged prefix is the fragments taken since the last start, in order, within the declared length of at most 2048. |
| LargeBlobs.StoredIsAnUpload | src/fido/cbor_large_blobs.c:179-190 | In every run the stored array is the old one or one complete upload whose last 16 bytes are the truncated hash of the rest. |
| LargeBlobs.UploadStoresIff | src/fido/cbor_large_blobs.c:119-191 | Whatever was pending, an array sent in order in authorized fragments, of which the first and the last are not empty, is stored if and only if it carries its hash; every fragment before the last succeeds. |
| LargeBlobAccess.AuthorizedIff | src/fido/cbor_large_blobs.c:146-168 | A fragment is authorized if and only if no token is asked for, or the token accepts the parameter, of the right length, over 32 bytes FF, 0C 00, the offset and the hash of the fragment, and has the large-blob permission. |
| LargeBlobAccess.IntactIff | src/fido/cbor_large_blobs.c:179-184 | An array is intact if and only if it is at least one byte of data followed by the first 16 bytes of their hash. |
| LargeBlobAccess.TakenIff | src/fido/cbor_large_blobs.c:119-172 | A fragment is taken if and only if it has at most 960 bytes, opens an upload of 17 to 2048 bytes or continues the pending one where it stands, fits into it, and is authorized. |
| LargeBlobAccess.StoredIsEntitled | src/fido/cbor_large_blobs.c:145-190 | In every run a newly stored array consists of parts each of which an authorized request brought for its own offset. |
| LargeBlobAccess.TimelyTicksAreHarmless | src/fido/cbor_large_blobs.c:35-41 | Ticks within 30 seconds of the last fragment change nothing: the run is that of its commands alone. |
| LargeBlobAccess.LateTickEndsUpload | src/fido/cbor_large_blobs.c:35-41 | A later tick gives the upload up: the stored array stays, and a continuation is refused with an invalid sequence. |
| LargeBlobs.EmptyFirstFragmentStalls | src/fido/cbor_large_blobs.c:123-145 | After an empty first fragment every continuation is refused. |
| LargeBlobs.DownloadCompleteIff | src/fido/cbor_large_blobs.c:104-118 | Pages of any sizes give back the whole array if and only if they are enough for it, and otherwise a prefix. |
| LargeBlobAccess.ReadIff | src/fido/cbor_large_blobs.c:89-118 | Exactly which reads are answered, with which bytes; a read never changes the state. |
| LargeBlobs.LargeBlobStore.OnTick | src/fido/cbor_large_blobs.c:35-41 | The idle timeout on the globals, with 32-bit clock arithmetic. |
| LargeBlobs.LargeBlobStore.Handle | src/fido/cbor_large_blobs.c:89-192 | The command on the globals and the staging buffer, after its fields are parsed. |
| LargeBlobs.LargeBlobStore.HandleRead | src/fido/cbor_large_blobs.c:104-118 | One page, with the order of errors. |
| LargeBlobs.LargeBlobStore.Accept | src/fido/cbor_large_blobs.c:173-190 | Clearing, copying, checking and storing. |
| RpIndex.FirstsDistinct | src/fido/credential.c:194-207 | One entry for each distinct RP hash, and for no other. |
| RpIndex.FirstsAreFirst | src/fido/credential.c:194-207 | The file kept for an RP is the first that names it. |
| RpIndex.SourcesIff | src/fido/credential.c:209-242 | The scan sees exactly the valid legacy records and the live markers, legacy records first, each in slot order. |
| RpIndex.IndexedIff | src/fido/credential.c:209-242 | The scan succeeds if and only if there are at most 256 distinct RPs, and then the index is exactly that list. |
| RpIndex.RpTable.Add | src/fido/credential.c:194-207 | The search and append on the arrays: unchanged for a known hash, refused only when full. |
| RpIndex.RpTable.Count | src/fido/credential.c:209-242 | Both scans on the arrays, with the partial index a refusal leaves behind. |
| CredMgmt.BeginRpsIff | src/fido/cbor_cred_mgmt.c:189-222 | The exact condition of success and of each error: an RP begin succeeds if and only if it is authorized, there are 1 to 256 distinct RPs and the first can be read; without authorization it changes nothing. |
| CredMgmt.RpWalkAgrees | src/fido/cbor_cred_mgmt.c:204-247 | The first reply carries the first RP and the number of distinct RPs; whoever asks afterwards, and whenever, the replies are that index handed out to its owner one by one. |
| CredMgmt.OverfullBeginIff | src/fido/cbor_cred_mgmt.c:204-208 | A begin over too many RPs leaves the old total: the next request is refused if and only if that was 0. |
| CredMgmt.OverfullBeginCanGoOn | src/fido/cbor_cred_mgmt.c:204-247 | A concrete storage with 512 RPs: the begin is answered with an error and the request after it is served. |
| CredMgmt.HandOutAll | src/fido/cbor_cred_mgmt.c:213-230 | As many requests as RPs are left return each once, in order; the next is refused. |
| CredMgmt.BeginCredsIff | src/fido/cbor_cred_mgmt.c:249-351 | The exact condition of success and of each error: a credential begin succeeds if and only if it is authorized, every slot of the RP can be read, there is a credential, and the first is usable; without authorization it changes nothing. |
| CredMgmt.BeginCredsStarts | src/fido/cbor_cred_mgmt.c:270-325 | The first reply carries the first credential in slot order and the true total. |
| CredMgmt.FailedBeginIff | src/fido/cbor_cred_mgmt.c:270-324 | A credential begin that fails leaves the walk open if and only if a credential was counted before the failure. |
| CredMgmt.FailedBeginCanGoOn | src/fido/cbor_cred_mgmt.c:270-427 | Two credentials and a broken slot: the begin fails and the next request reports the second credential. |
| CredMgmt.NextCredStep | src/fido/cbor_cred_mgmt.c:275-325 | The resumed scan reports the next credential of the listing, or refuses without losing its place. |
| CredMgmt.CredWalkAgrees | src/fido/cbor_cred_mgmt.c:270-427 | With no change in between, what follows a begin is the one-shot listing handed out to its owner; after the end or a timeout everything is refused. |
| CredMgmt.EnumerationIff | src/fido/cbor_cred_mgmt.c:288-353 | Begin and total minus one requests report every credential once in slot order if and only if all of them are usable. |
| CredMgmt.EnumerationCanFail | src/fido/cbor_cred_mgmt.c:288-353 | Two credentials of which the second is not usable: it is refused and the saved RP is released. |
| CredMgmt.OverIsOver | src/fido/cbor_cred_mgmt.c:276-279 | After the last credential every request is refused. |
| PatientWalk.PatientOwnerGetsAllRps | src/fido/cbor_cred_mgmt.c:45-51 | An owner who asks once for each RP gets each once, in order, however long it takes, as long as every tick comes within 30 seconds of the last reply. |
| PatientWalk.PatientOwnerGetsAllCreds | src/fido/cbor_cred_mgmt.c:45-58 | The same for the credentials of an RP. |
| PatientWalk.LatePollEndsRps | src/fido/cbor_cred_mgmt.c:45-51 | A tick 30 seconds or more after the begin, with RPs still to come, has every later request refused. |
| PatientWalk.LatePollEndsCreds | src/fido/cbor_cred_mgmt.c:52-58 | The same for the credentials of an RP. |
| CredMgmt.CredentialManager.OnTick | src/fido/cbor_cred_mgmt.c:45-58 | The timeouts of both walks on the globals. |
| CredMgmt.CredentialManager.EnumerateRps | src/fido/cbor_cred_mgmt.c:189-247 | Subcommands 0x02 and 0x03 on the globals and the index arrays. |
| CredMgmt.CredentialManager.CountCreds | src/fido/cbor_cred_mgmt.c:282-321 | The scan of 0x04 counts every credential and notes the slot behind the first; it stops at a slot that fails to load. |
| CredMgmt.CredentialManager.BeginCredentials | src/fido/cbor_cred_mgmt.c:249-427 | Subcommand 0x04 on the globals, with what a failed begin leaves behind. |
| CredMgmt.CredentialManager.NextCredential | src/fido/cbor_cred_mgmt.c:275-427 | Subcommand 0x05 on the globals. |
| GetAssertion.LoadResident | src/fido/cbor_get_assertion.c:440-454 | The array starts with the first 16 resident credentials that load, in slot order. |
| GetAssertion.LoadableExact | src/fido/cbor_get_assertion.c:440-454 | Every slot that loads gives its credential, as often as it is there. |
| GetAssertion.EligibleExact | src/fido/cbor_get_assertion.c:456-483 | Exactly these credentials stay, each as often as it was there: all for a verified user, otherwise none with credProtect 3, and those with 2 only with an allow list. |
| GetAssertion.Compact | src/fido/cbor_get_assertion.c:456-483 | The loop moves them to the front of the same array, in order. |
| GetAssertion.SortedIsPermutation | src/fido/cbor_get_assertion.c:533-543 | The exchange sort is a permutation, newest first. |
| GetAssertion.Sort | src/fido/cbor_get_assertion.c:533-543 | The two loops in the array compute that order. |
| GetAssertion.NewestIff | src/fido/cbor_get_assertion.c:533-543 | There is a newest eligible credential if and only if a loaded one is allowed, and no allowed one is newer. |
| GetAssertion.BeginIff | src/fido/cbor_get_assertion.c:484-603 | How GetAssertion ends: with a credential if and only if the user is present, largeBlobKey is not turned off, a loaded credential is allowed and the newest of them signs; with none if and only if a silent request verified some without loading any; and the exact condition of each error. |
| GetAssertion.ProtectedStayHidden | src/fido/cbor_get_assertion.c:456-483 | For a user who is not verified, neither the answer nor any later one carries a credential with credProtect 3, nor one with 2 when the allow list is empty. |
| GetAssertion.AssertionWalk | src/fido/cbor_get_assertion.c:581-603 | Whenever the user is present, largeBlobKey is not turned off and the newest eligible credential signs, the answer presents that credential with the true number; what follows is the rest handed out to its owner, and the first late, foreign or failing request ends it. With several allow-list entries and a resident match only the newest is presented. |
| GetAssertion.FailedBeginRefuses | src/fido/cbor_get_assertion.c:912-915 | A failed GetAssertion leaves no walk: every GetNextAssertion after it is refused. |
| GetAssertion.EveryCredentialIsPresented | src/fido/cbor_get_assertion.c:69-95 | With the user present and every loaded credential able to sign, n - 1 timely requests present each of the other eligible credentials exactly once, newest first. |
| GetAssertion.StrayRequestEndsWalk | src/fido/cbor_get_assertion.c:69-77 | A request 30 seconds after the last answer, or on another channel, is refused, and so is every request after it. |
| GetAssertion.AssertionHandler.Reset | src/fido/cbor_get_assertion.c:52-67 | The saved walk is gone. |
| GetAssertion.AssertionHandler.HandleNext | src/fido/cbor_get_assertion.c:69-95 | One GetNextAssertion on the globals; any error resets. |
| GetAssertion.AssertionHandler.Handle | src/fido/cbor_get_assertion.c:456-603 | Filter, sort, presence and errors in their order, the hand-over, and the reset of the saved walk when signing fails. |
| GetAssertion.AssertionHandler.Save | src/fido/cbor_get_assertion.c:585-603 | The hand-over to the saved array. |
| Hkdf.BlocksGrow | pico-keys-sdk/src/vault.c:338-360 | Longer outputs extend shorter ones. |
| Hkdf.ExpandedIsChained | pico-keys-sdk/src/vault.c:338-360 | Every whole block of the output is the HMAC of the block before it, the info and its number, the first of the info and 1; every output starts with the shorter ones. |
| Hkdf.NextBlock | pico-keys-sdk/src/vault.c:339-349 | One block from the input buffer: the previous block except for the first, the info, the counter byte. |
| Hkdf.Expand | pico-keys-sdk/src/vault.c:327-364 | For every length up to 255 * 64 the output is the first bytes of T(1) T(2) ..., each block under its own counter value; longer requests and infos are refused untouched. |
| VaultBlob.ImportInvertsBlob | src/fido/fido_vault.c:356-417 | For all four algorithms import inverts the layout and the order of the layers. |
| VaultBlob.ImportIff | src/fido/fido_vault.c:356-417 | Import yields a payload if and only if the blob is, byte for byte, the blob of that payload under its own header and nonces. |
| VaultBlob.ImportInvertsExport | src/fido/fido_vault.c:283-345 | Whatever the buffer held, what is exported is imported. |
| VaultBlob.HeaderIsAcceptable | src/fido/fido_vault.c:318-323 | An exported header passes every check of import. |
| VaultBlob.HeaderFields | src/fido/fido_vault.c:318-323 | Where magic, vault id, credential hash, serial number and algorithm stand in the 86-byte header. |
| VaultBlob.ExportIff | src/fido/fido_vault.c:283-317 | Export succeeds if and only if the algorithm is one of the four, the vault key loads, the payload has 1 to 1792 bytes and the buffer has room for header, nonces, tags and payload. |
| VaultBlob.SealedBy | pico-keys-sdk/src/vault.c:706-714 | Which cipher seals what: algorithm 3 seals the payload with ChaCha20-Poly1305 and the result with AES-GCM, algorithm 4 the other way round, each layer under its own key and nonce and bound to the whole header. |
| VaultBlob.OtherVaultIsRefused | src/fido/fido_vault.c:356-417 | A blob of another vault id fails verification. |
| VaultBlob.Export | src/fido/fido_vault.c:283-353 | The bytes written at computed offsets are the blob, nothing behind it changes, and a refusal changes nothing. |
| VaultBlob.ImportInto | src/fido/fido_vault.c:356-417 | The offsets read are those of the layers, in their order, with the order of errors. |

## Left out

- Cryptographic primitives, X.509, ECDH and all mbedTLS calls: arrows with laws; their failures are not modelled where the code only passes them on.
- CBOR encoding and decoding: parsed fields are inputs, emitted maps are abstract replies.
- Flash, file system, object containers and USB transport: their bodies are not part of this model.
- The command line of `firmware.py`, picotool calls, output parsing, prompts and tables.
- The parsing of APDU lengths in `apdu_process`, and dispatch to applications: they set `nc`, `ne` and the header that the chaining code uses.
- Le = 0 in a GET RESPONSE makes no progress, so completeness is stated through the sum of the Le values.
- Audit namespaces and a failing SHA-256: one namespace, and hashing always succeeds.
- The backup-lock mode of the device key (`ef_keydev_enc`, `has_keydev_dec`).
- ClientPin.Wrapped: the byte behind a 32-byte key file that is taken for format 0x01 is an input; 33-byte key files marked as format 2 or 3 are not modelled.
- ClientPin.WriteKey: a write of the key file, or of a PIN record with a full count, that fails is no outcome of the machine, although the source ignores the result; only the retry-counter write may fail.
- ClientPin.GrantToken: a pending PIN change is always answered with PIN_INVALID; the source answers a request for the authenticator-configuration permission alone with PIN_POLICY_VIOLATION.
- ClientPin.State: the contents and permissions of PIN tokens, key agreement and its regeneration after a mismatch are not part of the state.
- KeyPowerLoss.KeySurvivesPowerLoss: a run contains no authenticator reset, which replaces the device key.
- PinHandler.PinStore.Attempt: a retry byte of a malformed file is only compared with 0, as in the source.
- SmChannel.Channel.GetLe: weaker than the source for a DO97 of more than four bytes, where the shift by 32 bits or more has no defined result; the contract takes the low 16 bits of the value.
- SmChannel.Channel.Unwrap: an Le object of more than four bytes makes the source shift by 32 bits and more; the model takes its last two bytes.
- SmChannel.Channel: the 8-byte blocks of the 3DES protocol; only AES is modelled, and key derivation and protocol selection are outside.
- CredMgmt.NextCred: after the saved RP hash was released its value is an arbitrary input.
- CredMgmt.EnumerationIff: the verification of pinUvAuthParam is one verdict, and subcommands 0x01, 0x06 and 0x07 are not modelled.
- GetAssertion.Begin: how the allow list is resolved to credentials is an input; extensions, signatures and the flags saved for later commands are one verdict, `signs`.
- LargeBlobs.Authorize: the token and its permission are inputs; the file write may fail unnoticed, as in the source.
- VaultBlob.Import: the parsing of the payload and the credential it creates.
- Vault enrollment, HPKE labels and the vault store: they would only add easy members.
- LED, signal table, serial number, RTC, rescue commands, known-apps table, OATH, OTP, OpenPGP and PIV applications, button polling and reset order.
- Concurrency between the two cores: command handlers run one after another on the card core.
