# A verified model of tpm-fido

tpm-fido is a FIDO2 platform authenticator: it talks to a browser extension over Native Messaging,
asks the user for a fingerprint or a click, keeps signing keys in the TPM, stores resident
credentials in a file, and evaluates the PRF extension. This project models the authenticator in
Dafny and proves what its parts promise each other. `dafny verify dfyconfig.toml` checks all of it.

Code that updates state is written as classes and loops and proved against functions on values; the
results are lemmas about those functions, over all inputs, all runs or all interleavings. Hash
functions, the block cipher, key agreement, the TPM, the JSON of the credentials file and of client
data are function-valued fields of a record (`Crypto`, `Device`, `Signer`, `Codec`), with their laws
in a predicate `Lawful`. Randomness, clocks and file-system failures are arguments. A handler asks the
user through the presence object, and what all other goroutines do while it waits is an argument too,
so that its results hold for every interleaving. Go strings are sequences of bytes.

| file | part of the system |
|---|---|
| `Lencode.dfy`, `Coder.dfy` | the length-prefixed coder: wire format, then the streaming encoder and decoder |
| `Tpm.dfy` | TPM key handles: three frames holding a wrapped key pair and a seed |
| `Storage.dfy`, `StoreMap.dfy`, `Persistence.dfy` | the resident credential store, its reference map, its file under crashes |
| `Presence.dfy` | the user-presence protocol as interleaved steps |
| `BigEndian.dfy`, `Cbor.dfy`, `AuthData.dfy` | coordinates, COSE keys, authenticator data and a relying party's reader |
| `Crypto.dfy`, `HmacSecret.dfy` | CBC, the hmac-secret exchange and the direct PRF computation |
| `Authenticator.dfy`, `Ctap2.dfy` | the CTAP2 operations on values, and the handler object proved against them |
| `Enumeration.dfy`, `Selection.dfy`, `History.dfy`, `Restart.dfy` | results about assertions, searches, whole histories and restarts |
| `Outcomes.dfy` | how each command can end: statuses, the credential used, what is stored, the extension end to end |
| `WebAuthn.dfy`, `EndToEnd.dfy`, `Pages.dfy` | the Native Messaging handler, results across all layers, and how a page's request can end |
| `NativeMsg.dfy` | message framing and the request loop |

Where the code and its documentation differ, the model follows the code:

* `docs/EXTENSION_PROTOCOL.md` says a fingerprint timeout is reported as "Operation timed out". The
  prompt's own timeout carries another text than the one the handler compares with, so it is reported
  as a denial (`EndToEnd.TimeoutReportedIff`).
* The same document calls the binary fields standard base64; the code decodes the unpadded URL form.
  Only "decodes or not" enters the model.
* `ctap2/getinfo.go` announces credential IDs of at most 256 bytes; TPM handles can be longer
  (`Tpm.HandleLength`).
* The comment on `DecodeInto` asks for a buffer that is large enough, while its guard rejects exactly
  the larger buffers.

Some expectations fail in the code, and the exact condition is proved instead: saving over a list with
repeated keys leaves the later repeats (`StoreMap.SaveCounts`); an oversized TPM blob gives a handle that
registration returns and nothing accepts (`Tpm.RegisteredHandle`, `EndToEnd.RegisteredKeySignsIff`); a
caller that joins a prompt between its hand-off and its clear is never answered
(`Presence.StrandedCaller`, `Presence.CallMayBeAnsweredIff`); a response over 2^20 bytes, which an echoed
request ID can cause, ends the loop (`NativeMsg.BrowserSeesResponses`). Two layouts hold only under a
condition that the backends and the JSON library always meet: a credential ID shorter than 65536 bytes
reads back (`AuthData.ReadBackIff`; TPM handles have at most 542 bytes, `Tpm.HandleLength`), and a message
that is not empty is read (`NativeMsg.WrittenReadsBackIff`).

## Model

| member | source | states |
|---|---|---|
| Lencode.RoundTrip | internal/lencode/lencode.go:54-195 | for every list of messages of at most 255 bytes and every separator, reading the encoding gives the list and then a clean end of stream |
| Lencode.CleanEndIffEncoding | internal/lencode/lencode.go:114-195 | on arbitrary bytes, reading reaches a clean end if and only if the bytes are the encoding of the messages read |
| Lencode.ParseSplits | internal/lencode/lencode.go:114-195 | every stream, whatever its end reports, is its complete frames followed by a remainder that starts no frame |
| Lencode.TailTells | internal/lencode/lencode.go:169-195 | which end is reported for which remainder: nothing left, a prefix or payload cut short, or a prefix that is not the separator |
| Lencode.EncodingInjective | internal/lencode/lencode.go:54-73 | two different message lists never have the same encoding |
| Lencode.CutStream | internal/lencode/lencode.go:169-195 | cutting an encoding anywhere yields exactly the complete frames; the end is clean only if the cut fell between frames, and otherwise an unexpected end |
| Coder.EncoderOutput | internal/lencode/lencode.go:54-86 | ignoring results, the writer receives the encoding of the messages before the first oversized one, cut where the writer failed, and the error says which |
| Coder.StickyEncoder | internal/lencode/lencode.go:54-86 | after any error no later message changes the encoder or reaches the writer |
| Coder.WrittenStreamReadsBack | internal/lencode/lencode.go:54-195 | with a writer failing after any number of bytes, a reader still sees only whole accepted messages in order, and a clean end only at a frame boundary |
| Coder.Encoder.Encode | internal/lencode/lencode.go:54-73 | writer, error and result after a call, including a failure inside any of its three writes |
| Coder.Decoder.Decode | internal/lencode/lencode.go:114-153 | takes the front message of the queue that the unread stream stands for, or reports why there is none; after an error it moves no bytes |
| Coder.Decoder.DecodeInto | internal/lencode/lencode.go:131-153 | the payload read with a buffer of the announced length, the only way `Decode` calls it |
| Coder.Decoder.NextLen | internal/lencode/lencode.go:156-167 | answers the length of the message the next decode returns, also for a payload that is cut short, and leaves the queue as it was |
| Coder.Drive | internal/lencode/lencode.go:114-167 | a decoder driven by any script of calls answers as its queue does |
| Coder.ScriptsReceiveMessages | internal/lencode/lencode.go:114-195 | under any interleaving of length queries, decodes receive the messages in order and then end of stream for ever, and every length announced is right |
| Tpm.RegisterKey | tpm/tpm.go:137-159 | returns the three-frame encoding with the encoder's errors ignored, when the key was created and loaded |
| Tpm.SignASN1 | tpm/tpm.go:191-246 | signs under the template of the seed in the handle, for handles of exactly three frames, and fails for all others |
| Tpm.DeriveCredRandom | tpm/tpm.go:164-189 | hashes the third frame of the handle, and fails when there are fewer than three |
| Tpm.OpenedIffCarries | tpm/tpm.go:201-223 | the handles that signing opens are exactly the encodings of triples, each of a unique triple, and derivation reads that triple's seed |
| Tpm.SeedIffTriplePrefix | tpm/tpm.go:164-189 | a seed is derived exactly from handles that begin with a complete triple, whatever follows |
| Tpm.RegisteredHandle | tpm/tpm.go:137-142 | a registered handle opens to exactly what was registered, or, if a blob exceeds 255 bytes, is refused by signing and derivation alike |
| Tpm.HandleLength | tpm/tpm.go:137-159 | registered handles are at most 542 bytes; a complete one is within the announced 256 exactly when the blobs total at most 224 |
| Tpm.HandleBytes | tpm/tpm.go:137-142 | a complete handle byte by byte: the letters TPM, a length and the field, three times |
| Storage.CredentialStorage.rebuildIndexes | ctap2/storage.go:98-106 | each bucket is the order-preserving filter by relying party and each ID entry the last credential with that ID |
| Storage.CredentialStorage.Save | ctap2/storage.go:109-139 | replaces the first entry of the key or appends, rebuilds the indexes and saves; the list in memory changes even if the file does not |
| Storage.CredentialStorage.Delete | ctap2/storage.go:166-193 | removes every entry with the ID; an absent ID succeeds without touching the file |
| Storage.CredentialStorage.GetByRPID | ctap2/storage.go:142-155 | the credentials of the relying party in list order |
| Storage.CredentialStorage.GetByCredentialID | ctap2/storage.go:158-163 | the last credential with the ID, or none |
| Storage.LastByIdIsLast | ctap2/storage.go:158-163 | the entry found has the ID, no later one has, and one is found whenever one is stored |
| Storage.CredentialStorage.load | ctap2/storage.go:62-79 | memory becomes what the file holds, or stays as it was when the file cannot be read or parsed |
| Storage.CredentialStorage.save | ctap2/storage.go:82-95 | the two files after each way the write or the rename can end |
| Outcomes.SavedPlace | ctap2/storage.go:109-131 | saving overwrites the first credential of the same relying party and user ID in its place, or appends, and leaves every other entry where it was |
| StoreMap.SaveRefines | ctap2/storage.go:109-131 | with distinct (relying party, user) keys, saving is an update of an insertion-ordered map that keeps the key's place, and keys stay distinct |
| StoreMap.DeleteRefines | ctap2/storage.go:166-184 | with distinct keys, deleting is the removal from the map of every key holding the ID, and keys stay distinct |
| StoreMap.DiscoveryRefines | ctap2/storage.go:142-155 | with distinct keys, discovery is the map's own selection in order of arrival |
| StoreMap.RunRefines | ctap2/storage.go:109-193 | any run of saves and deletes from distinct keys is the same run on the ordered map |
| StoreMap.SaveCounts | ctap2/storage.go:113-129 | on any list, saving leaves every key's number of entries as it was except for adding a first one; the saved entry is alone under its key if and only if there was at most one before |
| Persistence.CrashSafety | ctap2/storage.go:82-95 | with a crash between or inside any persistence steps, the file is the complete serialisation of the list on disk before the operation or of the one it makes, and the next process loads it |
| Persistence.OperateIsRun | ctap2/storage.go:82-95 | every outcome of the store's save is a run of those steps |
| Persistence.FileFollowsMemory | ctap2/storage.go:131-138 | over any sequence of edits with failing saves, the file holds all edits up to the last save that succeeded, including earlier ones whose own save failed |
| Presence.UserPresence.ConfirmPresence | userpresence/userpresence.go:74-108 | starts a prompt, joins the active one for the same pair, or refuses, and keeps the protocol's invariant |
| Presence.UserPresence.Wait | webauthn/handler.go:149-165 | a handler's select on its channel, against every sequence of steps of the other goroutines; a caller still waiting then gives up |
| Presence.UserPresence.ClearActive | userpresence/userpresence.go:118-120 | the unconditional clear; the request it forgets is its own |
| Presence.Authorisation | userpresence/userpresence.go:74-158 | over every interleaving, an answered caller consumed the verdict of a prompt started for exactly its own pair, and no prompt answered two callers |
| Presence.ClearsOwnRequest | userpresence/userpresence.go:80-121 | over every interleaving, the active request is exactly the one unfinished prompt, and the prompt about to clear is the active one |
| Presence.OutlivedApproval | userpresence/userpresence.go:111-116 | a caller that timed out never proceeds, and a later verdict of its prompt releases only callers with the same pair |
| Presence.MayBeAnsweredIff | userpresence/userpresence.go:80-94 | a waiting caller can still be answered if and only if its prompt has not yet handed over its verdict |
| Presence.CallMayBeAnsweredIff | userpresence/userpresence.go:80-107 | before the call: a caller has a chance of an answer if and only if nothing is active, or a prompt for the same pair that has not handed over its verdict |
| Presence.StrandedCaller | userpresence/userpresence.go:80-121 | four steps from the start that leave a caller waiting whom no continuation answers |
| Presence.GrantedIsReleased | userpresence/userpresence.go:74-158 | a wait that ends in a grant, whatever the others did meanwhile, was released by an approved prompt for the pair it asked for, which releases no one else then or later |
| Presence.GrantedIffApproves | webauthn/handler.go:149-165 | a wait is granted if and only if the steps deliver the user's approval to the handler's own call |
| Presence.RefusedIff | userpresence/userpresence.go:80-83 | a call is refused if and only if another pair is active |
| Presence.VerdictArrives | userpresence/userpresence.go:97-119 | with nothing active, the two steps of a prompt bring its verdict to the handler that calls now |
| Presence.PromptCountsDown | userpresence/userpresence.go:110-158 | each step of a prompt brings it exactly one nearer to its clear, and no other step (joins, timeouts, extension goroutines) moves it |
| Presence.PromptCanMove | userpresence/userpresence.go:110-158 | while a request is active its prompt always has a step to take |
| Presence.ClearedAfterThreeSteps | userpresence/userpresence.go:110-158 | three steps of its prompt, however interleaved, end an active request |
| BigEndian.CoordinateIff | ctap2/authenticatordata.go:97-104 | padding gives 32 bytes; it keeps the number if and only if that is below 2^256, where it agrees with the other padding |
| BigEndian.CoordinateOfValue | ctap2/authenticatordata.go:97-104 | every 32-byte string is the coordinate of the number it spells |
| BigEndian.FixedBytes | ctap2/authenticatordata.go:34-47 | the two and four bytes of lengths and counters, most significant first, for numbers of any size |
| BigEndian.Pad | ctap2/authenticatordata.go:97-104 | the padding into a fresh array, including the cut of longer inputs |
| AuthData.CoseKeyBytes | ctap2/authenticatordata.go:79-94 | the 77 bytes of every ES256 key, around the two coordinates |
| AuthData.CoseKeyShape | ctap2/authenticatordata.go:79-94 | every key is 77 bytes and one self-delimiting CBOR item |
| AuthData.CoseKeyInjective | ctap2/authenticatordata.go:79-94 | for coordinates below 2^256 keys are equal if and only if the points are |
| AuthData.ExtensionsOnTheWire | ctap2/makecredential.go:285-289 | the bytes of the two extension maps |
| AuthData.FlagBits | ctap2/commands.go:87-93 | presence, verification, attested data and extensions are bits 0, 2, 6 and 7 |
| AuthData.CreateDataOnTheWire | ctap2/makecredential.go:284-310 | registration data byte by byte: its flag byte is 0xC5 with the extension and 0x45 without |
| AuthData.AssertionDataOnTheWire | ctap2/getassertion.go:381-402 | assertion data byte by byte: its flag byte is 0x85 with the extension and 0x05 without |
| AuthData.Marshal | ctap2/authenticatordata.go:27-62 | the layout, part by part as the flags ask |
| AuthData.ReadBackIff | ctap2/authenticatordata.go:27-62 | a reader driven by the flags recovers all fields and consumes all bytes if and only if the credential ID is shorter than 65536 bytes |
| AuthData.CreateDataReads | ctap2/makecredential.go:284-310 | the same for what registration builds, with presence, verification and attested-data flags set and the extension flag exactly when asked for |
| AuthData.AssertionDataReads | ctap2/getassertion.go:381-402 | assertion data always reads back, with the extension flag exactly when there is an output |
| Crypto.CbcInverse | ctap2/hmacsecret.go:87-91 | CBC decryption and encryption are inverse to each other, by induction over blocks |
| Crypto.XorAt | ctap2/hmacsecret.go:87-91 | each bit of an exclusive or tells whether the operands differ there |
| Crypto.CbcChains | ctap2/hmacsecret.go:128-130 | each block of the output is the encryption of its plain text and the output block before it |
| Crypto.CbcEncrypt | ctap2/hmacsecret.go:128-130 | the chaining loop computes section 6.2 of NIST SP 800-38A |
| Crypto.CbcDecrypt | ctap2/hmacsecret.go:87-91 | the inverse chaining loop |
| HmacSecret.ProcessHmacSecret | ctap2/hmacsecret.go:22-135 | the output or the first error, in the order of the checks |
| HmacSecret.ProcessAnswersIff | ctap2/hmacsecret.go:41-123 | an answer comes if and only if the request is authentic under the hash of the padded shared coordinate, the credential has a random and there are one or two 32-byte salts |
| HmacSecret.ProcessRefuses | ctap2/hmacsecret.go:22-123 | the first check that fails is the one reported |
| HmacSecret.RoutesAgree | ctap2/hmacsecret.go:81-188 | decrypting the exchange's answer under the hashed shared coordinate gives the direct computation's outputs for the salts sent |
| HmacSecret.PlatformObtainsPrf | ctap2/hmacsecret.go:22-188 | a platform that hashes the 32-byte shared coordinate itself, and encrypts and authenticates its salts under that hash, decrypts the PRF outputs for them |
| Ctap2.Handler.GetAssertion | ctap2/getassertion.go:13-133 | new state and reply of the command: clearing, both searches, its own request for presence and the wait, the snapshot |
| Ctap2.Handler.ConfirmUser | ctap2/getassertion.go:87-111 | asks for the pair of client data hash and relying party hash, waits, and gives the status of a wait that was not granted (also ctap2/makecredential.go lines 54-78) |
| Ctap2.Handler.SignAssertion | ctap2/getassertion.go:227-251 | assertion data with its one reading of the counter, and the signature over it, shared by both routes |
| Ctap2.Handler.BuildResponse | ctap2/getassertion.go:203-281 | one response with its counter reading, or the extension or signing failure (also for lines 136-200) |
| Ctap2.Handler.HandleGetNextAssertion | ctap2/ctap2.go:221-243 | the cursor moves first; past the end the snapshot is dropped |
| Ctap2.Handler.GetAssertionDirect | ctap2/getassertion.go:303-425 | the early-exit search, the extension, the data and the signature |
| Ctap2.Handler.FindCredentials | ctap2/getassertion.go:429-448 | the stored credentials of the relying party that still sign, in order |
| Ctap2.Handler.MakeCredential | ctap2/makecredential.go:17-187 | new state and reply, with the checks before its own request for presence and the wait |
| Ctap2.Handler.MakeCredentialDirect | ctap2/makecredential.go:226-349 | new state and result, with the exclusion check and a save whose failure is ignored |
| Ctap2.Handler.HandleClientPIN | ctap2/ctap2.go:173-217 | the agreement key is made on first use, kept, and published as padded coordinates |
| Ctap2.Handler.HandleCommand | ctap2/ctap2.go:111-129 | dispatch, including commands that cannot be decoded |
| Enumeration.RunKeepsCursor | ctap2/ctap2.go:221-243 | between the commands of any run the cursor is inside a snapshot of at least two credentials, all of which sign |
| Enumeration.NextStep | ctap2/ctap2.go:229-242 | the cursor moves even when the response fails, and the number left goes down by one until the snapshot is dropped |
| Enumeration.FollowUpsInOrder | ctap2/ctap2.go:221-243 | among any other commands, follow-ups show the snapshot in order, each position once, then NotAllowed for ever; each response builds exactly when its extension can be answered with the agreement key held at that moment |
| Enumeration.KeyStays | ctap2/ctap2.go:173-217 | an agreement key, once made, is the key of every later follow-up |
| Enumeration.ResidentEnumeration | ctap2/getassertion.go:13-133 | a resident assertion over n live credentials, once granted, shows the first and announces n; the follow-ups show the others as they were, each exactly when its extension can be answered, and the n-th is refused; without credentials or consent nothing is left to enumerate |
| Selection.FirstIsHead | ctap2/getassertion.go:350-361 | the early exit finds the head of the full filter |
| Selection.DirectMirrorsCommand | ctap2/getassertion.go:319-367 | for every store and list, the direct result equals the command's first response, data, signature and failures included; the command differs only when it asks the user and is not granted |
| Selection.DirectIsHeadOfFindIff | ctap2/getassertion.go:429-448 | a discoverable direct call succeeds if and only if `FindCredentials` finds something for whose head the extension can be answered, and then it is for that head |
| Selection.AssertionsAreBound | ctap2/getassertion.go:29-133 | every assertion was consented to; its data is, byte for byte, the relying party's hash, the flag byte, the counter reading and the exchange's output; its signature covers that and the client data; and it comes from the allow list or from that relying party's stored credentials |
| Selection.FollowUpIsBound | ctap2/ctap2.go:221-243 | a follow-up is bound in the same way to what its snapshot was taken for, with the key and the counter reading of its own moment |
| Selection.DirectIsBound | ctap2/getassertion.go:381-424 | the same for a direct assertion |
| Selection.RegistrationsAreBound | ctap2/makecredential.go:277-348 | the attestation covers data that is, byte for byte, the request's hash, flags, counter reading, AAGUID, new ID, new key and extension, and that reads back |
| Outcomes.DirectCreateOutcome | ctap2/makecredential.go:226-349 | the reasons for which a direct registration is refused, in order, and what each leaves unchanged |
| Outcomes.MakeCredentialOutcome | ctap2/makecredential.go:17-187 | the statuses of the command on the wire, each with its exact cause; once approved, it is the direct registration |
| Outcomes.RegistrationStoresUser | ctap2/makecredential.go:258-275 | a resident registration stores the request's relying party, user ID and names, the new ID and the new key's coordinates, in place of that user's first credential or at the end, and nothing else |
| Outcomes.RegisteredUserIsFound | ctap2/getassertion.go:343-361 | when no earlier credential is of its relying party, a discoverable assertion is then for the new ID and the registered user |
| Outcomes.DirectGetOutcome | ctap2/getassertion.go:303-425 | which credential a direct assertion is for: the first usable entry of its list, or the first usable stored credential of the relying party with its user; and the errors |
| Outcomes.GetAssertionOutcome | ctap2/getassertion.go:13-133 | the statuses of the command on the wire, each with its exact cause; once approved, the response of the direct assertion |
| Outcomes.CommandsGoThrough | ctap2/getassertion.go:87-111 | with nothing active, an approval gets both commands through and a denial is reported as one |
| Outcomes.GetNextOutcome | ctap2/ctap2.go:221-243 | NotAllowed with nothing left; otherwise the next credential and its user, or the failure of its extension |
| Outcomes.ClientPinOutcome | ctap2/ctap2.go:173-217 | the published coordinates are 32 bytes and spell the point of the key that is kept; other sub-commands are refused |
| Outcomes.StoreEditOutcome | ctap2/storage.go:109-193 | edits through the store report whether the file was written; deleting what is not there succeeds and changes nothing |
| Outcomes.UnreadCommands | ctap2/ctap2.go:111-129 | statuses for unknown and undecodable commands, and that GetInfo always answers |
| Outcomes.PlatformPrfOverCtap | ctap2/hmacsecret.go:22-163 | a platform that fetched the agreement key, after any events, finds in an assertion's extension bytes what decrypts to the credential's PRF outputs for its salts |
| History.StepEdits | ctap2/makecredential.go:258-275 | which events change the credential list, and that they change it by one save or delete and nothing else |
| History.StoredCredentialsSign | ctap2/makecredential.go:249-275 | over any history, every stored credential signs for its own relying party |
| History.LookupFindsEarliest | ctap2/getassertion.go:336-367 | a discoverable lookup returns the earliest stored credential of the relying party, or none exists |
| History.ExclusionBlocks | ctap2/makecredential.go:237-247 | an excluded ID that signs refuses registration by either route, without asking the user, and nothing changes |
| History.RegistrationNeedsConsent | ctap2/makecredential.go:54-78 | a registration that is not granted makes no key, stores nothing and reads no counter |
| History.AssertionNeedsConsent | ctap2/getassertion.go:87-111 | an assertion that is not granted only drops the previous snapshot |
| History.HistoryFollowsProtocol | userpresence/userpresence.go:74-121 | a whole history moves the presence protocol by one run of its own steps |
| History.RegisteredCredentialLives | ctap2/makecredential.go:237-275 | after a resident registration by either route, through any events that do not overwrite or delete it, lookup succeeds with the earliest credential and re-registration with the ID excluded is refused without effect |
| History.RegistrationNeedsOwnApproval | ctap2/makecredential.go:54-78 | at any moment of any history, a registration with any effect made its own call for its own client data and relying party, and was released by an approval of that pair that releases no one else, then or later |
| History.AssertionNeedsOwnApproval | ctap2/getassertion.go:87-111 | the same for an assertion |
| History.SnapshotOrigin | ctap2/getassertion.go:119-129 | every snapshot in force was taken by the last assertion command, a granted resident one, and only its cursor has moved since |
| History.FollowUpsAreApproved | ctap2/ctap2.go:221-243 | a follow-up asks nobody, yet in any history it is bound to the relying party and client data of the last assertion command, whose prompt the user approved for exactly these, and names a credential stored for that relying party then |
| Restart.StepFiles | ctap2/storage.go:131-138 | every event that edits the list writes the edited list to the file, and no other touches it |
| Restart.FileIsAMoment | ctap2/storage.go:37-95 | after any run the file holds the whole list as memory had it at some moment, and every save begun later failed |
| Restart.RestartedCredentialsSign | ctap2/storage.go:37-79 | every credential that a restart loads signs for its relying party |
| Restart.RegisteredIsOnDisk | ctap2/storage.go:131-138 | a saved resident registration is in the file after any later events that spare it, even if all their saves fail |
| Restart.RegisteredCredentialOutlivesProcess | ctap2/storage.go:37-79 | so after a restart, and whatever the next process does but overwrite or delete it, lookup succeeds and re-registration with its ID excluded is refused |
| Restart.RestartedKeysDistinct | ctap2/storage.go:109-131 | keys are still distinct after any run and a restart |
| WebAuthn.Handler.HandleCreate | webauthn/handler.go:60-225 | new state and reply, step by step in the handler's order, with its own request for presence and the wait |
| WebAuthn.Handler.HandleGet | webauthn/handler.go:228-381 | new state and reply, with its own request for presence and the wait, and the choice of salts |
| WebAuthn.Handler.ConfirmUser | webauthn/handler.go:130-165 | asks for the pair of the page's client data hash and relying party hash, waits, and gives the error of a wait that was not granted (also lines 251-286) |
| WebAuthn.Handler.ComputePRF | webauthn/handler.go:385-426 | hashed salts, the outputs, or the error that comes first |
| EndToEnd.TpmBackendIsIdeal | tpm/tpm.go:191-246 | the TPM backend meets what the whole-history results ask of a signer, and signs for no empty handle |
| EndToEnd.RegisteredKeySignsIff | tpm/tpm.go:137-246 | a registered key signs for a relying party if and only if its blobs fitted and the hardware loads them under the primary key whose unique point is derived from its seed and that relying party |
| EndToEnd.TpmRegistrationsReadBack | ctap2/makecredential.go:284-310 | every registration of a TPM key reads back from its authenticator data |
| EndToEnd.PrfOfRegisteredHandle | tpm/tpm.go:164-189 | the PRF of a registered handle is a function of its seed and the salts alone, and fails exactly for undecodable salts or a handle cut short |
| EndToEnd.PrfOutcome | webauthn/handler.go:385-426 | the outputs written out for any backend, and exactly when they fail |
| EndToEnd.PrfIsStable | webauthn/handler.go:190-200 | the outputs at registration equal the outputs of any later use with the same salts, from any later state |
| EndToEnd.PrfAtCreate | webauthn/handler.go:179-200 | a successful registration that asks for a PRF reports the registered seed's outputs, so its salts could be decoded |
| EndToEnd.PrfAtGet | webauthn/handler.go:350-381 | a successful use reports the same outputs from any state, whether the request gave the salts for all credentials or for this one |
| EndToEnd.FailedPrfStillRegisters | webauthn/handler.go:180-200 | when the PRF fails at registration the page sees an error, and the credential is registered and stored all the same |
| EndToEnd.TimeoutReportedIff | webauthn/handler.go:153-165 | a timeout is reported if and only if the page's own wait ended or the confirmation command failed with one particular text |
| EndToEnd.CreateIsHistory | webauthn/handler.go:130-180 | what a page's registration does is a history of a wait and at most one registration, so that the results about histories cover it |
| EndToEnd.GetIsHistory | webauthn/handler.go:251-312 | the same for an assertion |
| EndToEnd.CreateNeedsOwnApproval | webauthn/handler.go:130-165 | at any moment of any history, a new credential or any change needs an approval of the pair the page's own call asked for, which releases nobody else then or later |
| EndToEnd.GetNeedsOwnApproval | webauthn/handler.go:251-286 | the same for an assertion |
| Pages.DecodedMembers | webauthn/handler.go:119-128 | a decoded list holds exactly the entries that decode |
| Pages.DecodedConcat | webauthn/handler.go:288-296 | in their order |
| Pages.CreateOutcome | webauthn/handler.go:60-225 | a page's registration from its own fields: malformed, timed out, denied, or, once approved, exactly the direct registration and its answer |
| Pages.CreateGoesThrough | webauthn/handler.go:130-187 | with nothing active, an approval makes a well-formed request exactly the direct registration, and a denial is reported |
| Pages.CreatedIsCertified | webauthn/handler.go:95-101 | the client data returned to the page is the page's own, and its hash is what was attested |
| Pages.ExcludedEntryStops | webauthn/handler.go:119-187 | a credential that works, wherever it is in the page's exclude list, stops the registration and nothing is made |
| Pages.PageUserIsStored | webauthn/handler.go:103-110 | a registration stores the user that the page named, exactly when the page required or preferred a resident key |
| Pages.GetOutcome | webauthn/handler.go:228-381 | a page's assertion from its own fields: malformed, timed out, denied, or, once approved, exactly the direct assertion with the salts that apply |
| Pages.GetGoesThrough | webauthn/handler.go:251-319 | with nothing active, an approval makes it exactly the direct assertion, and a denial is reported |
| Pages.GotIsBound | webauthn/handler.go:243-255 | the client data returned to the page is the page's own, and the signature covers its hash |
| Pages.FirstEntryIsUsed | webauthn/handler.go:288-312 | an approved assertion uses the first entry of the page's list that decodes and works |
| Pages.NothingUsable | webauthn/handler.go:288-319 | no credential is found if and only if no entry that decodes works; a list none of whose entries decodes counts as no list, and the assertion becomes discoverable |
| NativeMsg.Read | nativemsg/io.go:17-39 | the payload or the error, and what is left of the stream |
| NativeMsg.Write | nativemsg/io.go:43-67 | what reached the writer, for messages that are too large and writers that fail midway |
| NativeMsg.WrittenReadsBackIff | nativemsg/io.go:17-67 | an accepted payload is written after its length in four little-endian bytes, and is read back if and only if it is not empty |
| NativeMsg.FramesRoundTrip | nativemsg/io.go:17-67 | any sequence of payloads of 1 to 2^20 bytes is read back in order |
| NativeMsg.StreamIsRequests | nativemsg/io.go:17-39 | any stream is its well-formed frames followed by something refused, with a clean end exactly when nothing follows |
| NativeMsg.RunNativeMessaging | tpmfido.go:84-112 | the loop terminates on every input and serves the well-formed frames in order until the input, a response or the writer stops it |
| NativeMsg.ResponseAt | tpmfido.go:84-112 | each response answers its own request in the state that the requests before it left, up to the first over 2^20 bytes |
| NativeMsg.BrowserSeesResponses | tpmfido.go:84-112 | on any input, the output is the responses in order up to the first over 2^20 bytes; read back there is one for each well-formed request if and only if every response met has between 1 and 2^20 bytes |
| NativeMsg.BrowserSeesCutResponses | tpmfido.go:84-112 | with a writer that fails after any number of bytes, the output is that output cut there, and a reader gets whole responses in order, all that got through whole |

## Left out

- Coder.Decoder.DecodeInto: only the call with a buffer of exactly the announced length; a direct call with another length meets a guard that does not match its comment.
- HmacSecret.ProcessHmacSecret: ciphertext is a whole number of blocks and the platform's key is a point on the curve; for others the Go library panics.
- NativeMsg.RunNativeMessaging: the request handler is a parameter, a function of its own state and the message's bytes; parsing a message's JSON into a request is not modelled.
- Selection.RegistrationsAreBound: says nothing for IDs of 65536 bytes or more, whose data does not read back.
- Ctap2.Handler.MakeCredential: whether ES256 is among the requested algorithms is one Boolean, and CBOR encoding of the response is assumed to succeed.
- Nil credential IDs: decoded lists and new handles never hold one, so an ID is always a byte string, possibly empty, and only a search that found nothing yields none. A `null` ID in a hand-edited credentials file is not modelled.
- The JSON of the credentials file is assumed to round-trip; entries that are `null`, invalid UTF-8 in names and loss of clock precision are not modelled.
- Power failure below the file system: the temporary file is not synced before the rename, and the model's crash ends the process, not the machine.
- The user-presence goroutines are steps of a relation; the class holds the sections that run under the mutex and the handlers' wait. Two commands of one handler object do not overlap, as the loop serves one at a time; calls of other handlers appear among the steps.
- Key agreement, ECDSA, SHA-256, HMAC, HKDF, AES and the TPM commands are functions with laws, not computed; signatures are functions of their inputs.
- The memory backend beyond what any signer offers, `GetInfo`'s contents, error messages beyond their kind, logging, and the installation scripts: constants and single branches.
