# go-tumbler in Dafny

go-tumbler seals one data key in an *envelope* of independent keyslots. Each slot is
opened by a password, a YubiKey, both, or a printed recovery code, and slots can be
added and removed without touching the others. This project models the envelope, its
wire format, the unlock methods, the secret containers and the recovery-code codec,
and proves what the library promises about them.

## How it is built

| file | what it models |
|---|---|
| `Bytes`, `Errors`, `Kinds` | bytes and big-endian words, the sentinel errors, the identifiers and bounds of `tumbler.go` |
| `Kdf` | KDF parameters and their safety bounds |
| `Slots`, `Wire`, `Parser`, `Printing` | a slot and its metadata, the wire format as functions, the cursor and decoder as an object with an offset, and what can be printed and read |
| `Primitives`, `Effects` | idealised cryptography; randomness, failing calls and the ghost books of live secrets |
| `SecureBytes`, `Lifecycle` | the destroy-once container, and its use by many threads |
| `Ikm`, `Combine`, `Protocol`, `Methods` | keying material, key derivation, enrolment and unlocking: as functions of their inputs (`Ikm`, `Protocol`) and as the effectful code (`Combine`, `Methods`) |
| `Policies`, `Envelopes` | the policy of a slot list; the envelope object |
| `Records`, `Factors`, `Searching` | what an enrolment leaves behind and what opens it; that it takes the very secrets; what a search answers, on any slots, methods and log |
| `Vault`, `Client` | whole runs and the main theorems; a client that drives an envelope object through a run |
| `Golden` | the repository's frozen version-1 envelope, and small encodings |
| `Tampering`, `Witnesses` | edited slots and bytes; concrete inputs, among them those for which the code does less than documented |
| `Base32`, `Recovery` | the recovery-code codec and data-key generation |
| `YkmanOutput` | the ykman transport: reading the device response out of the tool's output, and what stays of that output |

**Two layers.** The effectful code is written as classes and methods that change
state: the reader's offset, buffers filled behind a cursor, containers created and
destroyed, the slot list. Each such method is proved equal to a function of its inputs,
and the theorems over all inputs and all runs are lemmas about those functions.

**What pins those functions.** A method proved equal to a function says no more than the
function does. So each function is also described without itself: when it succeeds, with
which value, and which error it gives otherwise, in literal numbers, random-stream
positions and method kinds (the lemmas named `...Exactly`, `...Errors`, `...InNumbers`), by
what its secrets open (`Factors`), or by fixed bytes (`Golden`).

**Outside failures.** A `World` object carries an arbitrary pattern of failures for
every call to the random generator, mlock, HKDF, the device and the context check.
`hits` counts the calls that failed and `fault` is the kind of the last one. The
contract of every operation says: if no call failed, the result is exactly the one of
the pure function; otherwise exactly one did, and the result is `Failure(Fault(w.fault))`,
that very failure. In a world where no call ever fails, `Client.Session` is
exact from the first call to the last.

**Secrets.** `World.live` is the set of containers not yet destroyed, `World.residue`
the set of raw secret buffers not yet zeroed. `SecureBytes.Delivers` and
`Methods.Enrols` say that an operation returns with both sets as they were, plus only
the secret it returns. Three operations do not: `SecureBytes.Clone`,
`Recovery.ParseRecoveryCode` and `YkmanOutput.ChallengeResponse` can leave one buffer
behind. Their contracts return it as the ghost result `left` and say exactly when and with
what in it.

**Cryptography.** The password stretchers, HKDF and HMAC are arbitrary deterministic
functions with the right output lengths. The AEAD is ideal: sealing is logged, and
opening succeeds exactly on logged tuples. The only assumption is that decryption
undoes encryption under one key, nonce and associated data
(`Primitives.CorrectIsPossible` shows that it can be met). The lemmas about wrong secrets
in `Factors` also ask that the primitives do not collide on the few calls that the method and
the enrolment make, which are listed there one by one. All byte layouts are real.

## Where the code and its documentation differ

- `envelope.go:18-19` says that every wire bound is enforced on printing and on parsing.
  Enrolling and printing accept KDF parameters that parsing refuses: a password enrolled with
  Argon2id and 4 KiB of memory makes an envelope that prints and can never be read
  (`Witnesses.WeakKdfIsPrintedOnly`). `Records.MadeWellFormed` and `Vault.RunSurvivesDisk` give the
  exact condition. Slots from a method supplied by the caller can also have wrapped keys of
  1 to 15 bytes, or a type and KDF that do not fit, with the same effect
  (`Printing.ShortWrappedIsPrintedOnly`; exact condition: `Printing.PrintedReadsBackIff`).
- `combine.go:31-33` says that no two configurations have the same keying material. Secrets of
  65536 bytes collide (`Ikm.LongSecretsCollide`); `Ikm.EncodeInjectiveIff` gives the exact bound. It
  takes a KDF or transport supplied by the caller: with the 32-byte password keys and 20-byte responses
  of the built-in ones no two collide, however long the recovery code (`Ikm.EncodeInjective`).
- `README.md:55` says that any one slot yields the data key, and `README.md:171` that every
  failure is `ErrAuthFailed`. A device without the OTP slot of an earlier YubiKey slot stops the
  search with another error (`Witnesses.BackupKeyCanBeShadowed`); such a device offered beside a
  recovery code hides the code, which alone would have worked (`Witnesses.RecoveryCodeCanBeShadowed`).
  `Searching.SearchExactly` says for any slots, methods and log when the answer is a key, when it is
  `ErrAuthFailed` and when it is neither, and `Vault.RunUnlocksExactly` says it after any run.
- `envelope.go:34-38` and `README.md:286` say that any edit to a slot's metadata surfaces as
  `ErrAuthFailed`. An edited slot never opens, but the failure is `ErrAuthFailed` exactly when the
  attempt can be made (`Tampering.EditedSlotExactly`). Writing 3 into the OTP-slot byte of the first
  slot gives bytes that parse and an `ErrMalformed` from Unlock (`Tampering.OtpByteIsNotAuthFailed`).
- `README.md:275` says that no secret leaks. Three buffers with secrets in them are not zeroed:
  - `Clone` (`securebytes/securebytes.go:106-122`) leaves a plain copy of the payload if and only if the
    container is live and mlock fails (`SecureBytes.Clone`).
  - `ParseRecoveryCode` (`recovery.go:113-117`) leaves what the library decoded before it met a bad
    symbol: it returns the error before the zeroing is deferred (`Recovery.ParseRecoveryCode`). It happens if
    and only if the entry has a digit 0, 1, 8 or 9 (`Recovery.UndecodableEntries`), as when the last symbol
    of a printed code is mistyped as 1.
  - The ykman transport (`transport/ykman.go:152-160`) leaves the whole output of a tool that
    fails, and a copy of the first response if the output holds several; `transport/ykman.go:56-57`
    says that the output is zeroed (`YkmanOutput.ChallengeResponse`).

## Model

| member | source | states |
|---|---|---|
| Wire.ParseIffMarshal | envelope.go:316-555 | A byte string parses to an envelope if and only if that envelope is well-formed and prints to exactly that byte string |
| Wire.ParseThenPrint | envelope.go:425-457 | Whatever the parser accepts is well-formed and prints back byte for byte |
| Wire.PrintThenParse | envelope.go:316-352 | Every well-formed envelope is read back unchanged from what it prints to |
| Wire.MarshalInjective | envelope.go:316-352 | Two well-formed envelopes that print alike are equal |
| Wire.MarshalWellFormed | envelope.go:19-32 | A well-formed envelope always prints, to at most 8 + 823 bytes per slot and 52680 in all |
| Wire.MetaInjective | envelope.go:281-313 | Metadata bytes determine every authenticated field, even with other bytes behind them |
| Wire.SlotsExact | envelope.go:444-453 | The slot loop accepts exactly the concatenated chunks of well-formed slots and leaves the rest |
| Wire.MetaSound | envelope.go:475-539 | The bytes captured as associated data are the bytes the printer writes for the parsed fields |
| Wire.AcceptedInNumbers | envelope.go:425-577 | A byte string is accepted if and only if it is the print of 1 to 64 slots, with each field bound, KDF rule per type and wrapped length given in numbers |
| Wire.HeaderErrors | envelope.go:425-443 | Which error each fault of the header gives, in the order of the checks |
| Wire.SlotLengthErrors | envelope.go:463-473 | Which error the length field of a slot gives |
| Wire.SlotRefused | envelope.go:478-545 | Which error a complete slot gives for its type, its AEAD, a field bound or its wrapped length |
| Wire.MetaTruncated | wireformat_test.go:85-118 | Metadata cut off anywhere gives ErrShortData |
| Wire.TruncatedBytes | wireformat_test.go:76-83 | An accepted byte string cut off anywhere gives ErrShortData |
| Wire.TrailingBytes | envelope.go:454-456 | Bytes behind an accepted envelope give ErrMalformed |
| Slots.MarshalMeta | envelope.go:281-313 | Appending field by field gives the metadata layout; the first bound that is broken decides the error |
| Slots.MetaSize | envelope.go:19-32 | Metadata within the bounds is longer than 13 and at most 563 bytes |
| Slots.MetaErrorExactly | envelope.go:281-300 | Metadata is refused if and only if a bound, in numbers, is broken, and which error it gives |
| Slots.ShapeExactly | envelope.go:558-577 | A shape is accepted if and only if types 1 and 3 carry the parameters of an in-bounds KDF and types 2 and 4 carry none |
| Slots.ShapeErrors | envelope.go:558-577 | Which error each wrong shape gives |
| Parser.Reader.U8 | envelope.go:372-379 | One byte, cursor one further; at the end an error and no movement |
| Parser.Reader.U16 | envelope.go:381-388 | A big-endian 16-bit word, cursor two further, or an error and no movement |
| Parser.Reader.U32 | envelope.go:390-397 | A big-endian 32-bit word, cursor four further, or an error and no movement |
| Parser.Reader.Take | envelope.go:400-408 | The next n bytes and the cursor behind them; negative or overlong n is an error |
| Parser.Reader.TakeU16 | envelope.go:411-420 | A bounded length-prefixed field |
| Parser.ParseSlot | envelope.go:463-555 | The decoder with its sub-reader computes the slot function, the cursor strictly advances, and 32-bit and 64-bit int agree |
| Parser.FixedFieldsNeverRunShort | coverage_notes_test.go:25-29 | After the 13-byte floor the six fixed fields are always present |
| Parser.SlotFraming | envelope.go:468-475 | An accepted slot consumes its own chunk only: any bytes may follow and give the same slot |
| Printing.MarshalExactly | envelope.go:316-352 | Marshal fails only for the slot count, a field bound or the wrapped length; the 1 MiB branch is unreachable |
| Printing.MarshalErrors | envelope.go:316-352 | A failed print is a malformed envelope, or an unsupported AEAD in the first slot that cannot be printed |
| Printing.PrintedReadsBackIff | envelope.go:316-555 | What is printed parses again exactly when version, slot shapes and tag lengths are right, and then to the same slots |
| Printing.ShortWrappedIsPrintedOnly | envelope.go:331-333 | An envelope that prints and does not parse |
| Printing.AddLeavesSiblings | envelope.go:164-182 | After AddSlot the printed bytes of the old slots are unchanged and one chunk follows them |
| Printing.RemoveLeavesSiblings | envelope.go:193-212 | After RemoveSlot exactly the chunk of the first slot with that ID is gone |
| Kdf.MarshalParams | kdf.go:85-131 | The indexed writes produce the 9-byte layout of each KDF |
| Kdf.ParseKdfExact | kdf.go:175-226 | parseKDF gives a KDF if and only if it is in bounds and the bytes are its encoding |
| Kdf.ParseOfParams | kdf.go:85-226 | Marshalled parameters are read back as the same KDF when it is in bounds, and refused when it is not |
| Kdf.ParseKdfNone | kdf.go:177-181 | "No KDF" is read exactly from the none identifier with empty parameters |
| Kdf.ParseKdfErrors | kdf.go:175-226 | An unknown identifier gives ErrUnsupportedKDF, everything else ErrKDFParams |
| Kdf.ScryptCheckDoesNotWrap | kdf.go:217-220 | The 64-bit memory product of the scrypt check is the true product |
| Kdf.AcceptedMemory | kdf.go:29-43 | Every accepted parameter set stays within 2 GiB of working memory |
| Primitives.LookupSound | combine.go:182-211 | The ideal open answers exactly when a matching tuple was sealed, with a plaintext sealed under it |
| Primitives.LookupComplete | combine.go:154-176 | A sealed tuple opens to the plaintext that was sealed |
| Primitives.LookupAppend | combine.go:154-211 | Later sealings do not change what a tuple opens to |
| Effects.World.RandBytes | method.go:58-72 | The next n random bytes, once, or a failure that draws nothing |
| SecureBytes.SecureBytes.New | securebytes/securebytes.go:59-76 | Moves the payload and zeroes the source, or fails, wipes the copy it made and leaves the source intact |
| SecureBytes.SecureBytes.NewZero | securebytes/securebytes.go:84-96 | A zero payload of the size asked for, a negative size is an error |
| SecureBytes.SecureBytes.Use | securebytes/securebytes.go:132-140 | The callback sees and rewrites the payload in place, and does not run after destruction |
| SecureBytes.SecureBytes.Len | securebytes/securebytes.go:143-150 | The payload length, 0 after destruction |
| SecureBytes.SecureBytes.Destroy | securebytes/securebytes.go:156-174 | The buffer is all zero when given up, also if munlock fails; a second call changes nothing |
| SecureBytes.SecureBytes.Clone | securebytes/securebytes.go:106-122 | An equal payload in fresh storage, or the failure; a raw copy stays behind if and only if the source is live and mlock fails |
| Lifecycle.Perform | securebytes/securebytes.go:106-174 | One locked call on one of many containers is one step of the shared machine; containers keep their numbers and storage stays disjoint |
| Lifecycle.PerformAll | securebytes/securebytes.go:106-174 | A whole schedule on containers is a run of the machine, observation by observation, and storage stays disjoint throughout |
| Lifecycle.DestroyedForever | securebytes/securebytes.go:156-174 | On every schedule a destroyed container stays destroyed and refuses every call |
| Lifecycle.AfterDestroyNothingRuns | securebytes/securebytes.go:132-140 | After a destruction anywhere in a schedule no later callback on that container runs, also if it was cloned on the way |
| Lifecycle.OthersDoNotInterfere | securebytes/securebytes.go:103-122 | A payload changes only through calls on its own container, so clones are independent |
| Ikm.EncodeInjectiveIff | combine.go:31-58 | The encoding separates all triples of optional secrets up to n bytes if and only if n is below 65536 |
| Ikm.EncodeInjective | combine.go:31-96 | Equal encodings with password keys and responses below 65536 bytes, and any recovery codes, come from equal triples, absent and empty being distinct |
| Ikm.LongSecretsCollide | combine.go:79 | Two different triples with secrets of 65536 bytes and one encoding |
| Combine.Fill | combine.go:66-88 | The cursor ends exactly at the computed size with the whole encoding written, or a present secret was destroyed |
| Combine.BuildIKM | combine.go:49-97 | Delivers the encoding of the present roles; no secret is left behind on any path |
| Combine.DeriveKek | combine.go:117-148 | Delivers HKDF of the keying material with label, version, type and slot ID; IKM and raw key are gone on every path |
| Combine.Seal | combine.go:154-176 | The sealed bytes, logged once; on every error nothing is logged |
| Combine.Open | combine.go:182-211 | Delivers the logged plaintext or ErrAuthFailed; an allocation failure is not an authentication failure |
| Combine.OpenExactly | combine.go:182-211 | What opening answers is the plaintext of a sealing of that very tuple; otherwise a destroyed key, a key that is not 32 bytes or ErrAuthFailed |
| Methods.Derive | kdf.go:144-164 | Delivers the stretched password, or the library's refusal or panic; the raw output is zeroed on every path |
| Methods.SecretResponse | yubikey.go:179-191 | Delivers the device's answer to the secret challenge, which is zeroed on every path |
| Methods.WrapDek | method.go:93-132 | The drafted slot from the next 36 random bytes, sealed under its KEK with its metadata; nothing left behind |
| Methods.UnwrapDek | method.go:139-153 | Delivers the key sealed under the rebuilt KEK and the slot's metadata, or the first error |
| Methods.EnrollPassword | password.go:40-56 | Password enrolment computes the protocol function and leaves no secret behind |
| Methods.EnrollYubiOnly | yubikey.go:84-103 | YubiKey-only enrolment, with the stored challenge |
| Methods.EnrollTwoFactor | yubikey.go:105-147 | Two-factor enrolment, with the derived and unstored challenge |
| Methods.EnrollRecovery | recovery.go:48-55 | Recovery enrolment, refusing codes that are not 32 bytes |
| Methods.Enroll | envelope.go:89-93 | Every method's enrolment under every failure pattern: exact slot, log and randomness, and balanced secrets |
| Methods.DerivePasswordKey | password.go:79-92 | The KDF and its parameters come from the slot |
| Methods.UnlockTwoFactor | yubikey.go:173-195 | Two-factor unlocking with both factors rebuilt and destroyed |
| Methods.Unlock | envelope.go:89-93 | Every method's unlocking under every failure pattern: exact result and balanced secrets |
| Protocol.InfoSeparates | combine.go:110-126 | The HKDF info of a KEK determines version, type and slot ID, and is never the challenge label |
| Protocol.EnrolledFields | method.go:93-132 | For each field of a fresh slot: which byte of the random stream, method parameter or constant it is |
| Protocol.EnrollExactly | password.go:40-56 | For every method an enrolment fails exactly for one of the listed reasons, and names the first |
| Protocol.VerdictIsFirst | envelope.go:131-158 | The search gives the first outcome that is not ErrAuthFailed, and ErrAuthFailed if and only if there is none |
| Protocol.AttemptsExact | envelope.go:135-140 | Exactly the pairs of a slot and a method of its type are tried |
| Protocol.AttemptsSplit | envelope.go:135-137 | Earlier slots are tried before later ones |
| Protocol.RowSplit | envelope.go:137-140 | On one slot, earlier methods are tried before later ones |
| Policies.PolicyOfMeaning | envelope.go:226-252 | The policy is a real P if and only if a primary slot exists and all of them imply P |
| Policies.PolicyByTypes | tumbler.go:104-119 | The policy is 1, 2 or 3 if and only if some slot is not of type 4 and all such slots have type 1, 3 or 2 |
| Policies.PolicyOfReordered | envelope.go:226-252 | Reordering slots does not change the policy |
| Policies.PolicyOfIgnoresRecovery | envelope.go:226-252 | Inserting or deleting a recovery slot does not change the policy |
| Policies.PolicyOfReduced | envelope.go:184-192 | Deleting a slot while a primary remains keeps a real policy |
| Envelopes.Envelope.EffectivePolicy | envelope.go:232-252 | The loop computes the declarative policy |
| Envelopes.Envelope.PrimarySlotCount | envelope.go:216-224 | The number of non-recovery slots |
| Envelopes.Envelope.NewEnvelope | envelope.go:99-125 | One slot per method in order, then the policy check; exact error otherwise, and what was sealed on the way |
| Envelopes.NewExactly | envelope.go:99-125 | NewEnvelope succeeds if and only if the key has 1 to 240 bytes, all methods can enrol, one of them is no recovery code and all others are of the declared policy |
| Envelopes.NewErrors | envelope.go:99-125 | Why it fails otherwise, in the order of the checks |
| Envelopes.EnrollAllInOrder | envelope.go:109-119 | Slot i is the enrolment of method i with the coins behind those of the methods before it |
| Envelopes.Envelope.Unlock | envelope.go:131-158 | Delivers the result of the lexicographic search, or the one outside failure met |
| Envelopes.Envelope.AddSlot | envelope.go:164-182 | Appends the enrolled slot, or returns the exact error and changes nothing |
| Envelopes.AddExactly | envelope.go:164-182 | What AddSlot does to any envelope: the key size, the 64-slot cap, the policy and the method's own refusal, in this order, else one slot more at the end |
| Envelopes.Envelope.RemoveSlot | envelope.go:193-212 | Deletes the first slot with the ID, or returns the exact error and changes nothing |
| Envelopes.RemoveExactly | envelope.go:193-212 | The first slot with the ID is removed if and only if others remain and it is a recovery slot or some other slot is not; else ErrPolicyUnsafe |
| Envelopes.RemoveUnknown | envelope.go:193-203 | ErrSlotNotFound if and only if no slot has the ID |
| Envelopes.Envelope.Marshal | envelope.go:316-352 | The growing output is the printed form, with the first error met |
| Envelopes.Envelope.ParseEnvelope | envelope.go:425-457 | The parsing loop computes the parse function on every input, with 32-bit and 64-bit int |
| Records.MadeFacts | method.go:93-132 | An enrolled slot has its method's type and canonical metadata, and the sealing binds the key to that metadata |
| Records.MadeWellFormed | method.go:93-132 | An enrolled slot is one the wire format can carry if and only if its KDF is within the bounds |
| Records.MetaIsCanonical | envelope.go:57-60 | Clearing kept canonical metadata changes neither printing nor unlocking |
| Records.SecretOpens | method.go:139-153 | The secrets of an enrolment open its slot, whatever KDF the method carries and whatever else was sealed |
| Records.OpenedWasEnrolled | combine.go:178-211 | A well-formed slot that opens equals an enrolled slot in every field, and yields that enrolment's key |
| Factors.OpensExactly | combine.go:117-211 | A slot opens if and only if it was enrolled just so and the method rebuilds the KEK of that enrolment |
| Factors.OpensForItsSecret | method.go:139-153 | Barring collisions of the primitives, a slot opens if and only if the method holds the secrets of its enrolment: the same password, device secret, both, or code |
| Factors.WrongSecretFails | envelope.go:148-154 | With any other secret a live method of the slot's type fails with ErrAuthFailed |
| Factors.TwoFactorNeedsBoth | tumbler.go:35-38 | Barring collisions, a two-factor slot opens if and only if the method has both the password and the device secret of its enrolment |
| Factors.KekDependsOnAll | combine.go:110-148 | Different secrets, HKDF salts, versions, types or slot IDs: some HKDF tells their KEKs apart; and only then |
| Searching.TryExactly | method.go:139-153 | An attempt ends in a key or in ErrAuthFailed if and only if method and slot are fit for it: a live secret, accepted KDF parameters, a configured OTP slot |
| Searching.TryErrors | password.go:60-92 | An attempt that cannot be made fails with the first reason, each with its error |
| Searching.EnrolledCanTry | password.go:60-92 | On an enrolled slot that means a KDF within the bounds, a live secret and a device with the OTP slot |
| Searching.SearchExactly | envelope.go:127-158 | For any slots, methods and log: a key, ErrAuthFailed, or another error, each if and only if its condition on the attempts holds |
| Searching.SearchWithoutMethods | envelope.go:131-134 | Without methods Unlock gives ErrNoMethods |
| Searching.FailureExactly | envelope.go:127-158 | A search that finds no key answers ErrAuthFailed if and only if every attempt could be made |
| Searching.OpensLater | combine.go:182-211 | What opens goes on opening to the same key, whatever is sealed later |
| Vault.AddKeepsPolicy | envelope.go:164-182 | A successful AddSlot keeps the policy of any envelope, also an invalid one |
| Vault.RemoveKeepsPolicy | envelope.go:184-212 | A successful RemoveSlot keeps a real policy |
| Vault.EnrollAllAudited | envelope.go:109-119 | Everything NewEnvelope sealed, also before failing, is on record |
| Vault.StepKeeps | envelope.go:164-212 | Each AddSlot with any method and key, RemoveSlot, or save and load, succeeding or failing, keeps the record of enrolments and the policy |
| Vault.RereadIsSame | envelope.go:316-457 | If every slot is on record, whatever can be read back is the envelope that was written |
| Vault.PolicyKeptByEveryRun | envelope.go:99-252 | After any run the effective policy is the declared one and the header's, and a primary slot remains |
| Vault.DeclaredPolicyStaysAddable | envelope.go:164-182 | After any run, what AddSlot does with any method and key, with the declared policy as the only policy it takes |
| Vault.UnlockIsAuthentic | envelope_test.go:302-347 | For every accepted byte string and all methods, a returned key was sealed by an enrolment whose slot is in the envelope unchanged and was opened by one of the methods |
| Vault.TamperingYieldsNoOtherKey | envelope_test.go:302-347 | If one data key was ever sealed, no byte string unlocks to another |
| Vault.RunSurvivesDisk | envelope.go:316-457 | After any run, writing out succeeds exactly up to 64 slots, reading back exactly if every slot was enrolled with a KDF within the bounds, and then gives the same envelope |
| Vault.RunUnlocksExactly | envelope.go:127-158 | After any run and for any methods, when Unlock finds a key, when it answers ErrAuthFailed and when another error, each if and only if; with one data key enrolled it finds that one |
| Vault.RunUnlocksForSecrets | envelope.go:127-158 | After any run and barring collisions, a key is found if and only if some attempt holds its slot's secret and all attempts up to it can be made |
| Vault.SurvivingSecretRecovers | envelope.go:127-158 | After any run, any later sealings, writing and reading, the secret of a surviving slot gives back the data key if the earlier attempts can be made |
| Client.Drive | envelope.go:164-212 | Any calls on an envelope object, under every failure pattern, are a run: the object and the sealings end as the run does |
| Client.Session | envelope.go:99-158 | NewEnvelope, any calls, Marshal, ParseEnvelope and Unlock give what the run and the search say, or one outside failure; exactly so if nothing outside fails |
| Client.SecretReopens | envelope.go:127-158 | Such a session with one data key is reopened by the secret of any slot that is left, if the earlier attempts can be made |
| Tampering.EditedSlotExactly | envelope.go:34-38 | A slot edited in any field never opens, and fails with ErrAuthFailed if and only if the attempt can be made |
| Tampering.OtpByteIsNotAuthFailed | envelope.go:34-38 | Another OTP-slot number in the first slot parses and ends in ErrMalformed, whatever the methods, secrets and other slots |
| Witnesses.WeakKdfIsPrintedOnly | envelope.go:99-125 | An enrolment with Argon2id and 4 KiB whose envelope prints and does not parse |
| Witnesses.BackupKeyCanBeShadowed | envelope.go:148-154 | A backup YubiKey whose slot is present but not reached |
| Witnesses.RecoveryCodeCanBeShadowed | envelope.go:135-154 | A recovery code that unlocks alone and is not reached when another device is offered first |
| Witnesses.SomeStateIsReachable | envelope.go:99-125 | Runs exist for every data key of a permitted size and every password KDF that derives a key |
| Golden.GoldenEnvelope | golden_test.go:21-68 | With the counting random stream, NewEnvelope and AddSlot print the bytes of the frozen envelope around the two wrapped keys |
| Golden.SmallIkm | combine.go:31-96 | Two small keying materials, byte by byte |
| Golden.SmallKdfs | kdf.go:85-131 | Identifiers and parameter bytes of three KDFs |
| Golden.SmallBase32 | recovery.go:17 | A test vector of section 10 of RFC 4648 |
| Base32.DecodeEncode | recovery.go:17 | Unpadded base32 decodes to the bytes that were encoded, for every byte string (section 6 of RFC 4648) |
| Base32.RegroupBits | recovery.go:17 | Cutting a bit stream into 5-bit groups loses nothing and adds only filling zeros |
| Base32.EncodeShape | recovery.go:17 | The text has the length of the 5-bit groups and uses the alphabet only |
| Recovery.GroupString | recovery.go:129-142 | The loop inserts a hyphen before each character, but the first, whose byte offset is a multiple of n |
| Recovery.GroupedByFour | recovery.go:129-142 | Every fifth character of the printed code is a hyphen, the others are the symbols in order |
| Recovery.PrintedCode | recovery.go:82-94 | A printed 32-byte code has 64 characters, a hyphen at every fifth place and the 52 symbols in order elsewhere |
| Recovery.ReentryRecovers | recovery.go:86-125 | A 32-byte code is recovered from its printed form after any change of letter case and any inserted or dropped separators |
| Recovery.AcceptedEntries | recovery.go:99-120 | An entry is accepted if and only if it cleans to 52 symbols of the alphabet |
| Recovery.CleanOne | recovery.go:99-111 | Letters are kept in upper case, digits as they are, nothing else |
| Recovery.FormatRecoveryCode | recovery.go:86-94 | The grouped text of a live code |
| Recovery.ParseRecoveryCode | recovery.go:99-126 | Hands over the decoded code; the decoded bytes are zeroed, except that what the library decodes before failing stays behind |
| Recovery.UndecodableEntries | recovery.go:99-116 | The library fails on an entry if and only if it has a digit 0, 1, 8 or 9 |
| Recovery.GenerateRecoveryCode | recovery.go:69-80 | Delivers 32 fresh random bytes; the raw buffer is zeroed on every path |
| Recovery.GenerateDek | tumbler.go:216-236 | Delivers fresh random bytes of a permitted size; the container is destroyed if drawing fails |
| Recovery.DekExactly | tumbler.go:216-236 | Sizes 1 to 240 give that many bytes of the random stream, others ErrDEKSize |
| YkmanOutput.ExtractResponseHex | transport/ykman.go:177-192 | A response is found if and only if exactly one token is 40 hex digits, with the fast path agreeing; of several, a copy of the first stays behind |
| YkmanOutput.FastPath | transport/ykman.go:178-180 | Output that trims to a response has it as its only token |
| YkmanOutput.FieldsSplit | transport/ykman.go:181-190 | The tokens of a text are those before, at and behind any stretch that white space bounds |
| YkmanOutput.DecodeResponse | transport/ykman.go:232-246 | 40 lower-case hex digits give the 20 bytes they spell, anything else is an error |
| YkmanOutput.LowerIsDecodable | transport/ykman.go:177-246 | What is extracted can always be decoded, to the value of the token that was found |
| YkmanOutput.ResponseExactly | transport/ykman.go:131-246 | The transport takes a response from the output if and only if a single token spells those 20 bytes in hex, in any case |
| YkmanOutput.ResponseFound | transport/ykman.go:171-192 | A response in hex, in either case, amid white space and tokens that are no response is taken |
| YkmanOutput.UsualOutput | transport/ykman.go:171-192 | The response and a line feed give the response |
| YkmanOutput.ResponseErrors | transport/ykman.go:131-169 | Why there is no response: the OTP slot, the tool, or its output |
| YkmanOutput.ChallengeResponse | transport/ykman.go:131-169 | Hands over that response or the exact error; which buffer stays behind unzeroed, when, and what it holds |

## Left out

- The insides of Argon2id, scrypt, HKDF-SHA256, HMAC-SHA1 and ChaCha20-Poly1305, and every computational security claim.
- When exactly scrypt refuses its parameters (an arbitrary predicate of them). That Argon2id panics for zero time or zero threads is modelled, as an outcome `Panicked` that ends every call on the way up; what a caller does with a panic is not.
- Unlock methods, KDFs and transports supplied by the caller: only the built-in ones are modelled, and a device is a fixed map from OTP slot to secret that may fail at any call. What a transport leaves in its own buffers is not in the books of the methods: `YkmanOutput` has it for the ykman transport, and the fake transport for tests is left out.
- Concurrent changes to an envelope, and a secret destroyed by another thread between two uses inside one call. `Lifecycle` covers the containers alone, and callbacks that panic are not modelled.
- Slices that share memory: slot fields are values, so a caller that changes a slice it handed in is not captured.
- Base32 decoding of texts whose length no byte string encodes to (1, 3 or 6 symbols past a multiple of 8). They never decode to 32 bytes, so no recovery code depends on it. What the library returns beside its error is an arbitrary function of the text, and what it keeps in buffers of its own is not tracked.
- Go strings with secrets in them: the printed and re-entered recovery code and the hex challenge on the command line of ykman (`README.md:288` says there are none). They cannot be zeroed, and the books count buffers only.
- Invalid UTF-8 in recovery-code entries and tool output: both are taken as characters.
- Process execution, timeouts, version parsing, `Serial` and `Present` of the ykman transport, and the PIV stub.
- mlock limits, finalizers, redaction in logs and JSON, `ValidateSafety`, `SlotInfos`, `String` methods, options and touch announcements: each is settled by reading one branch.
- The text of wrapped errors: only the sentinel is kept.
