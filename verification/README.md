# A model of the UDDI identity gateway

This project models, in Dafny, the parts of the UDDI gateway and its toolkit on which trust rests, and proves what
those parts are for. The gateway is a Go HTTP service; the toolkit and the client SDK are TypeScript; the age proof is
a circom circuit.

The five components, and the modules that model them:

1. **Signed canonical JSON.** `Utf`, `KeyOrder`, `JsonText`, `JsonValue`, `Canonical` give the texts and their order;
   `GoCanonical` runs the gateway's canonicalizer as it does, with a buffer and a sorted key list; `TsCanonical` is the
   toolkit's; `TextAgreement` says when the two texts are equal. Strings are sequences of Unicode scalar values, compared
   as UTF-8 bytes in Go and as UTF-16 code units in TypeScript. Escaping follows section 7 of RFC 8259, and the reader
   follows its grammar.
2. **Age circuit.** `AgeCircuit` is the constraint system over any field of prime order above 8192. The comparators of
   the circomlib library (`Num2Bits`, `LessThan`, `GreaterEqThan`) are given by their own constraints; Poseidon is any
   function.
3. **Rate limiter.** `RateLimiter` is the class with its map and its deleting sweep, its specification, whole runs of
   calls, and a reference limiter that looks at one key's own request times and deletes nothing. `Float64` has the
   rounding of IEEE 754 binary64 by which the Go library turns a window into the seconds of `Retry-After`.
4. **Identity protocol.** `SignedTexts` has the signed messages; `DidRegistry`, `Challenges` (with `Presentations`) and
   `Credentials` (with `CredentialRows` for PostgreSQL) have the stores and the handlers as classes, each proved against
   a specification function; `Gateway` joins those functions into a state machine whose steps are whole requests, and
   `Server` shows that the handlers wired together carry out exactly its steps. `StoreRaces` takes the chain client's
   operations apart into their two store calls. `DidRuns`, `AuthRuns` and
   `CredentialRuns` state what every run keeps. `Holder` and `HolderRuns` add the SDK client; `Issuance` and
   `LocalVerification` the issuing and the checking of credentials in the toolkit.
5. **Schema migrator.** `Migrations` is a transition system of any number of migrators; `Migrator` is `Migrate` run
   statement by statement against a database the others are using.

`World` names what comes from outside: Ed25519 (RFC 8032), base58 of SHA-256, the RFC 3339 clock text and the printing
of numbers. Only these laws are used: an honest signature verifies under its 32-byte public key; parsing reads back a
formatted time to its unit; a printed number is a JSON number and reads back as itself. `WorldLaws` shows that they can
be met together. `Base64` and `Decimal` are concrete.

Where the code falls short of what its documentation or the other side promises, the code is kept and the exact
condition is proved:

- The gateway and the toolkit sign the same text exactly when no string holds one of `<`, `>`, `&`, U+2028, U+2029 and
  no two keys of an object differ first at a supplementary character against one of U+E000..U+FFFF
  (`TextAgreement.TextsAgreeIff`).
- `Retry-After` is long enough exactly when the window is a whole number of seconds or shorter than one, for windows
  below 2^24 seconds (`RateLimiter.RetryAfterHonouredBelow`); at 1.5 seconds it is not
  (`RateLimiter.RetryAfterCanFallShort`). For longer ones it is also long enough when the window lacks so few nanoseconds
  of the next second that the float64 sum carries (`RateLimiter.RetryAfterHonouredIff`). The configuration only builds
  whole-second windows (packages/api/internal/config/config.go:38); the others reach the limiter through
  `NewRateLimiter` alone.
- Between the two store calls of the chain client others can write. A revocation survives exactly when no update that was
  resolved before it is written after it, and a registration exactly when no other had found the DID free before
  (`StoreRaces.RevocationSurvivesIff`, `StoreRaces.RegisteredAgainIff`).
- The registry texts are ambiguous for DIDs the gateway accepts, because it does not look at the characters after the
  prefix; on DIDs the toolkit accepts they are injective. Two DIDs share a registration, revocation or rotation text
  exactly when one continues the other as `SignedTexts.RegisterTextAmbiguousIff` and `SignedTexts.UpdateTextAmbiguousIff`
  say. A DID shares some such text exactly when its suffix is short enough or a colon in it ends an accepted DID
  (`SignedTexts.SharesRegistryTextIff`, `SignedTexts.SharesRotationTextIff`): fewer than 100 bytes of suffix for
  registration and revocation, at most 55 for rotation.
- The key text a client signs need not be the text the registry stores: it is exactly when it has no line break and its
  spare base64 bits are zero (`DidRegistry.RegisteredTextIsStoredIff`, `DidRegistry.RotatedTextIsStoredIff`); every key
  has other texts (`Base64.KeyHasFourTexts`).
- A rotation whose acceptance is lost on the way back leaves the client with the old key, and one whose new pair cannot
  be saved leaves the storage with it (`Holder.UddiClient.RotateIdentityKey`).
- A second revocation fills in a missing reason in PostgreSQL but not in memory (`CredentialRows.RevokeAlikeIff`).
- Within the millisecond of expiry, and only there, the toolkit still accepts a credential and the gateway does not
  (`LocalVerification.VerdictsDifferIff`).
- A credential with an expiry is refused at issue exactly when the expiry, as written to the millisecond, is not after
  the issuance, as a day count below zero or under a millisecond can have it (`Issuance.IssuedIsAccepted`).
- The circuit's comment bounds the birth year by 2100; the constraints admit 1900 to 2099 exactly. They do not bound the
  birth month to 1..12, only to the reach of the comparator around the current month (`AgeCircuit.SatisfiableIff`).

## Model

| member | source | states |
|---|---|---|
| `JsonText.StringRoundTrip` | packages/api/internal/handlers/credential.go:328 | a quoted and escaped string, whatever text follows its closing quote, is read back character by character |
| `JsonText.ReadWrite` | packages/api/internal/handlers/credential.go:313-364 | reading inverts both writers on every document: a written value followed by any text that cannot continue a number gives the value and exactly that text |
| `JsonText.ReadAllWrite` | packages/core/src/vc/index.ts:212-228 | a whole written text reads as the one document it was written from, in either escaping and with or without spaces |
| `JsonText.EscapeForms` | packages/api/internal/handlers/credential.go:328 | a character is written as itself, in its two-character form, or as six characters, and exactly which; both languages alike but for the five |
| `JsonText.UnicodeEscapeIs` | packages/api/internal/handlers/verify.go:185-188 | an escape of four hexadecimal digits is the scalar they name, and half of a surrogate pair alone is U+FFFD |
| `JsonText.NothingMayFollow` | packages/api/internal/handlers/verify.go:185-188 | a written value with anything but white space after it is refused |
| `JsonText.NoTrailingComma` | packages/api/internal/handlers/verify.go:185-188 | a comma before a closing bracket or brace is refused |
| `JsonText.CommasAndColons` | packages/api/internal/handlers/verify.go:185-188 | and so is any other sign in place of a comma or colon |
| `JsonValue.ToValueToDoc` | packages/api/internal/handlers/credential.go:314-341 | sorting the keys of a decoded value into a document loses nothing: decoding the document gives the value |
| `Canonical.ReadGoText` | packages/api/internal/handlers/credential.go:313-364 | decoding inverts canonicalization for every JSON value |
| `Canonical.ReadTsText` | packages/core/src/vc/index.ts:212-228 | the same for the toolkit's text |
| `Canonical.GoTextSelfDelimiting` | packages/api/internal/handlers/credential.go:313-364 | two canonical texts, each with delimiter-led text after it, are equal if and only if the values and the rests are: no two values share a signed text |
| `Canonical.CredentialTextIff` | packages/api/internal/handlers/credential.go:303-311 | two credentials have the same signed text exactly when they agree on every key but "proof" |
| `GoCanonical.SortStrings` | packages/api/internal/handlers/credential.go:320 | the keys come out ascending in byte order, each as often as it went in |
| `GoCanonical.MapKeysSorted` | packages/api/internal/handlers/credential.go:316-320 | whatever order the map yields its keys in, the result is the one ascending listing of them |
| `GoCanonical.CanonicalizeJson` | packages/api/internal/handlers/credential.go:313-364 | the recursive run returns the canonical text, on every value |
| `GoCanonical.CanonicalizeObject` | packages/api/internal/handlers/credential.go:315-341 | the buffer loop over an object ends with its canonical text, independent of map iteration order |
| `GoCanonical.CanonicalizeArray` | packages/api/internal/handlers/credential.go:342-356 | the buffer loop over an array ends with its canonical text |
| `GoCanonical.CanonicalCredential` | packages/api/internal/handlers/credential.go:303-311 | the copying loop and the canonicalizer give the text of the credential without its proof |
| `TsCanonical.SortKeysIsListing` | packages/core/src/vc/index.ts:221 | sorting distinct property names by code unit gives their one ascending listing |
| `TsCanonical.CanonicalizeIsTsText` | packages/core/src/vc/index.ts:212-228 | on every JSON-like JavaScript value the result depends on the value alone, not on the order its properties were added |
| `Utf.LessIsRankLess` | packages/core/src/vc/index.ts:221 | byte order of UTF-8 is scalar order; code-unit order of UTF-16 is scalar order with U+E000..U+FFFF moved last |
| `Utf.OrdersAgreeIff` | packages/core/src/vc/index.ts:221 | the two languages compare a pair of keys alike exactly when their first difference does not straddle the surrogates |
| `KeyOrder.SortedUnique` | packages/api/internal/handlers/credential.go:320 | a set of keys has only one strictly ascending listing |
| `KeyOrder.SortedKeysAgreeIff` | packages/core/src/vc/index.ts:221 | both sorts list a set of keys alike exactly when no two of them straddle |
| `TextAgreement.WritePlain` | packages/core/src/vc/index.ts:212-228 | the gateway's text never holds one of the five HTML-sensitive characters; the toolkit's does exactly when some string does, and otherwise the two writers agree |
| `TextAgreement.TextsAgreeIff` | packages/core/src/vc/index.ts:208-228 | the gateway and the toolkit produce the same text for a value if and only if its strings are plain and its objects sort alike |
| `TextAgreement.PlainBmpIsShared` | packages/core/src/vc/index.ts:208-228 | plain strings and keys of the basic plane are enough for that |
| `TextAgreement.KeysOutsideBmpCanDisagree` | packages/core/src/vc/index.ts:208-228 | an object with two plain keys on which the two texts differ |
| `CredentialRows.ScanReadsBack` | packages/api/internal/handlers/credential_store.go:117-240 | a record stored as JSONB, its members reordered and printed with spaces, scans back unchanged, so its proof gets the same verdict over the same text |
| `CredentialRows.RevokeAlikeIff` | packages/api/internal/handlers/credential_store.go:188-207 | revoking a row and revoking the record in memory agree except when a reason arrives only on a later revocation |
| `AgeCircuit.LessThanForces` | packages/zkp/circuits/age_verification.circom:68-70 | the comparator's output and every one of its bits are forced by its inputs: 1 exactly when the field difference stays below 2^n |
| `AgeCircuit.AgeArithmetic` | packages/zkp/circuits/age_verification.circom:59-78 | with calendar public inputs the difference of age and minimum age is the integer one, with no wrap-around |
| `AgeCircuit.BirthYearForced` | packages/zkp/circuits/age_verification.circom:82-95 | every satisfying assignment, whatever its other inputs, has a birth year in 1900..2099, although 2100 does not fit the comparator's bits |
| `AgeCircuit.IsValidMeansOldEnough` | packages/zkp/circuits/age_verification.circom:56-80 | in every satisfying assignment with calendar public inputs isValid is 1 exactly when the completed years reach the age, else 0; with a birth month in 1..12 that is the age in whole months |
| `AgeCircuit.SignalsForced` | packages/zkp/circuits/age_verification.circom:54-95 | with calendar public inputs all signals of a satisfying assignment are determined by its inputs, whatever the private birth month |
| `AgeCircuit.SatisfiableIff` | packages/zkp/circuits/age_verification.circom:54-95 | calendar public inputs can be proved exactly when the hash matches, the birth year is in 1900..2099, the birth month is in reach of the comparator and at most 256 years are missing; the assignment is unique |
| `AgeCircuit.HonestHolderCanProve` | packages/zkp/circuits/age_verification.circom:54-95 | a holder born no later than the current year always has a proof, and its output is the truth |
| `AgeCircuit.HashIsOpened` | packages/zkp/circuits/age_verification.circom:47-54 | every satisfying assignment's birth date and secret hash to the public hash |
| `AgeCircuit.Deterministic` | packages/zkp/circuits/age_verification.circom:47-95 | two satisfying assignments with the same inputs are the same, whatever the inputs |
| `AgeCircuit.HashBinds` | packages/zkp/circuits/age_verification.circom:47-95 | with a binding hash the public inputs fix birth date, secret, every signal and the output |
| `AgeCircuit.UnissuedHashHasNoProof` | packages/zkp/circuits/age_verification.circom:47-54 | a public hash that is the hash of nothing cannot be proved |
| `RateLimiter.RateLimiter.constructor` | packages/api/internal/middleware/security.go:51-58 | a new limiter has no buckets and has never swept |
| `RateLimiter.RateLimiter.Allow` | packages/api/internal/middleware/security.go:71-109 | one call changes the whole state and answers as specified, for every limit, window, key and time |
| `RateLimiter.RateLimiter.Sweep` | packages/api/internal/middleware/security.go:80-87 | the deleting loop leaves exactly the buckets touched within the last window |
| `RateLimiter.InvHolds` | packages/api/internal/middleware/security.go:79-108 | after every run each bucket was touched no earlier than a window before its reset and within a window of the last sweep |
| `RateLimiter.AnswersLikeReference` | packages/api/internal/middleware/security.go:79-108 | every call is answered as a limiter that never deletes and sees only that key's own times would answer it |
| `RateLimiter.AdmissionBound` | packages/api/internal/middleware/security.go:89-108 | any k consecutive window lengths admit at most (k + 1) * limit - 1 requests of a key, in every run |
| `RateLimiter.AdmissionBoundIsReached` | packages/api/internal/middleware/security.go:89-108 | for every limit and every k a run reaches that bound in k window lengths (of two nanoseconds or more) |
| `RateLimiter.MapStaysSmall` | packages/api/internal/middleware/security.go:79-108 | after every call the map holds only keys called less than two windows ago |
| `Float64.SecondsIs` | packages/api/internal/middleware/security.go:126-127 | the whole seconds printed for a duration are its own, one more exactly when its missing nanoseconds are few enough for the magnitude |
| `RateLimiter.RetryAfterHonouredIff` | packages/api/internal/middleware/security.go:60-132 | a denied key that stays silent for the advertised time is admitted next, in every run, exactly when the window is whole seconds, under one, or carries when rounded; for every duration |
| `RateLimiter.RetryAfterHonouredBelow` | packages/api/internal/middleware/security.go:60-132 | for windows below 2^24 seconds: exactly when the window is whole seconds or under one |
| `RateLimiter.RetryAfterCanFallShort` | packages/api/internal/middleware/security.go:60-132 | with a window of 1.5 seconds the advertised second is too short |
| `Migrations.InvNext` | packages/api/internal/storage/migrations.go:87-147 | every statement of every migrator, failing or not, keeps the records a prefix, the schema equal to them, and at most one uncommitted record |
| `Migrations.OnlyCommitsWrite` | packages/api/internal/storage/migrations.go:123-147 | record and schema change are written together and by a commit alone, also one reported as failed; any other failure leaves nothing behind |
| `Migrations.RecordsArePrefix` | packages/api/internal/storage/migrations.go:87-147 | under any interleaving and any failures the records are a prefix of the list and each schema change is committed with its record exactly once |
| `Migrations.SuccessMeansAllApplied` | packages/api/internal/storage/migrations.go:98-110 | a migrator that returned without error left every migration applied |
| `Migrations.CommittedStays` | packages/api/internal/storage/migrations.go:123-147 | nothing committed is undone by anything that follows |
| `Migrations.RerunChangesNothing` | packages/api/internal/storage/migrations.go:99-105 | once all is applied no further run of any number of migrators changes records or schema |
| `Migrations.LoneMigratorFinishes` | packages/api/internal/storage/migrations.go:87-111 | from any reachable state a migrator no other's open insert blocks, whose statements succeed, finishes within four statements per migration and leaves everything applied |
| `Migrations.ShippedIsDistinct` | packages/api/internal/storage/migrations.go:19-69 | the shipped list has distinct versions, so the theorems apply to it |
| `Migrator.ApplyMigration` | packages/api/internal/storage/migrations.go:123-147 | with others running between its statements, it reports an error exactly when one of its statements failed or its insert was left waiting on another's, so not on a unique violation; otherwise the version is recorded |
| `Migrator.Migrate` | packages/api/internal/storage/migrations.go:87-111 | whatever the others do and whatever fails, what it does is a run of the transition system; nothing committed is lost; it succeeds exactly when all its statements did and no insert was left waiting, and then all is applied |
| `Base64.DecodeEncode` | packages/api/internal/blockchain/client.go:60 | keys, signatures and presentations survive base64 |
| `Base64.AlphabetRuns` | packages/api/internal/handlers/verify.go:245-251 | the digits are those of the two tables of RFC 4648 |
| `Base64.EncodeDecodeIff` | packages/api/internal/blockchain/client.go:60-100 | encoding gives a decodable text back exactly when it has no line break and its spare bits are zero |
| `Base64.KeyHasFourTexts` | packages/api/internal/handlers/did.go:215-221 | the texts without line breaks that decode to a 32-byte key are exactly four, all different, of which the encoder writes the first |
| `Base64.LineBreaksIgnored` | packages/api/internal/handlers/did.go:215-221 | line breaks anywhere in a text make no difference to what it decodes to |
| `SignedTexts.RandomIdHasShape` | packages/api/internal/handlers/verify.go:245-251 | identifiers and nonces hold no colon and have at least 22 characters |
| `SignedTexts.Layouts` | packages/api/internal/handlers/did.go:57-221 | each of the three registry texts written out on an example |
| `SignedTexts.AuthLayout` | packages/api/internal/handlers/verify.go:163 | likewise the authentication text |
| `SignedTexts.AuthTextInjective` | packages/api/internal/handlers/verify.go:163 | the authentication text determines challenge, nonce, DID and timestamp, although DIDs may hold colons |
| `SignedTexts.SignedTextsDisjoint` | packages/api/internal/handlers/did.go:57-221 | credential, authentication, registration, revocation and rotation texts never coincide, for all inputs |
| `SignedTexts.RegistryTextsInjective` | packages/api/internal/handlers/did.go:57-152 | on DIDs the toolkit accepts the registration and revocation texts determine their parts |
| `SignedTexts.UpdateTextInjective` | packages/api/internal/handlers/did.go:221 | likewise the rotation text, for any decodable key text |
| `SignedTexts.RegisterTextAmbiguousIff` | packages/api/internal/handlers/did.go:57-152 | two different DIDs share a registration or revocation text exactly when one continues the other with a colon and the start of its timestamp, the rest of which is the other's timestamp; a timestamp without a colon is never continued |
| `SignedTexts.UpdateTextAmbiguousIff` | packages/api/internal/handlers/did.go:221 | two different DIDs share a rotation text exactly when one continues the other with a colon and the other's key, and then with nothing or a colon and the start of its timestamp |
| `SignedTexts.SharesRegistryTextIff` | packages/api/internal/handlers/did.go:46-152 | an accepted DID has a registration and revocation text in common with another accepted one exactly when its suffix is under 100 bytes or a colon in it ends an accepted DID |
| `SignedTexts.SharesRotationTextIff` | packages/api/internal/handlers/did.go:185-221 | and a rotation text with decodable keys exactly when its suffix has at most 55 bytes or a key stands in it, between colons or last, after an accepted DID |
| `SignedTexts.GoDidsCanOverlap` | packages/api/internal/handlers/did.go:250-256 | two such DIDs, written out, that both pass the gateway's check |
| `SignedTexts.TsDidIsGoDidIff` | packages/core/src/identity/index.ts:183-185 | a DID the toolkit accepts is accepted by the gateway exactly up to a hundred characters after the prefix |
| `SignedTexts.Base58Is` | packages/core/src/identity/index.ts:183-185 | the letters of a toolkit DID are letters and digits without the four that look alike |
| `DidRegistry.MemoryDidStore.Update` | packages/api/internal/blockchain/store.go:59-68 | only an existing document is replaced, with a new update time |
| `DidRegistry.MemoryDidStore.Stats` | packages/api/internal/blockchain/store.go:70-84 | every document is counted exactly once, as active or deactivated |
| `DidRegistry.Client.RegisterDid` | packages/api/internal/blockchain/client.go:55-72 | a new active document with the key re-encoded and one creation and update time |
| `DidRegistry.Client.RevokeDid` | packages/api/internal/blockchain/client.go:78-85 | only the flag and the update time change |
| `DidRegistry.Client.UpdateDid` | packages/api/internal/blockchain/client.go:87-109 | key and, if given, context change, unless the DID is missing or deactivated |
| `DidRegistry.DidHandler.HandleRegister` | packages/api/internal/handlers/did.go:39-94 | new registry and answer are as specified, in every error case |
| `DidRegistry.DidHandler.HandleRevoke` | packages/api/internal/handlers/did.go:133-173 | likewise, with the panic on a key of the wrong size as an answer of its own |
| `DidRegistry.DidHandler.HandleUpdate` | packages/api/internal/handlers/did.go:175-248 | likewise |
| `DidRegistry.RegisteredIff` | packages/api/internal/handlers/did.go:39-94 | a registration is accepted exactly with a free DID of the right form and a signature of the registration text under the key it brings; the document is then active, with the default context, that key and one time, and no other changes |
| `DidRegistry.UpdatedIff` | packages/api/internal/handlers/did.go:175-248 | a rotation is accepted exactly for an active DID with a signature under its current key over the new one |
| `DidRegistry.UpdateChanges` | packages/api/internal/blockchain/client.go:87-109 | then the key changes, the context if one is given, and nothing else but the update time; no other DID changes |
| `DidRegistry.RevokedIff` | packages/api/internal/handlers/did.go:133-173 | a revocation is accepted exactly for a stored DID with a signature under its key; the flag is set, key, context and creation time stay |
| `DidRegistry.RegisterStatus` | packages/api/internal/handlers/did.go:46-90 | which refusal answers what: malformed, signature, taken |
| `DidRegistry.UpdateStatus` | packages/api/internal/handlers/did.go:189-226 | likewise: malformed or mismatched, unknown, revoked, signature |
| `DidRegistry.RegisteredTextIsStoredIff` | packages/api/internal/handlers/did.go:51-87 | after an accepted registration the stored key text is the submitted one exactly when an encoder could have written that |
| `DidRegistry.RotatedTextIsStoredIff` | packages/api/internal/handlers/did.go:215-240 | likewise after an accepted rotation, whose signature covers the submitted text |
| `StoreRaces.UndisturbedIsWhole` | packages/api/internal/blockchain/client.go:55-109 | an operation whose two store calls nobody comes between does what it does as one atomic step |
| `StoreRaces.RevocationSurvivesIff` | packages/api/internal/blockchain/client.go:78-109 | under any interleaving of store calls a revocation stays in force exactly when no document prepared before it, while the DID was active, is written after it |
| `StoreRaces.RegisteredAgainIff` | packages/api/internal/handlers/did.go:69-87 | a stored DID is registered over exactly by registrations that had found it free before |
| `StoreRaces.RotationUndoesRevocation` | packages/api/internal/blockchain/client.go:78-109 | a rotation and a revocation of one DID interleaved so that the DID is active again |
| `DidRuns.KeyChain` | packages/api/internal/handlers/did.go:39-248 | in every run a DID is stored exactly when its registration was accepted, and its key ends a chain of accepted rotations, each signed under the key before it, back to that registration |
| `DidRuns.StoredDataIsNeverInvalid` | packages/api/internal/handlers/did.go:146-214 | no run reaches the invalid-stored-key branches, those of authentication and credentials included, a failed registry write or the key-size panic |
| `DidRuns.DidsContinue` | packages/api/internal/blockchain/client.go:78-109 | no DID disappears, id and creation time never change, and after revocation key and context are frozen |
| `DidRuns.RegisteredOnce` | packages/api/internal/handlers/did.go:69-77 | a DID's registration is accepted at most once in a run |
| `DidRuns.RevocationIsPermanent` | packages/api/internal/handlers/did.go:164-172 | a revocation answered with success holds for the rest of the run |
| `DidRuns.DeactivatedIffRevoked` | packages/api/internal/handlers/did.go:39-248 | in every run a stored DID is deactivated exactly when some request revoking it was answered with success |
| `Presentations.DecodeEncode` | packages/api/internal/handlers/verify.go:179-190 | the gateway reads from the base64 JSON exactly the presentation the holder wrote, for every 64-bit timestamp |
| `Presentations.Layout` | packages/core/src/identity/index.ts:146-165 | the members a holder sends, in their order, and which others the gateway reads alike or refuses |
| `Presentations.TimestampIs` | packages/api/internal/handlers/verify.go:179-190 | a timestamp is read exactly when it is an integer of 64 bits |
| `Challenges.VerifyHandler.HandleCreate` | packages/api/internal/handlers/verify.go:62-100 | new store and answer are as specified |
| `Challenges.VerifyHandler.HandleVerify` | packages/api/internal/handlers/verify.go:102-170 | the challenge is consumed and the answer is the first failing check, or valid |
| `Challenges.CreatedIff` | packages/api/internal/handlers/verify.go:62-100 | a challenge is issued exactly to a service that names itself and is not contradicted by its header, with both random texts, for 300 seconds; a mismatch is forbidden, no name a bad request |
| `Challenges.AcceptedIff` | packages/api/internal/handlers/verify.go:102-170 | an answer is valid exactly when the presentation decodes, is for this stored and live challenge and its service, is at most 300 seconds old and 30 ahead, and is signed over its text under the key of a registered DID; an attempt that finds its challenge consumes it |
| `AuthRuns.ConsumedStaysGone` | packages/api/internal/handlers/verify.go:113-118 | any attempt with a presentation that finds its challenge removes it for the rest of the run |
| `AuthRuns.AnsweredAtMostOnce` | packages/api/internal/handlers/verify.go:113-118 | after such an attempt, valid or not, no later one on that challenge is valid |
| `AuthRuns.TwoValidAnswersDiffer` | packages/api/internal/handlers/verify.go:102-170 | each issued challenge yields at most one valid result in a run |
| `AuthRuns.ValidIsJustified` | packages/api/internal/handlers/verify.go:102-170 | a valid result comes within five minutes of issue, for the asking service, with a signature over that challenge's nonce by the DID's current key, made between five minutes before issue and thirty seconds past expiry |
| `Credentials.CredentialTypes` | packages/api/internal/handlers/credential.go:215-230 | the loop collects all names in order, or fails exactly when there is none or one is not a non-empty string |
| `Credentials.RecordFromPayload` | packages/api/internal/handlers/credential.go:141-201 | a record is built exactly when no check fails, else the first failing check is named |
| `Credentials.PayloadErrorIff` | packages/api/internal/handlers/credential.go:141-230 | a payload is accepted exactly when it is a credential: id, issuer as text or as object with an id, subject, types, issuance date, and any expiry after it |
| `Credentials.RecordSays` | packages/api/internal/handlers/credential.go:141-201 | each field of the record is what the payload says, not revoked, under the time of its acceptance |
| `Credentials.ProofVerdictIff` | packages/api/internal/handlers/credential.go:253-301 | the proof check passes exactly when the issuer is stored and active and its key verifies a signature, found in a proof of the right kind, over the canonical text of all the rest |
| `Credentials.IssuedIff` | packages/api/internal/handlers/credential.go:41-79 | Issue stores exactly a credential with a known subject that its issuer signed and whose id is new |
| `Credentials.RevokedIff` | packages/api/internal/handlers/credential.go:81-108 | revoking succeeds exactly on a stored credential; an unrevoked one gets the time and the reason given, and no other changes |
| `Credentials.VerifiedIff` | packages/api/internal/handlers/credential.go:110-139 | Verify says valid exactly of a stored, unrevoked, unexpired credential signed by its issuer as the registry now has it, and names the unknown and the revoked |
| `Credentials.MemoryCredentialStore.Create` | packages/api/internal/handlers/credential_store.go:50-59 | an id is never overwritten |
| `Credentials.MemoryCredentialStore.Revoke` | packages/api/internal/handlers/credential_store.go:85-99 | only the first revocation is recorded |
| `Credentials.CredentialHandler.VerifyCredentialProof` | packages/api/internal/handlers/credential.go:253-301 | the verdict is over the canonical text without proof, under the issuer's current key |
| `Credentials.CredentialHandler.HandleIssue` | packages/api/internal/handlers/credential.go:41-79 | new store and answer are as specified, in every error case |
| `Credentials.CredentialHandler.HandleRevoke` | packages/api/internal/handlers/credential.go:81-108 | likewise |
| `Credentials.CredentialHandler.HandleVerify` | packages/api/internal/handlers/credential.go:110-139 | status first, then proof |
| `CredentialRuns.RecordsContinue` | packages/api/internal/handlers/credential_store.go:50-99 | in every run no record disappears and each changes at most once, from unrevoked to revoked, by gaining time and reason of revocation together |
| `CredentialRuns.RecordsAreFaithful` | packages/api/internal/handlers/credential.go:141-201 | every stored record equals what is re-extracted from its own payload, and its proof verified against the registry of the moment it was accepted |
| `CredentialRuns.ExpiryIsSound` | packages/api/internal/handlers/credential.go:176-185 | a stored expiry parses and lies after the issuance, so the invalid-expiration answer is never given |
| `CredentialRuns.IssuedIsVouchedFor` | packages/api/internal/handlers/credential.go:41-79 | every credential accepted in a run carries a signature over all the rest of it under the key that ends its issuer's chain at that moment |
| `CredentialRuns.ValidIsVouchedFor` | packages/api/internal/handlers/credential.go:110-139 | Verify says valid in a run exactly of stored, unrevoked, unexpired credentials that carry such a signature now |
| `CredentialRuns.InvalidForGood` | packages/api/internal/handlers/credential.go:110-139 | once Verify answers revoked, expired or issuer deactivated, no later Verify of that id is valid, whatever requests come between |
| `CredentialRuns.RevocationTakesEffect` | packages/api/internal/handlers/credential.go:81-108 | after a revocation answered with success every later Verify says revoked |
| `CredentialRuns.DeactivationTakesEffect` | packages/api/internal/handlers/credential.go:258-260 | after an issuer's DID is revoked nothing it issued verifies again |
| `CredentialRuns.IssuedOnce` | packages/api/internal/handlers/credential.go:66-73 | a credential id is issued at most once in a run |
| `Server.Server.constructor` | packages/api/internal/server/router.go:23-41 | the handlers share one chain client over empty stores |
| `Server.Server.Handle` | packages/api/internal/server/router.go:81-102 | the wired handlers carry out exactly one step of the state machine per request |
| `Holder.RequestsAreDated` | packages/sdk/src/index.ts:193-258 | the timestamp of each request is the clock reading in whole milliseconds |
| `Holder.RegistrationAcceptedIff` | packages/sdk/src/index.ts:246-258 | a fresh identity's registration is accepted exactly when its DID has an allowed length and is free, and the registry then holds its key |
| `Holder.RotationAcceptedIff` | packages/sdk/src/index.ts:193-206 | the rotation a client in step sends is accepted exactly while its DID is active, and the registry then holds the next key and any context given |
| `Holder.UddiClient.CreateIdentity` | packages/sdk/src/index.ts:93-110 | it returns exactly when the identity was saved and the registration accepted and answered, and then pair, storage and registry match; otherwise the identity is set all the same |
| `Holder.UddiClient.RotateIdentityKey` | packages/sdk/src/index.ts:190-220 | the pair changes only on a success answer; client, storage and registry stay in step exactly unless an acceptance of a different key was lost on the way back or a different pair could not be saved |
| `Holder.UddiClient.Authenticate` | packages/sdk/src/index.ts:142-150 | where the registry holds the client's key, VerifyAuth accepts the returned presentation for every live challenge with that id and nonce, from the same service, within the window |
| `Holder.UddiClient.RevokeIdentity` | packages/sdk/src/index.ts:225-242 | for a client in step the registry has the DID deactivated exactly when the request arrives, and the identity is forgotten exactly when the answer arrives too and the storage deletes it |
| `Holder.HonestPresentationAccepted` | packages/core/src/identity/index.ts:146-165 | the presentation of a client in step is accepted whenever the challenge is live, asked for by the same service, and the timestamp is in the window |
| `HolderRuns.CreatedIsInStepIff` | packages/sdk/src/index.ts:93-110 | in any run createIdentity puts the client in step exactly when its DID is allowed and free |
| `HolderRuns.RotationAcceptedUnlessRevoked` | packages/sdk/src/index.ts:190-206 | in any run a client in step has its rotation accepted exactly when nobody has revoked its DID |
| `HolderRuns.NewClientCanRotate` | packages/sdk/src/index.ts:93-206 | so a rotation right after the registration is accepted |
| `HolderRuns.OtherKeepsInStepIff` | packages/api/internal/handlers/did.go:175-248 | a request of anyone else takes the client out of step exactly when it is a rotation of its active DID to a different key, signed under the client's own key |
| `HolderRuns.ClientStaysInStep` | packages/sdk/src/index.ts:190-220 | through any number of answered rotations and any other traffic, rotation requests for the DID included unless their signature verifies under the key the client then holds, the DID is unchanged and the pair is the registry's |
| `HolderRuns.ClientCanAlwaysSignIn` | packages/sdk/src/index.ts:142-150 | after all that it can still answer any live challenge |
| `Issuance.SignedTextAgrees` | packages/core/src/vc/index.ts:178-192 | what the issuer signs is exactly the text the gateway will verify |
| `Issuance.TransportKeepsCredential` | packages/core/src/vc/index.ts:52-68 | the credential sent as JSON text decodes to the payload reasoned about |
| `Issuance.ClaimsArrive` | packages/core/src/vc/index.ts:60-63 | the gateway finds the subject's DID and each claim under its name with its value, and nothing else in the subject |
| `Issuance.EnvelopeArrives` | packages/core/src/vc/index.ts:52-64 | and around it exactly the members issueCredential wrote |
| `Issuance.ProofArrives` | packages/core/src/vc/index.ts:178-192 | with a proof naming the issuer's key and the time of signing |
| `Issuance.ExpiryIs` | packages/core/src/vc/index.ts:48-50 | the expiry is the day count after the clock reading, to the millisecond |
| `Issuance.PayloadAcceptedIff` | packages/core/src/vc/index.ts:45-50 | the gateway finds the payload well formed exactly when it has no expiry or one after its issuance, and names that fault otherwise |
| `Issuance.IssuedIsAccepted` | packages/core/src/vc/index.ts:38-69 | a credential whose id is new, subject registered and issuer active with the signing key is stored exactly when it has no expiry or one after its issuance, as no day count or one of a millisecond or more gives |
| `Issuance.StaysValid` | packages/core/src/vc/index.ts:38-69 | in any run that accepted it Verify answers valid while it is unrevoked, unexpired and the issuer keeps that key |
| `LocalVerification.VerifiedIff` | packages/core/src/vc/index.ts:113-141 | on any members, key and time the toolkit says valid exactly when the proof holds a signature, under that key, of all other members, with id, issuer and subject present and no expiry past |
| `LocalVerification.LocallyValidIff` | packages/core/src/vc/index.ts:113-141 | the toolkit accepts what it issued up to and including the expiry instant |
| `LocalVerification.GatewayGoodIff` | packages/api/internal/handlers/credential.go:232-246 | the status check of the gateway passes an unrevoked record of it strictly before that instant |
| `LocalVerification.GatewayValidIff` | packages/api/internal/handlers/credential.go:110-139 | so does its whole Verify, proof included, while the issuer is active with the signing key |
| `LocalVerification.VerdictsDifferIff` | packages/core/src/vc/index.ts:113-141 | on one issued credential, unrevoked and with its issuer active, the verdicts of Verify and of verifyCredential differ exactly within the millisecond of its expiry, and whatever the gateway accepts the toolkit accepts |

## Left out

- HTTP routing, headers, body limits, CORS, logging, metrics, API keys and configuration: plumbing with no deep property. Request bodies are modelled as already decoded.
- Interleavings inside one request: locks are held per store call, and the run theorems take each request as one atomic step with one clock reading. Only the two store calls of the chain client's operations are taken apart, in `StoreRaces`; reading and deleting a challenge, and the checks before a credential is stored, are not.
- Redis and SQL drivers: of PostgreSQL only the transaction rules and that JSONB keeps the value are used. JSONB refuses U+0000 in strings, and then nothing is stored.
- Ed25519, SHA-256, Poseidon, base58 and randomness: functions with the laws named above; fresh identifiers are a hypothesis of the run theorems.
- Float64 printing: one shared function that reads back; negative zero, which Go prints as -0 and JavaScript as 0, is outside it.
- Float64 arithmetic: the day count of a credential is any real number, without rounding, NaN or dates outside JavaScript's range.
- RFC 3339 parsing: a partial function with its format law, stated for every instant although Go's layout only covers years up to 9999.
- A storage that fails halfway, or that returns something other than what was saved: save and delete happen or throw, and `loadIdentity` is not modelled.
- The lenient base64 of JavaScript: the toolkit's verifySignature skips characters that are not base64, where the model decodes as the gateway does.
- An expirationDate or a proofValue that is not a text: JavaScript would read a number as a date and an array as bytes; the model takes the one for no expiry and the other for no signature.
- Lone surrogates in JavaScript strings and `undefined` members in claims: neither is JSON the two sides can exchange.
- Invalid UTF-8 in a URL path: paths and bodies are sequences of scalar values.
- Nesting depth limits of encoding/json and saturation of Go durations past 292 years.
- `LocalVerification.VerifyCredential` gives a verdict of invalid where the toolkit would throw for want of a proof object.
- ListByDID, Resolve, VerifyClaim, the proof adapter and the citizenship circuit: lookups and single tests that would only add easy members.
- The primality of the BN254 modulus: the circuit theorems hold for every field modulus, and that this one is prime is taken from its definition.
