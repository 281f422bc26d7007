# Sealed: a verified model

Sealed is an offline tool for encrypted letters. This project models its three hard parts in Dafny and proves
properties of the model for all inputs, all runs and all interleavings:

* the **letter codec**: `seal` and `open`, the inner record, power-of-two padding, key derivation and signatures;
* the **canonical text codecs**: hexadecimal, public profiles, grouped fingerprints and unlock keys, over a
  faithful model of Rust's `str::lines`;
* the **file-backed store** of one identity and its pinned contacts: as single operations with injected faults, as
  sequential runs of the whole program, and as interleaved system calls of any number of processes.

`dafny verify dfyconfig.toml` checks the whole project.

## How it is modelled

A byte is an integer below 256 and a byte string a sequence of them. Rust arrays of 24, 32 and 64 bytes are subset
types. `usize` is 64 bits wide and checked additions are written out. Errors are an enumeration with one constructor
per message of the library (`results.dfy`).

The primitives (X25519, Ed25519, XChaCha20-Poly1305, HKDF-SHA-256, SHA-256) are the functions of a record
`Suite`, about which only three laws are used: both ends of a key agreement compute the same secret (section 6.1 of
RFC 7748), an honest signature verifies under the honestly derived key (section 5.1 of RFC 8032), and AEAD decryption
accepts exactly the encryptions, which are 16 bytes longer than the message (section 2.8 of RFC 8439). `LawfulSuite` is
the type of all suites that obey the laws; its witness shows that the laws are consistent. Randomness is an argument
everywhere.

| file | content |
|---|---|
| `results.dfy`, `bytes.dfy` | results and errors; byte strings, big-endian numbers, the byte-lexicographic order |
| `primitives.dfy` | the primitives and their laws |
| `format.dfy`, `text.dfy` | hexadecimal, the binary reader; UTF-8 and `lines()` |
| `protocol.dfy` | constants, domain strings, padding buckets |
| `identity.dfy` | profiles, fingerprints, unlock keys, the identity at rest |
| `crypto.dfy`, `message.dfy` | derivations, signed bytes; the record, `seal`, `open` |
| `contact.dfy`, `store.dfy` | aliases and file names; the store as functions on a file-system value |
| `disk.dfy` | the store as methods that change a disk step by step |
| `runs.dfy` | sequential runs of the program |
| `steps.dfy`, `pins.dfy`, `initrace.dfy` | interleaved `trust`, look-ups and exports; interleaved `initialize` |
| `cli.dfy` | the option parsers |

Code that changes things step by step (hex loops, the reader, the bucket loop, growing buffers, line iteration, the
store, option parsing) is a method, proved equal to a specification function; the theorems are lemmas about these
functions.

## Where the code and its documents part

* The protocol document says that appending or truncating bytes makes the outer length invalid. That holds strictly
  between half and double the length (`NoOtherLengthNearby`); beyond it `AppendedLengthValid` and
  `TruncatedLengthValid` say exactly which lengths stay valid, and `AppendingCanKeepTheLengthValid` gives one.
* `initialize` is not atomic. `RetryAfterFailedInitialize` says exactly when a failed one blocks every later one: when
  the write of `identity.pub` breaks off, which nothing rolls back, or when the last write fails and the rollback does
  not undo all of it. `BrokenInitializeBlocksForever` reaches both states from a store without an
  identity, and shows that no interleaving leads out of them.
* A `trust` whose write breaks off inside the file blocks its alias for good, and with it every listing of the contacts
  and every `open` (`BrokenPinBlocksTheStore`). Nothing less does: `AliasLostExactly`, `ListingAfterFailedTrust` and
  `OpenAfterFailedTrust` give the exact condition.
* A `trust` that fails after its last byte answers with an error and has pinned all the same (`FailedTrustExactly`).

## Model

| member | source | states |
|---|---|---|
| ByteStrings.LexTotal | src/crypto.rs:31-35 | of two key materials one always comes first |
| ByteStrings.LexAntisymmetric | src/crypto.rs:31-35 | only equal materials come first both ways |
| ByteStrings.LexExact | src/crypto.rs:31-35 | the order is byte-lexicographic: a prefix comes first, otherwise the first difference decides |
| ByteStrings.U32RoundTrip | src/crypto.rs:94-94 | the big-endian length field reads back |
| ByteStrings.U32Unique | src/format.rs:50-52 | every four bytes are the encoding of the number they read as |
| ByteStrings.U32BigEndian | src/format.rs:50-52 | the most significant byte comes first: numbers are ordered as their bytes are |
| Primitives.ToyLawful | src/crypto.rs:8-12 | the assumed laws of the primitives do not contradict each other |
| Format.HexDigits | src/format.rs:3-11 | encoded text is lower-case digits only, without dashes or line breaks, and each pair reads back |
| Format.HexRoundTrip | src/format.rs:3-25 | decoding inverts encoding for every byte string |
| Format.UnhexExact | src/format.rs:13-34 | a text decodes to b exactly when its lower case is the encoding of b and b has the length |
| Format.HexAlphabet | src/format.rs:3-11 | each half of a byte is written as its character of the alphabet |
| Format.HexInjective | src/format.rs:3-11 | different byte strings have different texts |
| Format.HexEncode | src/format.rs:3-11 | the loop writes the specified text |
| Format.HexDecode | src/format.rs:13-25 | the loop that fills the array yields the specified value or error |
| Format.Reader.Take | src/format.rs:60-71 | success exactly within bounds; returns the next bytes and moves past them; a failed read moves nothing and is malformed beyond `usize`, truncated otherwise |
| Format.Reader.Byte | src/format.rs:46-48 | the next byte, exactly when there is one; a failed read moves nothing and says which bound it broke |
| Format.Reader.U32 | src/format.rs:50-52 | the next four bytes as a big-endian number, exactly when there are four; a failed read moves nothing and says which bound it broke |
| Text.AsciiIsUtf8 | src/identity.rs:51-52 | every ASCII text passes the UTF-8 check |
| Text.ValidUtf8Exact | src/identity.rs:51-52 | the check accepts exactly the UTF-8 encodings of sequences of Unicode scalar values |
| Text.LinesCons | src/identity.rs:53-53 | a line in front of a text is the first of its lines, with LF or CRLF, or as the unterminated last |
| Text.FirstLine | src/identity.rs:53-53 | every text is its first line, a terminator and a rest with the remaining lines |
| Text.LineIterator.Next | src/identity.rs:53-60 | each call yields the next line and leaves the others |
| Protocol.PowersAreSparse | src/protocol.rs:59-61 | between a power of two and its double there is no other |
| Protocol.PowersExact | src/protocol.rs:59-61 | a power of two is two to some exponent |
| Protocol.PaddedLenExact | src/protocol.rs:45-57 | a bucket exists exactly up to 1 MiB, and is the least valid length that fits |
| Protocol.BucketNumbers | src/protocol.rs:17-61 | in numbers: the one power of two from 512 up that holds 270 bytes and the body and is 512 or less than twice as long as needed, for bodies up to 1048576 bytes |
| Protocol.PaddedLenMonotone | src/protocol.rs:45-57 | longer bodies never get smaller buckets |
| Protocol.BucketsAreTheValidLengths | src/protocol.rs:45-61 | a length is valid exactly when it is the bucket of some body |
| Protocol.NoOtherLengthNearby | src/protocol.rs:59-61 | strictly between half and double a valid length no other length is valid |
| Protocol.AppendedLengthValid | src/protocol.rs:59-61 | exactly which longer lengths are valid |
| Protocol.TruncatedLengthValid | src/protocol.rs:59-61 | exactly which shorter lengths are valid |
| Protocol.PaddedBlobLen | src/protocol.rs:45-57 | the loop terminates, computes the least bucket, and none of its overflow and bound exits refuses an admissible body |
| Identity.WellFormedExact | src/identity.rs:26-35 | well-formed means version 1 and a fingerprint that hashes domain, version and both keys |
| Identity.FingerprintInputInjective | src/identity.rs:140-152 | the hashed string determines version and keys |
| Identity.SpellingPasses | src/identity.rs:47-66 | every spelling of a well-formed profile, in any digit case and with CRLF or a missing last line end, passes all checks before the canonical comparison |
| Identity.PassingIsSpelling | src/identity.rs:47-66 | nothing else passes them |
| Identity.ParseExact | src/identity.rs:37-73 | the parser accepts exactly the encodings of well-formed profiles |
| Identity.ParseRefusals | src/identity.rs:47-73 | which inputs the guards of the parser refuse, each with its own answer, and that only spellings reach the canonical comparison |
| Identity.ProperPrefixRejected | src/identity.rs:37-73 | no proper prefix of an encoding parses |
| Identity.EncodeInjective | src/identity.rs:37-45 | different profiles have different texts |
| Identity.EncodedLines | src/identity.rs:37-45 | the text is the four lines of prefix, keys and fingerprint, each ended by a line feed, with no carriage return |
| Identity.EncodeProfile | src/identity.rs:37-45 | the text composed of encoded fields is the specified one |
| Identity.ParseProfile | src/identity.rs:47-73 | the line-by-line parser agrees with the specification and returns only well-formed canonical profiles |
| Identity.CanonicalKeyMaterial | src/identity.rs:75-80 | the filled buffer is both keys in order |
| Identity.KeyMaterialInjective | src/identity.rs:75-80 | key material determines both keys |
| Identity.FormattedFingerprintExact | src/identity.rs:154-166 | 79 characters, dashes exactly at positions 4 modulo 5, upper-case digits elsewhere, and removing the dashes and decoding recovers the fingerprint |
| Identity.FormattedFingerprintInjective | src/identity.rs:154-166 | different fingerprints look different |
| Identity.FormatFingerprint | src/identity.rs:154-166 | the chunk loop writes the grouped text |
| Identity.UnlockKeyExact | src/identity.rs:168-193 | the unlock-key parser accepts exactly the encodings |
| Identity.ParseUnlockKeyRefusals | src/identity.rs:172-193 | which inputs the guards of the unlock-key parser refuse, each with its own answer |
| Identity.UnlockKeyLines | src/identity.rs:168-170 | the text is two lines, prefix and digits, each ended by a line feed |
| Identity.ParseUnlockKey | src/identity.rs:172-193 | the line-by-line parser agrees with the specification |
| Identity.IdentityAtRestExact | src/identity.rs:195-253 | decryption yields some secrets exactly on 105 bytes that are a nonce and the encryption, under that nonce and the unlock key, of version 1 and the two secrets |
| Identity.IdentityAtRestRoundTrip | src/identity.rs:195-253 | the file has the one admitted length of 105 bytes and decrypts to the same secrets |
| Identity.EncryptPrivateIdentity | src/identity.rs:195-219 | the filled buffers are nonce and ciphertext of version and secrets |
| Crypto.DeriveContactRoot | src/crypto.rs:14-41 | the appended buffer and the call of HKDF give the root that ContactRootExact describes |
| Crypto.RejectAllZeroExact | src/crypto.rs:160-166 | the check refuses the zero string and nothing else |
| Crypto.ContactRootExact | src/crypto.rs:14-41 | the root in terms of the primitives: refused exactly for a foreign profile or an all-zero secret, otherwise HKDF of the agreed secret and both key materials, the lesser first |
| Crypto.MessageKeysExact | src/crypto.rs:47-76 | the two message keys in terms of the primitives: refused exactly for an all-zero secret, otherwise HKDF of the agreed secret and both public keys |
| Crypto.DeriveMessageKeyFromShared | src/crypto.rs:140-150 | the info buffer is domain, ephemeral key, recipient key |
| Crypto.DeriveMessageKeySender | src/crypto.rs:47-60 | agreement, all-zero check and derivation compose to the specified sender key |
| Crypto.DeriveMessageKeyRecipient | src/crypto.rs:62-76 | the same for the recipient |
| Crypto.ContactRootsAgree | src/crypto.rs:14-41 | both parties derive the same root or fail alike |
| Crypto.EndpointsUnordered | src/crypto.rs:29-39 | the info strings of two pairs are equal exactly when the unordered pairs of endpoints have the same keys |
| Crypto.DerivationsAreSeparated | src/crypto.rs:36-45 | root, steganography and message derivations never feed HKDF the same triple |
| Crypto.ContactInputsExact | src/crypto.rs:29-45 | the inputs of the root determine agreed secret and endpoints, those of the steganography key the root |
| Crypto.MessageInputInjective | src/crypto.rs:140-150 | message keys with different inputs have different HKDF triples |
| Crypto.MessageKeysAgree | src/crypto.rs:47-76 | sender and recipient derive the same key, and the all-zero check refuses both or neither |
| Crypto.SignatureInput | src/crypto.rs:78-97 | the appended buffer is the domain and the signed fields |
| Crypto.SignedFieldsLayout | src/crypto.rs:86-96 | every signed field sits at its fixed offset |
| Crypto.SignatureInputInjective | src/crypto.rs:78-97 | signed bytes determine both sender keys, recipient, message ID and body |
| Crypto.SignaturesExact | src/crypto.rs:99-130 | signing and verifying in terms of the primitives: what is signed, and what must decode and verify, with no other way to succeed |
| Crypto.SignedVerifies | src/crypto.rs:99-130 | what an identity signs verifies under its profile |
| Crypto.Sign | src/crypto.rs:99-114 | signing runs over the appended buffer |
| Crypto.Verify | src/crypto.rs:116-130 | verification runs over the same buffer |
| Crypto.OuterAad | src/crypto.rs:132-138 | the associated data is domain, ephemeral key, nonce |
| Crypto.OuterAadInjective | src/crypto.rs:132-138 | equal associated data mean equal ephemeral key and nonce |
| Messages.ParseRecord | src/message.rs:218-249 | past the length guard only version, suite and body length can be refused |
| Messages.RecordParses | src/message.rs:180-249 | a serialized record parses to its message, whatever the padding |
| Messages.ParseRecordExact | src/message.rs:180-249 | a string parses to m exactly when it is the record of the well-formed m followed by padding |
| Messages.RecordUnique | src/message.rs:204-249 | a record determines message and padding |
| Messages.SignedBytesAreTheRecordHeader | src/crypto.rs:78-97 | the verified string is the domain and exactly the first 134 + body bytes of the received record |
| Messages.ParseInternal | src/message.rs:218-249 | the reader-driven parser agrees; past the guard no read fails |
| Messages.SerializeInternal | src/message.rs:180-216 | the grown buffer is the record |
| Messages.Seal | src/message.rs:41-100 | the step-by-step code equals one formula; no subtraction underflows, both padding errors are dead, and the length is the bucket of the body |
| Messages.OpenLetter | src/message.rs:102-178 | the step-by-step code, through the reader-driven parser, answers as specified |
| Messages.CarriedOpens | src/message.rs:102-178 | a letter that carries a validly signed message for this recipient opens to it |
| Messages.OpenedCarries | src/message.rs:102-178 | nothing else opens: from the bytes of an opened letter come a record, an agreed secret that is not zero, a key that decodes and a signature that verifies |
| Messages.OpenExact | src/message.rs:102-178 | `open` answers a letter exactly when the bytes are, in terms of the primitives, the encryption of a record for this recipient with a signature that verifies over its first 134 bytes and body; all others get one and the same error |
| Messages.ValidlySignedExact | src/message.rs:145-152 | the signature check of `open` is exactly the strict verification over domain and received record |
| Messages.ClassifyExact | src/message.rs:154-170 | pinned exactly when a contact is the sender, unknown exactly when no contact has either of its keys |
| Messages.OpenInjective | src/message.rs:102-178 | for fixed ephemeral key and nonce, letter and content including padding determine each other |
| Messages.SealOpenRoundTrip | src/message.rs:41-178 | every sealed letter opens for its recipient to the same body, message ID and sender |
| Messages.SealSucceedsExactly | src/message.rs:41-100 | sealing succeeds exactly for admissible bodies, matching keys and an agreed secret that is not all zero, and the recipient agrees on that secret |
| Messages.SealedBlobExact | src/message.rs:41-100 | the letter in terms of the primitives: public key of the drawn secret, drawn nonce, and the encrypted record with drawn message ID, honest signature and drawn padding |
| Messages.ResizedLetterRefused | src/message.rs:108-110 | a letter resized to strictly between half and double does not open |
| Messages.AppendingCanKeepTheLengthValid | src/protocol.rs:59-61 | the length rule alone does not refuse every appended letter |
| Contacts.ValidateAliasExact | src/contact.rs:9-15 | one to 64 letters, digits, dashes and underscores, so neither dots nor separators |
| Contacts.FileNameSplits | src/storage.rs:144-158 | stem and extension are what stands around the last dot, exactly when something stands in front of it |
| Contacts.AliasNameBijection | src/storage.rs:125-158 | a file name is that of a valid alias exactly when it has the extension and the alias as stem |
| Contacts.ContactFileNameInjective | src/storage.rs:113-113 | different aliases have different files |
| Contacts.FileNameOrderIsNotAliasOrder | src/storage.rs:150-150 | the listing order is that of file names, not of aliases |
| Store.ExportExact | src/storage.rs:84-87 | the exported profile is exactly the one whose text is in place |
| Store.ReadExact | src/storage.rs:192-207 | a read succeeds exactly on a regular file within the limit, and says when a file is too large or missing |
| Store.HeldIdentityLoads | src/storage.rs:71-102 | the three files that init writes load to the drawn secrets within the read limits |
| Store.LoadedIdentityIsHeld | src/storage.rs:89-102 | loading succeeds on nothing but three such files |
| Store.LoadIdentityAnswers | src/storage.rs:89-102 | a key that does not decrypt, and secrets that do not belong to the profile, each have their own answer |
| Store.InitializeEffects | src/storage.rs:48-82 | whatever fails, init changes no existing file, creates none but its three and no directory but its three |
| Store.InitializeRefused | src/storage.rs:48-61 | a refused init has no effect at all, and says which of the three paths is in the way |
| Store.InitializeLeftovers | src/storage.rs:48-82 | exactly which of the three files an init leaves behind, and with what in them, for every combination of faults; nothing is left exactly when it did not come to its writes or could not open the first |
| Store.InitializeThenLoad | src/storage.rs:48-102 | a successful init leaves an identity that loads |
| Store.InitializeSucceedsExactly | src/storage.rs:48-82 | init succeeds exactly when the unlock path is outside, no file is in the way, the directories are there or can be made, and nothing fails |
| Store.RetryAfterFailedInitialize | src/storage.rs:48-82 | after any failed init, a second one that would have worked in its place still works exactly when the first neither stranded an identity file (profile write broken, or last write failed beyond rollback) nor took its unlock path |
| Store.InitializeIsNotAtomic | src/storage.rs:75-80 | the contents that a broken last write leaves behind a working rollback, and that every later init is refused |
| Store.TrustPins | src/storage.rs:104-136 | after a successful trust the contact reads back as the profile of the source |
| Store.TrustNewSucceedsExactly | src/storage.rs:104-123 | exactly when a new alias gets pinned |
| Store.TrustAnswersForPin | src/storage.rs:114-120 | a pinned alias is confirmed by its own profile, refused for every other, and nothing changes |
| Store.TrustLeavesOthers | src/storage.rs:104-136 | a trust of one alias, successful or not, changes no other look-up |
| Store.FailedTrustExactly | src/storage.rs:104-136 | after a trust that failed in its write: trying again works exactly unless the write broke off inside the file, and the alias is pinned in spite of the error exactly when the failure came after the last byte |
| Store.ListingExists | src/storage.rs:143-148 | every directory of every file system has an enumeration, so the statements about listings are not empty |
| Store.OrderedUnique | src/storage.rs:150-150 | sorting leaves one possible order |
| Store.AllContactsOrderFree | src/storage.rs:138-163 | the listing is the same for every order of the directory |
| Store.LoadContactIsContact | src/storage.rs:125-161 | a directory entry and a look-up by alias read the same contact |
| Store.AllContactsExact | src/storage.rs:125-163 | a successful listing has distinct aliases in file-name order and exactly the contacts that look-ups find |
| Store.AllContactsSucceedsExactly | src/storage.rs:138-163 | the listing succeeds exactly when every entry with the extension is a contact |
| Store.ListingAfterFailedTrust | src/storage.rs:138-190 | after a trust that failed in its write the listing works exactly when it did before and the write did not break off inside the file |
| Disks.Disk.CreatePrivateDirectory | src/storage.rs:232-241 | the step agrees with its specification |
| Disks.Disk.WriteNewPrivate | src/storage.rs:176-190 | exclusive creation and chunked writes with a fault leave exactly the specified file |
| Disks.Disk.ConsumeBlob | src/storage.rs:170-174 | removes exactly the given regular file, and answers anything else and a failing removal with the specified error |
| Disks.Disk.Initialize | src/storage.rs:48-82 | the steps with rollback agree with the specification; success leaves the three files |
| Disks.Disk.TrustProfile | src/storage.rs:104-123 | the steps agree with the specification |
| Disks.Disk.LoadIdentity | src/storage.rs:89-102 | the steps agree with the specification |
| Disks.Disk.AllContacts | src/storage.rs:138-163 | collecting, sorting and reading agree with the specification |
| Runs.CommandEffects | src/cli.rs:638-764 | no command changes an existing file; one disappears exactly when an open succeeds on it, prints it, may and can remove it; new files appear only where the command was told to write |
| Runs.SealWritesExactly | src/cli.rs:687-724 | seal writes the sealed letter and nothing else, exactly when it seals and the output is free |
| Runs.ExportWritesExactly | src/storage.rs:84-87 | export writes the text of the own profile, exactly when there is one and the destination is free |
| Runs.ConsumedIsLetterSized | src/cli.rs:759-762 | only a file of valid letter length is consumed |
| Runs.RunKeepsFile | src/cli.rs:43-55 | through every run, every file that is not letter-sized keeps its content |
| Runs.PinSurvivesRuns | src/storage.rs:104-136 | through every run a pinned alias keeps its profile |
| Runs.TrustSurvivesRuns | src/storage.rs:104-136 | every run that begins with a successful trust keeps the profile of its source pinned |
| Runs.RepinningNeverReplaces | src/storage.rs:114-120 | after every run trust confirms the old profile and no other |
| Runs.BrokenPinBlocksTheStore | src/storage.rs:138-190 | after a trust whose write broke off inside the file, no run makes that alias, the listing or any open work again; the next two rows and Store.ListingAfterFailedTrust say that nothing less does this |
| Runs.AliasLostExactly | src/storage.rs:104-190 | after a trust that failed in its write, the alias can never be looked up or trusted again, in any run, exactly when the write broke off inside the file |
| Runs.OpenAfterFailedTrust | src/cli.rs:726-764 | after such a trust the letters open that opened before, exactly unless the write broke off inside the file; then none does |
| Runs.IdentitySurvivesRuns | src/storage.rs:89-102 | through every run a loadable identity stays loadable to the same secrets |
| Runs.HeldIdentitySurvivesRuns | src/storage.rs:48-102 | and every later init is refused without effect |
| Runs.InitSurvivesRuns | src/storage.rs:48-102 | every run that begins with a successful init leaves its identity loadable to the drawn secrets |
| Runs.VerdictExact | src/message.rs:154-170 | pinned exactly when a stored contact has both sender keys, mismatch when none does and one has one of them, unknown exactly when none has either; the alias is the first such contact in file-name order |
| Runs.LetterBetweenStores | src/cli.rs:687-764 | the file that seal writes in one store, received in the other after any run there, opens with its body, its message ID and a justified pin |
| WriteSteps.WriteStepKeeps | src/storage.rs:176-190 | one system call of a write moves its file on to the next phase, with progress, and touches no other |
| Pins.RunKeepsInv | src/storage.rs:104-206 | the invariant of files and calls holds through every interleaving |
| Pins.PinsNeverDisagree | src/storage.rs:104-136 | in every interleaving all successful calls about one path carry the same profile, and it is the one each trust was asked to pin |
| Pins.TrustAnswersItsProfile | src/storage.rs:104-123 | in every interleaving a trust that is confirmed has pinned the profile it was given, and no other |
| Pins.ReadersSeeTheWinner | src/storage.rs:176-206 | whatever a file parses to at any moment is what every successful call answers, before and after |
| Pins.AnswersAreTheCreators | src/storage.rs:104-206 | in every interleaving every successful answer is what a trust was asked for, and what was there from the start or else the profile of the one call that created the file, even if that call failed or died |
| Pins.ReadersSeeTheCreator | src/storage.rs:125-206 | at every moment, also after crashes and power loss, a contact is absent, an error, or exactly the profile of the call that created its file |
| Pins.WinnerIsDurable | src/storage.rs:176-190 | once the creating call returned Ok, the contact looks up to its profile for ever, power loss included |
| Pins.SoloTrustSucceeds | src/storage.rs:104-123 | an undisturbed trust of a fresh path succeeds, even when its existence test fails |
| Pins.SoloTrustAgainExact | src/storage.rs:113-120 | an undisturbed trust of a taken path changes nothing, confirms its own profile and answers every other with a mismatch |
| Pins.SoloLookupExact | src/storage.rs:125-136 | an undisturbed look-up changes nothing and answers exactly what the file parses to |
| InitRace.RunKeepsInv | src/storage.rs:48-82 | the invariant of ownership holds through every interleaving |
| InitRace.AtMostOneInitialize | src/storage.rs:48-82 | in every interleaving at most one initialize returns Ok |
| InitRace.InitialFilesKept | src/storage.rs:48-82 | no interleaving changes or removes a file that was there before |
| InitRace.OccupiedStoreUntouched | src/storage.rs:54-55 | where a profile or a key file is in place, no interleaving of init calls changes any file or succeeds |
| InitRace.SoloChecksExactly | src/storage.rs:48-61 | what stops an undisturbed init in front of its first write, and with which answer |
| InitRace.InitializedStaysLoadable | src/storage.rs:48-102 | from then on, power loss included, the identity loads with that call's unlock path to that call's secrets |
| InitRace.StrandedKeyBlocksInitialize | src/storage.rs:54-80 | a stranded key file blocks every initialize in every run |
| InitRace.RollbackStrands | src/storage.rs:77-80 | a failing last write with its rollback strands the key file exactly in the phases behind its creation, or when it was there already; what was written stays |
| InitRace.StrandedProfileBlocksInitialize | src/storage.rs:54-80 | a profile left by a call that failed or died blocks every initialize in every run |
| InitRace.InterruptionStrandsExactly | src/storage.rs:75-81 | an interruption of a call that has created the profile strands it exactly unless it is an error in the last write |
| InitRace.BrokenInitializeBlocksForever | src/storage.rs:48-82 | from any files without an identity: an error after any number of bytes of either identity file leads to a state in which no initialize ever succeeds again |
| InitRace.SoloInitializeSucceeds | src/storage.rs:48-82 | an undisturbed initialize succeeds |
| CommandLine.ParseOptions | src/cli.rs:766-814 | the index loop agrees with the specification |
| CommandLine.ParseOptionsExact | src/cli.rs:766-814 | a command line is accepted exactly when it spells legal items (a positional is anything but UTF-8 text with a leading dash), and means their positionals in order and the last value of each option |
| CommandLine.ParseOpenOptions | src/cli.rs:816-836 | the filter loop agrees with the specification; its last test is dead |
| CommandLine.KeepAnywhere | src/cli.rs:816-836 | one keep flag may stand anywhere |
| CommandLine.KeepAbsent | src/cli.rs:816-836 | without a keep flag the arguments are parsed as they are and nothing is kept |
| CommandLine.KeepRepeated | src/cli.rs:816-836 | two keep flags are refused wherever they stand |
| CommandLine.OpenOptionsRefusedExactly | src/cli.rs:816-836 | refusal exactly for a repeated keep or an ill-formed rest |

## Left out

- The inside of X25519, Ed25519, XChaCha20-Poly1305, HKDF and SHA-256, and every claim of secrecy or unforgeability: only the three laws are used.
- Error returns of primitives that cannot occur for the lengths used here (HKDF output length, AEAD message length, AEAD key length).
- Zeroization: memory contents after use have no counterpart in the model.
- The terminal interface, the environment and the discovery of paths; the wizards appear as the same store effects as the commands.
- Symbolic links, `..` in paths, permissions as state and Windows differences: different paths name different files, and setting permissions is a step that can fail.
- Failure of the random generator: draws are arguments and always succeed.
- Power loss that loses or brings back a directory entry: the source does not sync directories; in the concurrent models power loss cuts unsynced contents.
- Letter consumption and letter writing in the concurrent models: they are part of sequential runs only.
- Disks.Disk: reads and existence tests do not fail by themselves in the sequential model; a failing read ends a command before its first effect, and a failing existence test leads to an exclusive creation, as in the model of pins.
- `stego.rs`, `entropy.rs` and `error.rs` display texts: no logic that the properties need.
