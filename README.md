# SafePass in Dafny

SafePass is a password manager. Its server keeps each user's saved
credentials in a MongoDB `Password` collection behind an authenticated
`/passwords` REST router. Stored passwords are protected at rest by an
envelope `salt:iv:ciphertext:authTag`: AES-256-GCM under a key derived with
PBKDF2, every field in hex. A one-shot script migrates plain-text passwords
into envelopes. The browser client has four pages modelled here:

- a random password generator;
- a strength and breach checker, which uses the Have I Been Pwned
  "Pwned Passwords" range lookup;
- the vault list;
- the signup form.

This project models that core and proves properties of it.

| file | module | models |
|---|---|---|
| `common.dfy` | `Common` | `Option` and `Result` |
| `text.dfy` | `Text` | `String.prototype.split` with a string separator, `join`, `trim` |
| `hex.dfy` | `Hex` | Node's hex encoding and its lenient decoding (`Buffer`) |
| `encryption.dfy` | `Encryption` | `server/utils/encryption.js`: `encrypt`, `decrypt`, `isEncrypted` |
| `vault.dfy` | `Vault` | `server/models/Password.js`: required paths, trimming, defaults, the save hook, and what an update stores |
| `routes.dfy` | `Routes` | `server/routes/passwords.js`: the collection as the class `PasswordStore`, and the four handlers as its methods |
| `migration.dfy` | `Migration` | `server/utils/migratePasswords.js`: the loop over all documents and its counters |
| `strength.dfy` | `Strength` | `calculateEntropy`, `getStrengthLevel` and `getStrengthColor`, which both password pages define identically |
| `breach.dfy` | `Breach` | the digest hex, the range prefix and suffix, `parseInt`, the response scan, and `checkPasswordBreach` as the class `BreachCheck` |
| `generator.dfy` | `Generator` | `client/src/pages/PasswordGenerator.jsx`: the alphabet, `getSecureRandom`, the generation loop |
| `checker.dfy` | `Checker` | `client/src/pages/BreachAndStrengthChecker.jsx`: the input handler |
| `manager.dfy` | `Manager` | `client/src/pages/PasswordManager.jsx`: list state and handlers |
| `signup.dfy` | `Signup` | `client/src/pages/Signup.jsx`: `handleSubmit` |

Several things become parameters:

- Randomness: the salt and IV of each `encrypt`, and each `getRandomValues` word.
- Clocks: `Date.now()` and `new Date()`. Each read of the clock is its own parameter, so the creation time and the save time of a document may differ.
- Database and network replies: `Option` values, where `None` is a thrown error.
- The user's answer to `window.confirm`.
- The cryptographic primitives: function-valued fields of `Encryption.Primitives`, plus a digest function `sha1` that may fail.

The ghost predicate `Encryption.Sound` lists what the round-trip lemmas assume of the primitives. React state setters become field assignments of a page class. Each `async` handler runs to completion.

Where the code and its documentation disagree, the model follows the code:

- The generator does not clamp the length to 8–100. Only the range input offers those bounds, so `Generator.Generated` takes any integer length.
- The schema has no encrypt-on-save or decrypt-on-read hook. Passwords are stored and listed exactly as given, and only the migration script writes envelopes.

## Model

| member | source | states |
|---|---|---|
| Text.Split | server/utils/encryption.js:64 | `split(':')` always yields at least one part |
| Text.JoinSplit | server/utils/encryption.js:64 | splitting loses nothing: joining the parts with the separator gives the text back |
| Text.SplitJoin | server/utils/encryption.js:102 | parts without the separator character, joined and split again, come back unchanged |
| Text.TrimKeepsStretch | server/models/Password.js:12 | `trim` keeps one contiguous stretch of the text, starting where the leading white space ends |
| Text.TrimKeepsNoEdgeSpace | server/models/Password.js:12 | what `trim` keeps neither starts nor ends with white space |
| Text.TrimDropsOnlySpace | server/models/Password.js:12 | everything `trim` drops, in front and behind, is white space |
| Text.TrimSpec | server/models/Password.js:12 | `trim` keeps the stretch of the text that neither starts nor ends with JavaScript white space, and drops only white space |
| Text.TrimIdempotent | server/models/Password.js:17 | trimming a trimmed value changes nothing |
| Text.TrimEmpty | server/models/Password.js:9-18 | a value trims to "" exactly when it is all white space |
| Hex.Encode | server/utils/encryption.js:49 | `toString('hex')` writes two lower-case digits per byte |
| Hex.Decode | server/utils/encryption.js:70-73 | `Buffer.from(s, 'hex')` reads at most one byte per two characters |
| Hex.DecodeEncode | server/utils/encryption.js:70-73 | reading back the hex of some bytes gives those bytes |
| Hex.EncodeAppend | server/utils/encryption.js:42-43 | the hex of `update` followed by `final` is the hex of the whole ciphertext |
| Hex.UpperAsciiHex | client/src/pages/PasswordGenerator.jsx:84 | upper-casing lower-case hex gives upper-case digits of the same values |
| Encryption.Message | server/utils/encryption.js:87-89 | every failure inside `decrypt` is rethrown with the "Decryption failed: " prefix |
| Encryption.ParseEnvelope | server/utils/encryption.js:64-73 | parsing succeeds exactly when the text splits into four parts, and otherwise fails with "Invalid encrypted text format" |
| Encryption.EncryptResult | server/utils/encryption.js:26-50 | `encrypt` succeeds exactly when `ENCRYPTION_KEY` is set and non-empty; otherwise it throws the missing-key error |
| Encryption.DecryptResult | server/utils/encryption.js:57-90 | a missing key is thrown as it is, a wrong part count fails as an invalid format, a ciphertext field of odd length always fails, and every other failure is a decryption failure |
| Encryption.Encrypt | server/utils/encryption.js:26-50 | the steps of `encrypt` yield the envelope: four `:`-separated fields, a 128-digit salt and a 32-digit IV, which parse back to the same salt and IV |
| Encryption.Decrypt | server/utils/encryption.js:57-90 | the steps of `decrypt`, with the key check outside the `try`, yield exactly `DecryptResult` |
| Encryption.EnvelopeFields | server/utils/encryption.js:49 | the envelope splits at `:` into exactly the four hex fields it was built from |
| Encryption.ParseEnvelopeOf | server/utils/encryption.js:64-73 | `decrypt` recovers the fields in the order `encrypt` wrote them: salt, IV and tag as bytes, the ciphertext as its hex text |
| Encryption.OddCiphertextFieldFails | server/utils/encryption.js:72-88 | once the decipher is set up, a ciphertext field of odd length makes `update` throw the invalid-data error for that length, and the failure is rethrown as a decryption failure |
| Encryption.TamperedCiphertextFails | server/utils/encryption.js:72-88 | appending one hex digit to the ciphertext field of an envelope `encrypt` wrote makes `decrypt` fail |
| Encryption.RoundTrip | server/utils/encryption.js:26-90 | under the same key, decrypting what `encrypt` produced gives the plaintext back |
| Encryption.IsEncryptedExactly | server/utils/encryption.js:97-105 | `isEncrypted` accepts exactly the strings made of four non-empty hex fields joined by `:`, and rejects every non-string |
| Encryption.EnvelopeRecognised | server/utils/encryption.js:97-105 | an envelope passes `isEncrypted` exactly when its ciphertext is non-empty |
| Encryption.EncryptedTextRecognised | server/utils/encryption.js:97-105 | the output of `encrypt(text)` passes `isEncrypted` exactly when `text` is non-empty |
| Encryption.EnvelopeGateAcceptsEncryption | server/utils/encryption.js:49 | the corrected gate accepts every envelope `encrypt` produces |
| Encryption.EnvelopeGateWidensOnlyEmpty | server/utils/encryption.js:103-104 | the corrected gate accepts everything `isEncrypted` does, and more only when the ciphertext field is empty |
| Vault.MissingPaths | server/models/Password.js:4-22 | a path fails `required` exactly when its value, after the setters run, is absent or empty |
| Vault.Build | server/models/Password.js:3-31 | a new document is valid exactly when every required path is filled. It then has trimmed website and username, the password as given, and both timestamps equal to the creation time |
| Vault.PreSave | server/models/Password.js:33-36 | the save hook sets `updatedAt` to the save time and changes nothing else |
| Vault.BuiltEntryWellFormed | server/models/Password.js:3-36 | every saved document has non-empty, trimmed website and username and a non-empty password |
| Vault.Revise | server/routes/passwords.js:45-49 | an update trims website and username, stores the password as given, refreshes `updatedAt`, and leaves absent fields unchanged |
| Vault.ReviseKeepsWellFormed | server/routes/passwords.js:45-49 | an update keeps a document well-formed when each supplied field is non-empty after trimming |
| Vault.ReviseCanBreakWellFormed | server/routes/passwords.js:45-49 | an update runs no validators, so it can store an empty password |
| Routes.Owned | server/routes/passwords.js:13 | the caller's query returns each of the caller's documents, and no one else's |
| Routes.InsertNewestFirstOrder | server/routes/passwords.js:14 | inserting into a newest-first list keeps it newest first |
| Routes.InsertNewestFirstAdds | server/routes/passwords.js:14 | inserting adds exactly that entry and loses none |
| Routes.SortNewestFirstSpec | server/routes/passwords.js:14 | `sort({ createdAt: -1 })` yields a newest-first permutation of the documents |
| Routes.FindOwned | server/routes/passwords.js:46 | finds a document with this id owned by the caller, or proves that there is none |
| Routes.PasswordStore.List | server/routes/passwords.js:11-19 | GET returns 200 with exactly the caller's documents, newest first, or 500 with the error message |
| Routes.IdsBelowAppend | server/routes/passwords.js:33 | a saved document gets an id no stored document has |
| Routes.IdsBelowUpdate | server/routes/passwords.js:45-49 | an update by id keeps every id unique |
| Routes.IdsBelowRemove | server/routes/passwords.js:64-67 | a delete by id keeps every remaining id unique |
| Routes.PasswordStore.Insert | server/routes/passwords.js:33 | the save appends the document under the next fresh id and keeps ids unique |
| Routes.PasswordStore.Create | server/routes/passwords.js:22-38 | POST stores a valid document owned by the caller and returns it with 201: `createdAt` is the construction time and `updatedAt` the later save time. A validation error or a database error gives 500 and stores nothing |
| Routes.PasswordStore.Update | server/routes/passwords.js:41-59 | PUT changes only the caller's document with this id. A missing id or another user's id gives 404, and a malformed id gives a 500 cast error |
| Routes.PasswordStore.Delete | server/routes/passwords.js:62-77 | DELETE removes only the caller's document with this id and keeps the rest in order. Otherwise it gives 404 or 500 |
| Migration.Count | server/utils/migratePasswords.js:25-27 | a counter never exceeds the number of documents |
| Migration.CountsPartition | server/utils/migratePasswords.js:30-57 | each document increments exactly one counter, so the counters sum to the total |
| Migration.MigrateOne | server/utils/migratePasswords.js:31-56 | one document is skipped, encrypted and written back with a fresh `updatedAt`, or counted as an error and left unchanged; only its slot changes, and exactly the counter of its outcome goes up by one |
| Migration.CountsUpToPrefix | server/utils/migratePasswords.js:25-57 | the three counters after the first `n` documents are the numbers of each outcome among those `n` |
| Migration.MigrateAll | server/utils/migratePasswords.js:30-57 | the loop leaves every document replaced by its migrated version, in order, each with its own `new Date()`, and the counters equal the tallies of all outcomes; the id counter is untouched and unique ids stay unique |
| Migration.MigratedKeepsIds | server/utils/migratePasswords.js:46-49 | `updateOne` by `_id` changes only the password and `updatedAt`, so every id stays below the id counter and distinct |
| Migration.MigratePasswords | server/utils/migratePasswords.js:13-83 | the documents become exactly the migrated documents, ids stay unique, and the summary reports the total and the three counts. The connection is closed and the exit code is 0 on every path |
| Migration.SecondRunSkipsAll | server/utils/migratePasswords.js:33-37 | after a clean run over non-empty passwords, a second run skips every document and changes nothing |
| Migration.NoFailureMeansNone | server/utils/migratePasswords.js:54 | an error count of zero means no document failed |
| Migration.EmptyPasswordEncryptedTwice | server/utils/migratePasswords.js:33-49 | a stored empty password is encrypted by the first run, and its envelope is encrypted again by the next |
| Migration.EveryMigratedPasswordIsAnEnvelope | server/utils/migratePasswords.js:33-49 | with the corrected gate, one clean run leaves every password an accepted envelope, the empty one included |
| Strength.PoolSize | client/src/pages/PasswordGenerator.jsx:26-39 | the pool is 0 exactly for the empty password and never exceeds 94; BreachAndStrengthChecker.jsx:12-25 repeats the same code |
| Strength.PoolSizeGrows | client/src/pages/PasswordGenerator.jsx:28-38 | adding text never removes a class, so the pool never shrinks |
| Strength.Entropy | client/src/pages/PasswordGenerator.jsx:25-43 | the empty password has entropy 0; any other gets the measure of its length and pool; BreachAndStrengthChecker.jsx:11-29 repeats the same code |
| Strength.StrengthLevel | client/src/pages/PasswordGenerator.jsx:46-51 | the label is Weak below 40, Medium below 60, Strong below 80, otherwise "Military Grade"; BreachAndStrengthChecker.jsx:32-37 repeats the same code |
| Strength.StrengthMonotone | client/src/pages/PasswordGenerator.jsx:46-51 | more entropy never gives a weaker label |
| Strength.ExtendingNeverWeakens | client/src/pages/BreachAndStrengthChecker.jsx:101-108 | with a measure that grows with length and pool, typing more never weakens the label shown |
| Strength.StrengthColor | client/src/pages/PasswordGenerator.jsx:54-67 | grey exactly for labels outside the four bands; BreachAndStrengthChecker.jsx:40-53 repeats the same code |
| Strength.ColorsTellBandsApart | client/src/pages/BreachAndStrengthChecker.jsx:40-53 | the four bands have distinct colours, and the classifier's output is never grey |
| Breach.PaddedByteIsHex | client/src/pages/PasswordGenerator.jsx:84 | `toString(16).padStart(2, '0')` is the two-digit hex of the byte |
| Breach.DigestHexSpec | client/src/pages/PasswordGenerator.jsx:83-84 | the digest text has two upper-case hex digits per byte and reads back as the digest |
| Breach.Prefix | client/src/pages/PasswordGenerator.jsx:86 | the query is the first five characters, clamped for short text |
| Breach.Suffix | client/src/pages/PasswordGenerator.jsx:87 | the suffix is everything after the first five characters |
| Breach.PrefixSuffix | client/src/pages/BreachAndStrengthChecker.jsx:72-73 | the prefix followed by the suffix is the digest text |
| Breach.Sha1Split | client/src/pages/BreachAndStrengthChecker.jsx:69-73 | a 20-byte digest yields a 5-digit query and a 35-digit suffix |
| Breach.LeadingDigitsValue | client/src/pages/PasswordGenerator.jsx:98 | `parseInt` has no value (`NaN`) exactly when no digit of the chosen base follows the sign and prefix |
| Breach.ParseDecimal | client/src/pages/PasswordGenerator.jsx:98 | `parseInt` reads the decimal text of a count back as that count |
| Breach.RecordLine | client/src/pages/PasswordGenerator.jsx:95-98 | a `SUFFIX:COUNT` line is read as that suffix and that count |
| Breach.RangeStatusSafe | client/src/pages/PasswordGenerator.jsx:93-105 | the scan reports safe exactly when no line's hash equals the suffix, and a leak otherwise |
| Breach.RangeStatusLeaked | client/src/pages/PasswordGenerator.jsx:93-105 | a reported leak carries the count of the first line whose hash equals the suffix |
| Breach.RangeStatusSpec | client/src/pages/PasswordGenerator.jsx:93-105 | a leak is reported exactly when some line's hash equals the suffix, with the first such line's count; otherwise the status is safe |
| Breach.ScanRange | client/src/pages/BreachAndStrengthChecker.jsx:77-91 | the flag-and-break loop over the CRLF lines reaches exactly the status of the first matching line |
| Breach.CheckStatus | client/src/pages/BreachAndStrengthChecker.jsx:56-98 | an empty password clears the status; a failed digest or a failed request shows the error, and the scan never does; otherwise the status is the scan of the body's CRLF lines for the digest suffix |
| Breach.CheckQueries | client/src/pages/BreachAndStrengthChecker.jsx:57-75 | an empty password or a failed digest sends no query; otherwise the digest prefix is sent once |
| Breach.ErrorReplyReadAsSafe | client/src/pages/PasswordGenerator.jsx:89-104 | an error response (status 429) with an empty body is reported as not leaked |
| Breach.CheckedStatus | client/src/pages/PasswordGenerator.jsx:70-112 | the corrected check: an empty password clears the status, and every failure shows the one error message |
| Breach.CheckedStatusSpec | client/src/pages/PasswordGenerator.jsx:89-108 | with the `ok` check, a response that is not `ok` always shows the error, and any other outcome is the one the check as written reaches |
| Breach.BreachCheck.constructor | client/src/pages/BreachAndStrengthChecker.jsx:7-8 | no status and not checking |
| Breach.BreachCheck.CheckPasswordBreach | client/src/pages/PasswordGenerator.jsx:70-112 | the status, query log and `isChecking` flag after a check. For a non-empty password the flag is false at the end |
| Generator.LettersSpec | client/src/pages/PasswordGenerator.jsx:117 | the base string is exactly the 52 ASCII letters |
| Generator.DigitsSpec | client/src/pages/PasswordGenerator.jsx:119 | the digit string is exactly the ten ASCII digits |
| Generator.SymbolsSpec | client/src/pages/PasswordGenerator.jsx:120 | the 20 symbols are all outside the letters and digits |
| Generator.Alphabet | client/src/pages/PasswordGenerator.jsx:117-120 | the alphabet holds the letters, the digits exactly when numbers are on, and the symbols exactly when symbols are on |
| Generator.AlphabetSizes | client/src/pages/PasswordGenerator.jsx:117-120 | the alphabet has 52, 62, 72 or 82 characters |
| Generator.SecureRandom | client/src/pages/PasswordGenerator.jsx:17-22 | 0 for a non-positive bound; otherwise the random word's remainder modulo the bound, an index below it, and the word itself when the word is already below it |
| Generator.Generated | client/src/pages/PasswordGenerator.jsx:122-125 | exactly `length` characters (none for a non-positive length), each from the alphabet |
| Generator.GeneratedPool | client/src/pages/PasswordGenerator.jsx:117-125 | a generated password has no digits unless numbers are on and no symbols unless symbols are on, which bounds its pool |
| Generator.EstimatorOvercreditsSymbols | client/src/pages/PasswordGenerator.jsx:37 | the estimator can credit a pool of 94 to a password drawn from 82 characters |
| Generator.GeneratorPage.constructor | client/src/pages/PasswordGenerator.jsx:4-11 | the initial state is length 16, numbers and symbols on, and strength Weak |
| Generator.BuildPassword | client/src/pages/PasswordGenerator.jsx:116-125 | the loop builds exactly the password `Generated` describes: one alphabet character per draw |
| Generator.GeneratorPage.GeneratePassword | client/src/pages/PasswordGenerator.jsx:115-134 | the loop yields the generated password, then sets its entropy and strength and runs its breach check |
| Checker.CheckerPage.constructor | client/src/pages/BreachAndStrengthChecker.jsx:4-8 | empty input, entropy 0, strength Weak, no status |
| Checker.CheckerPage.HandleInputPasswordChange | client/src/pages/BreachAndStrengthChecker.jsx:101-115 | the text, entropy and strength are set at once from the new value; the breach indicator is untouched until the timer fires |
| Checker.CheckerPage.TimerFires | client/src/pages/BreachAndStrengthChecker.jsx:110-112 | the delayed check of the scheduled password |
| Manager.RemoveById | client/src/pages/PasswordManager.jsx:73 | the kept entries are exactly those with another id |
| Manager.RemoveByIdAppend | client/src/pages/PasswordManager.jsx:73 | filtering works piece by piece, so order is kept |
| Manager.RemoveByIdAbsent | client/src/pages/PasswordManager.jsx:73 | removing an id no entry has changes nothing |
| Manager.DeleteUndoesAdd | client/src/pages/PasswordManager.jsx:54 | deleting the entry just prepended gives back the earlier list |
| Manager.Toggle | client/src/pages/PasswordManager.jsx:89-94 | only the toggled id flips, and a missing key counts as hidden |
| Manager.ToggleTwice | client/src/pages/PasswordManager.jsx:89-94 | toggling twice restores every id's visibility |
| Manager.VaultPage.constructor | client/src/pages/PasswordManager.jsx:6-13 | an empty list, empty fields, and loading |
| Manager.VaultPage.FetchPasswords | client/src/pages/PasswordManager.jsx:23-36 | the returned list replaces the shown one; a failure keeps the list and shows "Failed to load passwords". Loading ends either way |
| Manager.VaultPage.HandleAddPassword | client/src/pages/PasswordManager.jsx:39-64 | an empty field gives an alert and no request. A successful add prepends the entry and clears the form; a failure only alerts |
| Manager.VaultPage.HandleDeletePassword | client/src/pages/PasswordManager.jsx:67-79 | nothing happens without confirmation. A successful delete filters out the id; a failure only alerts |
| Manager.VaultPage.TogglePasswordVisibility | client/src/pages/PasswordManager.jsx:89-94 | only that id's visibility flips; nothing else changes |
| Signup.Validate | client/src/pages/Signup.jsx:22-30 | input passes exactly when the two entries match and have at least 6 characters. A mismatch is reported before shortness |
| Signup.MismatchReportedFirst | client/src/pages/Signup.jsx:22-30 | a short, mismatched pair reports the mismatch |
| Signup.SignupPage.constructor | client/src/pages/Signup.jsx:7-12 | empty fields, no error, not loading |
| Signup.SignupPage.HandleSubmit | client/src/pages/Signup.jsx:17-43 | invalid input sets the check's error and registers nothing. Valid input registers once, then navigates to "/password-manager" on success or shows the server's message; loading ends |

## Left out

- PBKDF2, AES-256-GCM, SHA-1, UTF-8 encoding and `crypto.randomBytes` are not modelled. They are parameters, and `Encryption.Sound` states what the round trip assumes of them.
- Encryption.Encrypt: `update` and `final` are one `seal` call. `Hex.EncodeAppend` shows that the two hex pieces concatenate to the same text.
- Encryption.Encrypt: non-string plaintexts are not modelled. The model accepts only strings, and `isEncrypted` is the one function modelled on arbitrary values (`JsValue`).
- Encryption.Decrypt: a non-string `encryptedText` is not modelled. In the source its `split` throws a `TypeError` inside the `try`, which is rethrown as "Decryption failed: …"; the model accepts only strings.
- Strength.Entropy: `Math.log2` and `toFixed(2)` are not modelled. The measure is an abstract `real` function of length and pool. The meter width is not modelled either.
- Lengths count characters. JavaScript's `length` counts UTF-16 code units, so a non-BMP character counts as 2 in the source and as 1 here.
- Breach.ParseInt: counts beyond 2^53 lose precision in JavaScript but are exact here. `-0` is 0.
- Checker.CheckerPage.HandleInputPasswordChange: the 500 ms `setTimeout` is a separate method call. The returned cleanup is discarded by `onChange`, so no check is ever cancelled. The order in which overlapping checks finish is not modelled.
- Generator.GeneratorPage.GeneratePassword: `checkPasswordBreach` is not awaited in the source; here it runs to completion. The `useEffect` that regenerates on option changes, the copy button and its 2-second reset, and the range input are UI wiring and are not modelled.
- Manager.VaultPage.HandleAddPassword: the handlers read the list captured at render time. Sequential calls see the latest list here. `handleCopyPassword` is clipboard I/O and is not modelled.
- Signup.SignupPage.HandleSubmit: `register` is assumed to resolve. If it rejected, `loading` would stay `true`.
- The authentication middleware (`server/middleware/auth.js`) is not part of this model. Each handler receives the caller's user id.
- Routes.PasswordStore.Create: Mongoose casting of non-string body values and of `null` is not modelled. A body field is a string or absent.
- Vault.Revise: absent body fields are left unchanged. This follows Mongoose's default stripping of `undefined` update keys, which depends on the Mongoose version.
- Routes.SortNewestFirstSpec: MongoDB does not specify the order among equal `createdAt` values, so the model fixes none.
- Migration.MigratePasswords: console output is not modelled. A failed connection or initial `find` is the `reachable` flag.
- The login page, the protected route, `server/server.js` and `server/utils/generateKey.js` are not modelled. The animation, canvas and layout components are not modelled either.

## Findings

| source | as written | input that shows it | evidently intended | confidence | as-written member | corrected member |
|---|---|---|---|---|---|---|
| client/src/pages/PasswordGenerator.jsx:89-104 | `response.ok` is never checked (BreachAndStrengthChecker.jsx:75-90 has the same code): the body of any response, error or not, is scanned for the suffix | the range endpoint answers 429 (rate limit) or 503 with a body that has no `SUFFIX:COUNT` line: the page reports "not leaked" | a response that is not `ok` shows "Could not check breach database" | not executed | Breach.ErrorReplyReadAsSafe | Breach.CheckedStatusSpec |
| server/utils/encryption.js:103-104 | `isEncrypted` demands at least one hex digit in every field, but `encrypt("")` writes an empty ciphertext field | a document whose password is "" (a PUT stores it, because `findOneAndUpdate` runs no validators): the first migration run writes `salt:iv::tag`, the second does not recognise it and encrypts the envelope text again | the gate accepts every envelope `encrypt` writes | not executed | Migration.EmptyPasswordEncryptedTwice | Migration.EveryMigratedPasswordIsAnEnvelope |
