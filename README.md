# LibraryMS login core, in Dafny

LibraryMS guards its library menus with a single-credential login. Registering
(`register_user` in src/login_system.c) reads a username and a password with
`scanf("%49s")`, hashes the `strlen(password)` bytes of the password with
SHA-256 and overwrites the login file with one binary record: the username
length as a native `int`, the username bytes, then the 32-byte digest. Logging
in (`login_user` in src/login_system.c and again in src/main.c) reads two
words, reads the record back, and accepts when `strcmp` finds the usernames
equal and `memcmp` finds the 32 digest bytes equal. The src/main.c version
counts failures in `failed_attempts`, means to exit after the third, and
otherwise retries by calling itself.

The model has five modules:

- `Wrappers`: `Option` and `Result`.
- `CLib`: bytes, the in-file layout of an `int`, C strings (`CStr`) and the
  comparisons `strcmp` and `memcmp`, each with a contract saying when it
  reports equality.
- `Console`: the console as the unread byte stream. `ScanWord` is one `%49s`
  conversion, `ReadEntered` the two reads of one attempt, and `Attempts` the
  whole sequence of complete attempts the stream holds.
- `Credential`: the record codec (`EncodeRecord` and `DecodeRecord`) with its
  round trips, the accept test (`Accepts`), one login check (`CheckLogin`) and
  registration (`RegisterUser`).
- `Session`: the retrying `login_user` of src/main.c. `LoginCall` is one call
  with its own counter. `LoginUser` is the whole recursion and is proved equal
  to the reference outcome `SessionOutcome`. `LoginUserWithLockout` is the
  corrected version that keeps one counter for the whole session, proved equal
  to `LockoutOutcome`.

Assumptions stated in the model:

- SHA-256 is a parameter `h: Hasher`, any function from bytes to 32 bytes.
- A native `int` is 4 bytes, little-endian, two's complement.
- The login file is an `Option<seq<byte>>`, None when `fopen` cannot open it.
  Whether `fopen(..., "wb")` succeeds is the boolean `canCreate`.
- A session reads its attempts from `Console.Attempts(console)`. Each call of
  `login_user` takes the first pending attempt.

The C code reads the record without checking `fread` or the stored length. The
model does not exclude such files; `DecodeRecord` reports them as errors, and
`CheckLogin` follows what C then does:

- A file shorter than an `int`, or a length outside 0..49, is undefined
  behaviour, and the login ends in `UndefinedRecord`.
- A record with a length in 0..49 whose name or digest is cut short still
  leaves a defined name in the zero-initialised `stored_user`. When that name
  differs from the entered username, `&&` skips the `memcmp` and the login
  fails. When it matches, `memcmp` reads the incomplete `stored_hash` and the
  login ends in `UndefinedRecord`.

## Model

| member | source | states |
|---|---|---|
| `CLib.IntBytes` | src/login_system.c:33 | the `int` is written as exactly `sizeof(int)` = 4 bytes |
| `CLib.IntFromBytes` | src/login_system.c:60 | four bytes read back give a 32-bit `int`, negative exactly when the top bit of the last byte is set |
| `CLib.IntBytesRoundTrip` | src/login_system.c:33 | reading back the four bytes written for an `int` gives that `int` |
| `CLib.IntFromBytesRoundTrip` | src/login_system.c:60 | every four bytes read as an `int` are exactly the bytes written for that `int`, so the length field has one encoding per value |
| `CLib.CStr` | src/login_system.c:32 | the C string of a buffer is its prefix before the first NUL: it holds no NUL and is followed by a NUL or the end of the buffer; `strlen` is its length |
| `CLib.Strcmp` | src/login_system.c:73 | `strcmp` returns 0 exactly when the two C strings are equal, byte for byte and case-sensitively |
| `CLib.Memcmp` | src/login_system.c:74 | `memcmp(a, b, n)` returns 0 exactly when the first n bytes of a and b agree |
| `Console.SkipSpace` | src/login_system.c:13 | `%s` skips exactly the leading whitespace and stops at the first other byte |
| `Console.TakeWord` | src/login_system.c:13 | the word taken plus the rest is the input; the word holds at most the field width of non-whitespace bytes and stops only at the width, at whitespace or at the end |
| `Console.ScanWord` | src/login_system.c:13-15 | `%49s` finds no word exactly when only whitespace is left; otherwise it stores one to 49 non-whitespace bytes and consumes input |
| `Console.ScanWordSplits` | src/login_system.c:13-15 | the input is the skipped whitespace, then the stored word, then the unread rest, which begins with whitespace unless the word took 49 bytes or the input ended |
| `Console.ReadEntered` | src/main.c:44-48 | the username and password read for one attempt are each 1 to 49 non-whitespace bytes, and the reads consume input |
| `Console.Attempts` | src/main.c:45-48 | the console holds no attempt exactly when it cannot supply both words of a first attempt |
| `Console.AttemptsAreWords` | src/main.c:44-48 | every attempt's username and password have 1 to 49 bytes, none of them whitespace |
| `Credential.EncodeRecord` | src/login_system.c:32-35 | the record is the 4-byte length, the name and the 32-byte digest, so its size is 4 + name length + 32 |
| `Credential.DecodeRecord` | src/login_system.c:56-64 | the record is complete exactly when the file has 4 bytes, the stored length is in 0..49 and the name and digest fit in the file; the name read then fits the 50-byte buffer; a truncated record reports the name bytes `fread` stored, which follow the length field in the file and fit the buffer |
| `Credential.DecodeEncode` | src/login_system.c:32-35 | reading the record written for a name and digest gives back that name and digest, whatever follows the record |
| `Credential.EncodeDecode` | src/login_system.c:60-63 | a file holding a complete record begins with the record written for what it reads as |
| `Credential.EncodeInjective` | src/login_system.c:32-35 | different credentials are written as different records |
| `Credential.Accepts` | src/login_system.c:73-74 | the login test accepts exactly when the usernames are equal as C strings and the password's digest equals the stored digest on all 32 bytes |
| `Credential.CheckLogin` | src/login_system.c:49-81 | a login reports no account exactly when the file cannot be opened; it succeeds only on a complete record, and ends in undefined behaviour only when the record is not complete |
| `Credential.CheckLoginSucceedsIff` | src/main.c:74-75 | a login succeeds exactly when the file holds a complete record whose name is the entered username and whose digest is that of the entered password; a missing file never lets anyone in |
| `Credential.CheckLoginFailsIff` | src/login_system.c:56-81 | a login fails exactly when the file opens with a length field in 0..49 and either the name `fread` stored differs from the entered username, or the record is complete and the password's digest differs from the stored one |
| `Credential.TruncatedRecordRejects` | src/login_system.c:57-62 | a record cut short after the name "a" still rejects the username "b" |
| `Credential.RegisterUser` | src/login_system.c:17-36 | if the file cannot be created nothing changes; otherwise the file is exactly the record for the `strlen` bytes of the username and the digest of the password, and it reads back as those two |
| `Credential.RegisterThenLogin` | src/login_system.c:19-22 | registering a username and password and then logging in with the same two words succeeds |
| `Credential.RegisterOverwrites` | src/login_system.c:25 | after two registrations a login succeeds exactly when it matches the second one, whatever the first was |
| `Credential.FailedRegisterKeepsLogin` | src/login_system.c:25-30 | a registration that cannot open the file leaves every login result as it was |
| `Session.Results` | src/main.c:50-84 | one login check result per attempt, in order, each the check of that attempt |
| `Session.FirstDecisive` | src/main.c:82-94 | the index found is of a result that is not a rejection, with every earlier result a rejection; none is found exactly when every result is a rejection |
| `Session.SessionOutcome` | src/main.c:86-95 | the session as written never ends by the three-strike exit |
| `Session.SessionLogsInIff` | src/main.c:74-81 | a session logs in at attempt k exactly when the file holds a complete record that attempt k matches and no earlier attempt matches |
| `Session.LockoutOutcome` | src/main.c:85-90 | with a session-wide counter, a login can only succeed at an attempt before the allowed number of failures |
| `Session.LoginCall` | src/main.c:41-96 | one call never takes the exit; its counter ends at 1 when it retries and at 0 otherwise, so a failure adds exactly one and a success or a missing file leaves it unchanged; what it does follows from the login check of the first pending attempt and that counter |
| `Session.SessionOutcomeAfterRejection` | src/main.c:91-95 | after a rejected attempt the session goes on as a session over the remaining attempts |
| `Session.LoginUser` | src/main.c:41-97 | the recursion ends as `SessionOutcome` says, and no call's `failed_attempts` exceeds 1 |
| `Session.LockoutCall` | src/main.c:85-90 | with the counter passed in, a failure adds one and reaching 3 takes the exit |
| `Session.LockoutFirstAttempt` | src/main.c:85-95 | how a locked-out session ends follows from its first attempt and the session over the rest with one failure fewer allowed |
| `Session.LoginUserWithLockout` | src/main.c:85-90 | the corrected recursion ends as `LockoutOutcome` says, its counter stays between its start and 3, and it exits exactly when the counter reaches 3 |
| `Session.LockoutDiffersIff` | src/main.c:86-90 | the two sessions differ exactly when the first three attempts are all rejected, and then only the corrected one exits |
| `Session.LoginFromConsole` | src/main.c:34-37 | a login session over the attempts the console holds ends as `SessionOutcome` says, never by the exit, and ends with the input exactly when every attempt is rejected |
| `Session.ThreeFailuresDoNotExit` | src/main.c:43 | three rejected attempts: as written the session keeps asking until the input ends, while the corrected session exits |

## Left out

- SHA-256 itself (`sha256_init`, `sha256_update`, `sha256_final`) is not part of this model. It is the parameter `h`, so no collision or avalanche property is assumed. A password with the same digest as the stored one is accepted, as `Credential.Accepts` states.
- The `int` width and byte order are platform-dependent in C. The model fixes 4 bytes, little-endian, two's complement.
- Output (`printf`, `perror`, `puts`), `fclose` and `system("pause")` are left out. `exit(1)` becomes the outcome `TooManyFailures`.
- The menus `printMainMenu` and `handleMainMenu` (src/main.c:99-130) are left out. A successful login ends the session with `LoggedIn`. The menu code calls functions that are not part of this model, and its `scanf` call is malformed.
- The `Book` and `Member` structs and the `BOOKS_FILE` and `MEMBERS_FILE` constants (src/main.c:14-32) are left out. No code in the core uses them.
- Both `main` functions (src/main.c:34-39, src/login_system.c:84-106) are left out. They only dispatch to the functions above.
- What the program does after undefined behaviour is not modelled. This covers a file shorter than an `int`, a length outside 0..49, and a `memcmp` over the incomplete digest of a truncated record whose name matches. Login ends in `UndefinedRecord` instead.
- Credential.CheckLogin: a truncated record whose stored name matches is reported as `UndefinedRecord` even when the digest bytes that were read already differ, because C leaves the rest of `stored_hash` indeterminate and `memcmp` need not compare in order.
- When the console ends before both words of an attempt are read, `scanf` returns EOF and C goes on with uninitialised buffers. The model ends the session there with `InputEnded`.
- Credential.RegisterUser: requires a username buffer shorter than 50 bytes. `%49s` guarantees this, and `Console.ReadEntered` proves it for every word it reads.
- Recursion depth is not modelled. The C retries grow the call stack without bound, but the model's recursion only ends when the input runs out.

## Findings

| source | as written | input that shows it | evidently intended | confidence | as-written member | corrected member |
|---|---|---|---|---|---|---|
| src/main.c:43 | `failed_attempts` is a local set to 0 at the top of every call, and each retry is a new call, so it never goes past 1 and the `>= 3` exit at lines 86-90 can never run | a complete record for username "a", then three attempts with username "b": the session keeps asking and never exits | the count carries across retries, so the third failure in a row exits | not executed | `Session.ThreeFailuresDoNotExit` | `Session.LoginUserWithLockout` |
