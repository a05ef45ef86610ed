# VkApi user registry — a Dafny model

This project models the two parts of the VkApi user registry that carry its logic:

- **The credential scheme** (`PasswordService`). A password is stored as
  `base64(salt) ";" base64(hash)`. The salt is 64 random bytes. The hash is the 64-byte key
  that PBKDF2 with HMAC-SHA-512 and 100,000 iterations derives from the password and the salt.
  `Verify` splits the stored string on `;`, decodes both fields, derives the key again and
  compares the two keys.
- **The user directory** (`UserService` over the `Users`, `UserGroups` and `UserStates`
  tables of `Models.cs`). It lists the Active users and finds one Active user by login.
  It refuses an Admin request while any user is in group Admin, and the unique index
  on `Login` refuses a taken login. It deletes a user softly, by setting the state to Blocked.

Modules, one per component:

- `Wrappers`: `Option` (a nullable result) and `Result` (a value or a thrown exception).
- `Base64`: `Convert.ToBase64String` and `Convert.FromBase64String`, following section 4 of
  RFC 4648, with the proof that decoding inverts encoding.
- `Strings`: `String.Split(char)`, with `Join` as its inverse.
- `Passwords`: `HashWithSalt`, `Encrypt` and `Verify`. The key derivation is a
  function-typed parameter `DeriveKey`: any deterministic map from password and salt to
  64 bytes. The salt is an argument of `Encrypt`.
- `Queries`: the LINQ operators the service uses (`Where`, `Any`, `First`), over a
  table held as a sequence.
- `Models`: the enums, the records, the seeded group and state rows, and the table's
  constraints (unique login, unique id, references to seeded rows).
- `Users`: class `UserService`. Its field `users` is the Users table. `nextId` is the next
  id the store assigns. `derive` is the injected password service. `GetAll` and `Get` are
  functions that read the table. `Create` and `Delete` are methods that change it and keep
  the invariant `Valid()`.
- `Scenarios`: the outcomes the repository's API tests expect, derived from the contracts,
  over the test fixture's three rows. It also has the create / create again / delete
  lifecycle of a single login.

In these places the code does something a reader may not expect, and the model follows the code:

- `Create` overwrites the group with the seeded `User` row (UserService.cs:42), also for an
  Admin request that passed the single-admin check. So `Create` never stores an Admin, and
  the number of Admins never changes (`AdminCount` in `Create`'s contract).
- A malformed credential makes `Verify` throw .NET exceptions: `FormatException` for a field
  that is not Base64, `IndexOutOfRangeException` when there is no second field. It never
  returns false for these. The first field is decoded before the second is looked up, so a
  bad first field reports `FormatException` even when `;` is missing.
- Fields after a second `;` are ignored, not rejected (`VerifyFields`).
- The keys are compared with `SequenceEqual`. This is a length check followed by a byte
  scan, not a constant-time comparison.

## Model

| member | source | states |
|---|---|---|
| `Base64.DigitValue` | VkApi/PasswordService.cs:23-24 | a character has a 6-bit value exactly when it is one of the 64 digits, and that value's digit is the character; every other character has none |
| `Base64.NotDigits` | VkApi/PasswordService.cs:17 | '=', ';', space, tab, CR and LF are not Base64 digits |
| `Base64.Encode` | VkApi/PasswordService.cs:17 | n bytes encode to 4 * ceil(n / 3) characters |
| `Base64.StripWhiteSpace` | VkApi/PasswordService.cs:23-24 | the text the decoder reads is never longer than the input, has no white space, and holds exactly the input's characters that are not white space |
| `Base64.StripOne` | VkApi/PasswordService.cs:23-24 | a single character is dropped when it is white space and kept otherwise |
| `Base64.StripAppend` | VkApi/PasswordService.cs:23-24 | stripping a concatenation strips each part, so the non-white-space characters keep their order and multiplicity |
| `Base64.DecodeQuad` | VkApi/PasswordService.cs:23-24 | a group without padding decodes exactly when its four characters are digits, and then to three bytes |
| `Base64.DecodeFinal` | VkApi/PasswordService.cs:23-24 | the last group decodes exactly when its first two characters are digits, the third is a digit or (with the fourth) '=', and the fourth is a digit or '='; it yields one to three bytes |
| `Base64.DecodeGroupsAlphabet` | VkApi/PasswordService.cs:23-24 | groups that decode consist of digits and '=' only |
| `Base64.Decode` | VkApi/PasswordService.cs:23-24 | input that decodes has no character other than digits, '=' and white space; any other character makes it fail |
| `Base64.DecodeAccepts` | VkApi/PasswordService.cs:23-24 | input decodes exactly when, with white space skipped, its length is a multiple of 4 and it is digits followed by at most two '=' |
| `Base64.DecodeGroupsAccepts` | VkApi/PasswordService.cs:23-24 | n four-character groups decode exactly when they are digits followed by zero, one or two '=' |
| `Base64.FinalAccepts` | VkApi/PasswordService.cs:23-24 | one group decodes exactly when it is four digits, three digits and '=', or two digits and "==" |
| `Base64.DigitsThenPadFront` | VkApi/PasswordService.cs:23-24 | '=' cannot occur in a group that other groups follow: the front group must be all digits |
| `Base64.EncodeDigitsThenPad` | VkApi/PasswordService.cs:17 | encoded text is digits followed by as many '=' as the last group lacks bytes: none when n mod 3 is 0, two when it is 1, one when it is 2 |
| `Base64.EncodeAlphabet` | VkApi/PasswordService.cs:17 | every character of encoded text is a digit or '=' |
| `Base64.DecodeEncode` | VkApi/PasswordService.cs:23-24 | decoding the encoding of any byte sequence gives back that sequence |
| `Strings.Split` | VkApi/PasswordService.cs:22 | Split returns at least one field and no field contains the separator |
| `Strings.JoinSplit` | VkApi/PasswordService.cs:22 | joining the fields of Split with the separator gives back the input |
| `Strings.SplitCount` | VkApi/PasswordService.cs:22 | Split returns one field more than the input has separators |
| `Strings.SplitNoSeparator` | VkApi/PasswordService.cs:24 | a string without the separator splits into itself alone, so there is no second field |
| `Strings.SplitFirst` | VkApi/PasswordService.cs:22-23 | the first field ends at the first separator |
| `Strings.SplitTwo` | VkApi/PasswordService.cs:22 | two separator-free fields joined by the separator split back into exactly those two |
| `Passwords.HashWithSalt` | VkApi/PasswordService.cs:29-37 | the derived key is KeySize (64) bytes, whatever the salt's length |
| `Passwords.SequenceEqual` | VkApi/PasswordService.cs:26 | true iff both keys have the same length and agree in every byte, i.e. are equal |
| `Passwords.EncodedKeyShape` | VkApi/PasswordService.cs:9-17 | a 64-byte salt or hash encodes to 88 characters: 86 digits and then "==" |
| `Passwords.EncodedNoSeparator` | VkApi/PasswordService.cs:17 | an encoded field never contains ';' |
| `Passwords.Encrypt` | VkApi/PasswordService.cs:13-18 | a credential is 177 characters with ';' at position 88 |
| `Passwords.Verify` | VkApi/PasswordService.cs:20-27 | a credential without ';' always throws, never answers true or false |
| `Passwords.EncryptFormat` | VkApi/PasswordService.cs:13-18 | a credential splits on ';' into exactly base64(salt) and base64(hash) |
| `Passwords.EncryptSaltInjective` | VkApi/PasswordService.cs:15-17 | credentials built from different salts differ, for the same password |
| `Passwords.VerifyFields` | VkApi/PasswordService.cs:20-27 | on a credential whose first two fields are a and b (any further fields ignored), Verify throws FormatException if either field is not Base64; otherwise it returns whether b's bytes equal the key derived from the candidate and a's bytes |
| `Passwords.VerifyNoSeparator` | VkApi/PasswordService.cs:22-24 | without ';', Verify throws: IndexOutOfRangeException if the whole string is Base64, FormatException otherwise |
| `Passwords.VerifyEncrypted` | VkApi/PasswordService.cs:20-27 | against a credential from Encrypt, Verify recovers the salt and hash and answers exactly whether the candidate's key equals the password's key |
| `Passwords.VerifyEncrypt` | VkApi/PasswordService.cs:20-27 | every password, the empty one included, verifies against its own credential, whatever the salt |
| `Passwords.VerifyWrongPassword` | VkApi/PasswordService.cs:26 | a candidate whose derived key differs from the password's key is answered false |
| `Queries.Where` | VkApi/UserService.cs:18 | the result holds exactly the rows satisfying the predicate, each no more often than in the table |
| `Queries.WhereCounts` | VkApi/UserService.cs:18 | each row satisfying the predicate occurs in the result as often as in the table, every other row not at all |
| `Queries.WhereOne` | VkApi/UserService.cs:18 | a one-row table is kept when its row satisfies the predicate and emptied otherwise |
| `Queries.WhereAppend` | VkApi/UserService.cs:18 | filtering a concatenation filters each part, so the rows keep the table's order |
| `Queries.Any` | VkApi/UserService.cs:32 | true iff some row satisfies the predicate |
| `Queries.FirstIndex` | VkApi/UserService.cs:24-25 | the position of the first row satisfying the predicate, or None iff there is none |
| `Models.NotBlockedIsActive` | VkApi/Models.cs:9-13 | with two state codes, "not Blocked" is the same as "Active" |
| `Models.SeedTables` | VkApi/Models.cs:53-59 | group id 1 is Admin and id 2 is User; state id 1 is Active and id 2 is Blocked; the lookups by code find those rows |
| `Models.ValidUsers` | VkApi/Models.cs:61-63 | in a table meeting the constraints, two positions holding the same login, or the same id, are the same position |
| `Models.InsertKeepsValid` | VkApi/Models.cs:61-63 | inserting a row with a new login, a larger id and seeded references keeps every login and id unique |
| `Models.SetStateKeepsValid` | VkApi/Models.cs:61-63 | setting one row's state to a seeded state keeps the table's constraints |
| `Models.AdminCount` | VkApi/UserService.cs:32 | the number of Admin rows is zero iff no row is an Admin |
| `Models.AdminCountAppend` | VkApi/UserService.cs:44-47 | an inserted row adds one Admin exactly when it is in group Admin |
| `Models.AdminCountSameGroups` | VkApi/UserService.cs:62-63 | changing rows without changing their groups keeps the number of Admins |
| `Users.UserService.constructor` | VkApi/UserService.cs:10-14 | a service over a table that meets the constraints, with the given key derivation |
| `Users.UserService.GetAll` | VkApi/UserService.cs:16-20 | the result holds exactly the stored rows whose state is Active, each as often as in the table, with their group and state |
| `Users.UserService.Get` | VkApi/UserService.cs:22-26 | a row is returned only if its login equals the given login and it is Active; null iff no such row exists |
| `Users.UserService.GetIsUnique` | VkApi/UserService.cs:24-25 | with unique logins, Get returns the one Active row holding the login |
| `Users.UserService.Create` | VkApi/UserService.cs:28-54 | refuses an Admin request while any Admin exists, leaving the table unchanged; refuses a taken login with no row added; otherwise appends exactly one row (fresh id, same login, encrypted password, group User, state Active, today's date) and returns it with ""; keeps the constraints and never changes the number of Admins |
| `Users.UserService.Delete` | VkApi/UserService.cs:56-65 | false with the table unchanged when no row has the login; otherwise true, that row's state becomes Blocked (also when it already was), nothing else changes, and afterwards Get returns null and GetAll omits the login |
| `Scenarios.FixtureRows` | VkApi.Tests/UserApiTest.cs:66-95 | the fixture's three rows meet the table's constraints |
| `Scenarios.CreateNewLogin` | VkApi.Tests/UserApiTest.cs:115-134 | creating a new login yields an Active User stamped with today's date |
| `Scenarios.GetExisting` | VkApi.Tests/UserApiTest.cs:136-151 | the fixture's Active admin is found by its login |
| `Scenarios.CreateTakenLogin` | VkApi.Tests/UserApiTest.cs:153-167 | creating an existing login fails with "Login has already taken" |
| `Scenarios.CreateSecondAdmin` | VkApi.Tests/UserApiTest.cs:169-184 | an Admin request while an Admin exists fails with "Admin has already created and must be single" |
| `Scenarios.FixtureNotBlocked` | VkApi.Tests/UserApiTest.cs:66-95 | filtering the fixture for rows that are not Blocked keeps its first two rows, in order |
| `Scenarios.ListActive` | VkApi.Tests/UserApiTest.cs:187-202 | the list is exactly the fixture's two Active rows, in table order, each once |
| `Scenarios.DeleteThenGet` | VkApi.Tests/UserApiTest.cs:205-219 | deleting an Active user succeeds, and the login is no longer found |
| `Scenarios.AliceLifecycle` | VkApi.Tests/UserApiTest.cs:115-219 | composes, on one login, the steps of the tests at lines 115-134, 153-167 and 205-219: create succeeds as User/Active/today; a second create of the same login fails with "Login has already taken"; delete succeeds; then Get finds nothing and the list is empty |

## Left out

- HTTP routing and status codes (`ApiEndpoints.cs`), host setup and dependency injection
  (`Program.cs`), and the interface declarations: none of these carry logic of the core.
- Entity Framework mechanics (async tasks, `Include`, change tracking, `SaveChangesAsync`).
  The tables are in-memory sequences. A row carries its group and state rows directly.
  `Users.UserService.Create` raises its `DbUpdateException` exactly when the unique login
  index is hit. Other database failures (store unavailable) are not modelled.
- Store order: `GetAll`, `Get` and `Delete` take rows in table order. The database gives no
  such promise, but with unique logins `Get` and `Delete` do not depend on it.
- Ids: the store assigns `nextId`, which exceeds every stored id. An id supplied in the
  request and the identity sequence advancing on a failed insert are not modelled. Nor is
  overflow of the 32-bit id.
- Null values: `Login` and `Password` are plain strings. A null password would make
  `Encrypt` throw. A unique index admits several null logins. Neither is modelled. A
  request's group is an optional row, and only its code is read.
- After a failed insert the abandoned entity stays tracked by its request-scoped context;
  this is not modelled.
- Passwords.HashWithSalt: PBKDF2, HMAC-SHA-512, the iteration count and the UTF-8 encoding of
  the password are abstracted into the `DeriveKey` parameter. The contract states only the
  64-byte output length and determinism, not the cryptographic strength.
- The random salt (`RandomNumberGenerator.GetBytes`) and `DateTime.Today` are parameters.
  So "two encryptions differ" is stated as `EncryptSaltInjective` (different salts give
  different credentials), not as a probability.
- `SequenceEqual`'s early exit, a timing side channel, is not modelled.
- Base64 decoding follows the documented behaviour of `Convert.FromBase64String`: it skips
  space, tab, CR and LF anywhere, requires a whole number of four-character groups, and
  allows up to two `=` at the very end (`DecodeAccepts`). The unused low bits of the last
  digit before padding are discarded, not checked. Non-ASCII input is rejected like any
  other non-digit.
- Concurrency: the check-then-insert race on the single-admin rule is outside this
  sequential model.
