# PasswordManagerApi credential service, in Dafny

This project models `PasswordService`, the service layer of a small password
manager API. The service keeps a table of credential records. Each record has
an `Id`, a `Category`, an `App`, a `UserName` and an `EncryptedPassword`. The
service has five operations: list all records, get one by id, add, update and
delete. Get can also reveal the secret.

The "encryption" has no key. The service takes the ASCII bytes of the secret
and writes them as standard Base64. Decryption does the reverse. Anyone who
holds the stored text can recover the secret.

Modules, one per part of the source:

- `Results`: the outcome of a conversion that can fail. The only failure is
  malformed Base64, which .NET raises as a `FormatException`.
- `Ascii`: `Encoding.ASCII`. A character outside 0..127 becomes `'?'` (63) on
  the way to bytes. A byte of 128 or more becomes `'?'` on the way back.
- `Base64`: `Convert.ToBase64String` and `Convert.FromBase64String`, following
  section 4 of RFC 4648. It uses the standard alphabet and `=` padding.
  Decoding returns a failure value on malformed text.
- `SecretCodec`: the two conversion chains that `PasswordService.cs` writes
  inline. `Encrypt` is used at lines 43 and 60. `Decrypt` is used at lines 32-33.
- `Models`: the `Password` entity as a mutable class, plus `PasswordRow`, the
  values the store keeps for one record.
- `Service`: `PasswordService` as a class. It holds the persisted table as a
  `map<int, PasswordRow>` and holds `nextId`, the store's identity counter.
  Ids start at 1.
- `ServiceScenarios`: short call sequences on a service over an empty store,
  one for each of the repository's service tests. Each one states what the
  model guarantees for that sequence. Some state more than the test asserts.

The model makes these aliasing facts explicit:

- `Add` overwrites the secret on the caller's own object and returns that
  same object (`ensures r == password`). The caller therefore gets back the
  stored form, not the plaintext it sent.
- `GetById` with reveal writes the decrypted text into the entity it returns.
  The persisted table does not change, because the source never saves after
  that write.
- `Update` returns the stored record, which holds the encrypted secret.

Two facts about the code that the model states outright:

- A Base64 round trip loses nothing, but `Encoding.ASCII` turns every
  non-ASCII character into `'?'`. The round trip of a secret is therefore
  exact only for ASCII text. `SecretCodec.DecryptEncrypt` proves the general
  law, `Decrypt(Encrypt(s)) == Success(Sanitize(s))`. `SecretCodec.RoundTrip`
  proves the exact round trip for ASCII input.
- Nothing in the service checks that a stored secret decodes. Rows the
  service did not write may hold text that is not Base64, and revealing such
  a row throws. The model states the property as `SecretsDecrypt()`, which
  `Add`, `Update` and `Delete` preserve. While it holds, `GetById` never
  fails.

## Model

| member | source | states |
|---|---|---|
| `Ascii.GetBytes` | Service/PasswordService.cs:43 | one byte per character: an ASCII character's own code, and '?' (63) for any other character |
| `Ascii.GetString` | Service/PasswordService.cs:33 | one character per byte, and the result is ASCII: a byte below 128 gives the character with that code, and 128..255 give '?' |
| `Ascii.GetStringOfGetBytes` | Service/PasswordService.cs:33 | reading back the ASCII bytes of any text gives that text with each non-ASCII character replaced by '?' |
| `Ascii.AsciiRoundTrip` | Service/PasswordService.cs:33 | on ASCII text, reading back its ASCII bytes gives the text itself |
| `Base64.SextetChar` | Service/PasswordService.cs:43 | every 6-bit value is written as one ASCII character that is never the pad '=' |
| `Base64.CharValueOfSextetChar` | Service/PasswordService.cs:32-43 | the character written for a 6-bit value belongs to the Base64 alphabet and reads back as that same value, so distinct values get distinct characters |
| `Base64.CharValue` | Service/PasswordService.cs:32 | every alphabet character has a 6-bit value, and the encoder writes that value back as the same character |
| `Base64.Encode` | Service/PasswordService.cs:43 | n bytes encode to 4·⌈n/3⌉ ASCII characters, a multiple of four, and only the empty input gives empty text |
| `Base64.Decode` | Service/PasswordService.cs:32 | text whose length is not a multiple of four is rejected; a successful decode yields three bytes per group minus the padding count |
| `Base64.DecodeFinal` | Service/PasswordService.cs:32 | a successful decode of the last group of four characters yields 3, 2 or 1 bytes, three minus the count of trailing '=' |
| `Base64.DecodeFinalIffWellFormed` | Service/PasswordService.cs:32 | the last group decodes exactly when it is well-formed: four alphabet characters, or three and one '=', or two and two '=' |
| `Base64.DecodeGroups` | Service/PasswordService.cs:32 | decoding group by group yields three bytes per group minus the padding at the end |
| `Base64.DecodeEncode` | Service/PasswordService.cs:32-43 | decoding the Base64 of any byte sequence gives back that byte sequence |
| `Base64.QuadRoundTrip` | Service/PasswordService.cs:32-43 | a full group of three bytes is encoded to four alphabet characters that decode to the same three bytes |
| `Base64.DecodeSucceedsIffWellFormed` | Service/PasswordService.cs:32 | the decoder succeeds exactly on well-formed text: a multiple of four characters, all from the alphabet except at most two '=' at the end |
| `Base64.EncodeWellFormed` | Service/PasswordService.cs:43 | every encoder output is well-formed Base64 |
| `SecretCodec.Encrypt` | Service/PasswordService.cs:43 | the stored form of any secret is well-formed Base64, ASCII, and 4·⌈n/3⌉ characters long |
| `SecretCodec.Decrypt` | Service/PasswordService.cs:32-33 | decryption succeeds exactly when the stored text is well-formed Base64, and otherwise gives a format error; what it yields is ASCII |
| `SecretCodec.DecryptEncrypt` | Service/PasswordService.cs:32-43 | decrypting the stored form of any secret gives the secret with its non-ASCII characters replaced by '?' |
| `SecretCodec.RoundTrip` | Service/PasswordService.cs:41-46 | for an ASCII secret, decrypting its stored form gives the secret back exactly |
| `SecretCodec.EncryptInjective` | Service/PasswordService.cs:43 | two ASCII secrets with the same stored form are equal |
| `SecretCodec.DecryptDoubleEncrypt` | Test/PasswordServiceTests.cs:47-60 | a secret that is already in stored form, once stored, decrypts to the stored form of the original |
| `SecretCodec.EncryptMyPassword` | Test/PasswordServiceTests.cs:47-48 | the stored form of "myPassword" is "bXlQYXNzd29yZA==" |
| `Models.Password.constructor` | Models/Password.cs:8-20 | a caller-built entity carries the four given fields and the default id 0 |
| `Models.Password.FromRow` | Models/Password.cs:8-20 | an entity read from the store carries exactly that row's values |
| `Service.Least` | Service/PasswordService.cs:19 | helper for the model's id-ordered listing, not a step of the source: the least id of a non-empty set belongs to the set and is at most every member |
| `Service.Listing` | Service/PasswordService.cs:19 | the listing holds every row of the table exactly once, each row under its own id, in strictly ascending id order |
| `Service.PasswordService.constructor` | Service/PasswordService.cs:12-15 | a new service over an empty store has no rows, and the first id it assigns is 1 |
| `Service.PasswordService.List` | Service/PasswordService.cs:17-20 | returns all stored rows with secrets still encrypted, one per id, nothing else, in ascending id order; the table does not change |
| `Service.PasswordService.GetById` | Service/PasswordService.cs:22-39 | an unknown id gives null; a known id gives a new entity equal to the stored row, or with reveal equal to it except that the secret is decrypted; an undecodable secret gives a format error, not an entity; the table does not change; when all stored secrets decode, it never fails |
| `Service.PasswordService.Add` | Service/PasswordService.cs:41-47 | encrypts the caller's secret in place, gives the caller's own object a fresh id not yet in the table, stores exactly that one new row, keeps every other row, and returns the caller's object |
| `Service.PasswordService.Update` | Service/PasswordService.cs:49-65 | an unknown id gives null and leaves the table unchanged; a known id overwrites category, app and user name, re-encrypts the new secret, keeps the id and every other row, and returns the updated row |
| `Service.PasswordService.Delete` | Service/PasswordService.cs:67-78 | returns true exactly when the id was present; afterwards the table is the old table without that id |
| `ServiceScenarios.AddThenReveal` | Test/PasswordServiceTests.cs:26-33 | after adding an ASCII secret, getting the row by id with reveal gives back the secret |
| `ServiceScenarios.AddEchoesStoredForm` | Service/PasswordService.cs:41-46 | Add returns the caller's own object, now holding "bXlQYXNzd29yZA==" for "myPassword"; getting the row without reveal shows the same stored form |
| `ServiceScenarios.ListAfterTwoAdds` | Test/PasswordServiceTests.cs:36-42 | after two adds, listing returns two rows. As a multiset, they are exactly the two stored rows, with their ids, fields and encrypted secrets. No order is promised. The test checks only the count. |
| `ServiceScenarios.RevealOfStoredFormSecret` | Test/PasswordServiceTests.cs:45-61 | adding the stored form of a secret and then revealing it keeps the user name; decrypting the revealed text once more gives the original secret |
| `ServiceScenarios.UpdateThenReveal` | Test/PasswordServiceTests.cs:64-71 | after an update, the returned record carries the new user name, as the test checks. Beyond the test, revealing the row gives the new secret, not the old one. |
| `ServiceScenarios.DeleteThenGet` | Test/PasswordServiceTests.cs:74-87 | deleting an added row returns true and the row is gone; deleting id 999, which was never created, returns false |

## Left out

- The HTTP controller (`Controllers/PasswordsController.cs`) is not modelled. It only maps a null or false result to NotFound and a row to Ok or Created.
- Dependency injection, the database connection, CORS and Swagger (`Program.cs`) are not modelled. They are wiring.
- The EF Core context (`Data/DataContext.cs`) is abstracted as a map from id to row. `SaveChangesAsync` is treated as writing the map.
- The interface `Service/Interface/IPasswordService.cs` has no behaviour. It serves only as the list of operations.
- `async`/`await` are left out. Every operation runs to completion before the next one starts, so concurrent last-writer-wins races between requests are not modelled.
- `[Required]` validation runs in the framework before the service is called. The four text fields are therefore modelled as non-null strings.
- Storage failures, such as an unavailable database, are left out. They surface as exceptions from the framework, not from this code.
- Service.PasswordService.GetById: each call works as if its store context were scoped to the request. It returns a newly materialised entity. EF's identity map is not modelled. With one context shared across calls, `FindAsync` returns the same tracked object that `Add` returned, so revealing changes that object too. A later `SaveChangesAsync` on that context would then persist the plaintext.
- Service.PasswordService.Update: returns a newly materialised entity rather than EF's tracked instance. Marking the entry `Modified` (line 62) is part of writing the row.
- Service.PasswordService.List: returns row values, not entity objects. The source does not order the query, so the ascending-id order is the model's choice of the store's native order.
- Service.PasswordService.Add: requires the incoming id to be 0, the default. The source gives the store an explicit identity value otherwise, and SQL Server rejects that.
- Service.PasswordService.Add: ids are unbounded integers. Overflow of the store's 32-bit identity column is not modelled.
- Base64.Decode: `Convert.FromBase64String` skips whitespace inside its input, and this decoder does not. Text written by `Encrypt` contains no whitespace.
- Base64.Decode: the unused low bits of a padded final group are ignored rather than checked. As a result, non-canonical text such as "QR==" decodes.
- Ascii.GetBytes: .NET strings are UTF-16. Dafny strings are sequences of Unicode scalar values, so unpaired surrogates cannot be represented. A character outside the Basic Multilingual Plane becomes a single '?'.
