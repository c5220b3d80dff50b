# Personal-data redaction and user registration, modelled in Dafny

This project models three pieces of a small Python back end:

- **Log-message redaction** (`filter_datum` and `RedactingFormatter.format`).
  For each field name `f`, `filter_datum` runs `re.sub` with the pattern
  `(?<=\bf=)([^sep]*)`. Wherever `f=` stands at a word boundary, the run of
  non-separator characters after it is replaced by the redaction string.
  - `FilteredLogger.Scan` is the substitution written as a left-to-right
    scanner over the message. It follows the corrected matching rule of the
    Findings table below: no empty match is taken right where a match
    ended. `FilteredLogger.ScanAsWritten` is the rule of Python 3.7 and
    later.
  - `FilteredLogger.FilterDatum` is the loop over the fields.
  - `RedactingFormatter.Format` rewrites `record.msg` in place.
  - `RedactionSegments` gives an independent description of the same
    redaction. Split the message at the separator. In each segment keep the
    text up to the first key and replace the rest by the redaction. The
    module proves the scanner equal to this description, and from it that
    redaction is idempotent.
- **The user table** (class `DB`): an in-memory table of user records in
  insertion order.
  - `add_user` appends a record.
  - `find_user_by` returns the first record matching keyword criteria.
  - `update_user` assigns named attributes of the record with a given id.
  - The errors `NoResultFound`, `InvalidRequestError` and `ValueError` are
    modelled as values of `DbError`.
- **Registration** (class `Auth`): `register_user` looks the email up. It
  raises `ValueError` when the email is found. Otherwise it hashes the
  password and adds a record. Hashing is an abstract method that may return
  any string.

Files:

- `wrappers.dfy`: the `Option`, `Result` and `Outcome` datatypes.
- `filtered_logger.dfy`: the redaction and the formatter.
- `redaction_segments.dfy`: the segment-wise reference and idempotence.
- `redaction_examples.dfy`: worked messages, and the counterexample for the
  finding below.
- `user_db.dfy`: the user table.
- `auth.dfy`: registration.

## Model

| member | source | states |
|---|---|---|
| FilteredLogger.RunEnd | 0x00-personal_data/filtered_logger.py:34 | The greedy `[^sep]*` run stops at the first separator at or after its start, or at the end of the message. It holds no separator. |
| FilteredLogger.KeysMeaning | 0x00-personal_data/filtered_logger.py:34 | A match may start exactly where the lookbehind `\bf=` holds: `f=` ends there, and the character before `f`, if any, is not a word character. |
| FilteredLogger.KeyAtPrefix | 0x00-personal_data/filtered_logger.py:34 | Whether the lookbehind holds at a position depends only on the text before it. |
| FilteredLogger.CopyUntilKey | 0x00-personal_data/filtered_logger.py:34 | Text at which no match starts is copied unchanged. |
| FilteredLogger.FirstKeyReplaced | 0x00-personal_data/filtered_logger.py:34 | Under the corrected matching rule: at the first key, the text before it, including `f=`, is kept. The value up to the next separator is replaced by the redaction, and the separator is kept. Scanning resumes after the separator, so a `f=` inside the value is swallowed, not matched again. |
| FilteredLogger.NoKeyUnchanged | 0x00-personal_data/filtered_logger.py:34 | A message with no key for the field is returned unchanged. |
| FilteredLogger.RedactWithoutKeys | 0x00-personal_data/filtered_logger.py:31-36 | With an empty field list, or when no listed field has a key, the message comes back unchanged. |
| FilteredLogger.FilterDatum | 0x00-personal_data/filtered_logger.py:29-36 | The loop leaves the message substituted once per field, in list order. An empty field list returns the message itself. |
| FilteredLogger.RedactingFormatter.constructor | 0x00-personal_data/filtered_logger.py:46-49 | The formatter keeps the field list it is given. |
| FilteredLogger.RedactingFormatter.Format | 0x00-personal_data/filtered_logger.py:51-56 | `record.msg` is replaced by its redaction with `"***"` and `";"`. |
| FilteredLogger.PiiFieldsAreFieldNames | 0x00-personal_data/filtered_logger.py:59 | The five PII field names are words, so the formatter built with them can redact them. |
| RedactionSegments.SubBySegments | 0x00-personal_data/filtered_logger.py:34 | One substitution equals the segment-wise reference. In each separator-free segment, everything from the first key to the segment's end becomes the redaction. |
| RedactionSegments.RedactBySegments | 0x00-personal_data/filtered_logger.py:29-36 | The whole loop equals the segment-wise reference applied for every field, when the redaction holds no separator. |
| RedactionSegments.RedactSegmentTwice | 0x00-personal_data/filtered_logger.py:34 | In one segment, redacting a field twice is redacting it once. |
| RedactionSegments.RedactSegmentKeepsFixed | 0x00-personal_data/filtered_logger.py:31-35 | Redacting one field does not give another field a new key, when the redaction holds no `=`. |
| RedactionSegments.RedactIdempotent | 0x00-personal_data/filtered_logger.py:29-36 | Redacting an already-redacted message changes nothing. This holds for word field names, a separator that is not a word character, `=` or a backslash, and a redaction free of `=` and of the separator. |
| RedactionSegments.FormatIdempotent | 0x00-personal_data/filtered_logger.py:42-56 | With the formatter's `"***"` and `";"`, formatting a record a second time leaves its message as it was. |
| RedactionExamples.WordBoundarySample | 0x00-personal_data/filtered_logger.py:34 | `username=bob;name=al` becomes `username=bob;name=***`: the `name=` inside `username=` is not at a word boundary. |
| RedactionExamples.EmptyValueSample | 0x00-personal_data/filtered_logger.py:34 | An empty value is redacted too: `name=;x` becomes `name=***;x`. |
| RedactionExamples.AsWrittenDoublesRedaction | 0x00-personal_data/filtered_logger.py:33-35 | Under `re.sub` as Python 3.7 and later run it, `name=x name=` becomes `name=******`. |
| RedactionExamples.AsWrittenOnDoubled | 0x00-personal_data/filtered_logger.py:33-35 | Run again on `name=******`, that substitution gives `name=***`. |
| RedactionExamples.AsWrittenNotIdempotent | 0x00-personal_data/filtered_logger.py:33-35 | That substitution changes its own output again. |
| RedactionExamples.CorrectedRedactsOnce | 0x00-personal_data/filtered_logger.py:33-35 | The corrected substitution turns `name=x name=` into `name=***` and leaves `name=***` alone. |
| UserDb.DB.constructor | 0x03-user_authentication_service/db.py:17-23 | A new store has an empty user table. |
| UserDb.NextId | 0x03-user_authentication_service/db.py:37-39 | The id the store assigns on insert is larger than every integer id in the table and one more than the largest of them, or 1 when the table holds no integer id. |
| UserDb.DB.AddUser | 0x03-user_authentication_service/db.py:34-40 | Exactly one record is appended and returned. It has the given email and hashed password, a fresh id, and no session id or reset token. Earlier records are unchanged. |
| UserDb.Get | 0x03-user_authentication_service/db.py:62 | A record has an attribute exactly when the name is one of its five columns. |
| UserDb.Set | 0x03-user_authentication_service/db.py:63 | Assigning an attribute gives it the new value and leaves the other four unchanged. |
| UserDb.IndexOfFirst | 0x03-user_authentication_service/db.py:46 | The result is the position of the first record, in table order, that equals every criterion, or none when no record does. |
| UserDb.ValidPrefixLen | 0x03-user_authentication_service/db.py:61-65 | Returns the position of the first name that is not an attribute, or the length of the list when every name is one. |
| UserDb.DB.FindUserBy | 0x03-user_authentication_service/db.py:42-54 | `InvalidRequestError` exactly when some criterion names no attribute. `NoResultFound` exactly when all names are valid and no record matches. When all names are valid and some record matches, the result is the first matching record in table order. No other error is raised. |
| UserDb.DB.UpdateUser | 0x03-user_authentication_service/db.py:56-68 | With no record of that id, `NoResultFound` is raised and the table is unchanged. Otherwise only that record changes. It receives the assignments up to the first name it lacks. `ValueError` names that attribute, and without one the update succeeds. |
| UserDb.SetAllGet | 0x03-user_authentication_service/db.py:60-66 | An update sets exactly the named attributes, each to the value given for it. Every other attribute keeps its value. |
| UserDb.IndexOfFirstAppend | 0x03-user_authentication_service/db.py:46 | A matching record appended to a table with no match becomes the first match. |
| AuthService.MatchesEmail | 0x03-user_authentication_service/auth.py:29 | The lookup `email=...` matches exactly the records with that email. |
| AuthService.Auth.constructor | 0x03-user_authentication_service/auth.py:22-23 | A new service owns a new, empty store. |
| AuthService.Auth.RegisterUser | 0x03-user_authentication_service/auth.py:25-35 | It fails exactly when the email is already in the table, and then the table is unchanged. Otherwise it appends and returns one record carrying the email and the hash produced. `find_user_by(email=...)` then returns that record, and email uniqueness is preserved. |
| AuthService.RegisterTwice | 0x03-user_authentication_service/auth.py:28-35 | Registering the same email twice in a row makes the second call raise `ValueError`. |

## Left out

- `get_db` (filtered_logger.py:12-26) is left out. It reads environment variables and opens a MySQL connection, and its import is commented out.
- `get_logger` and the base `logging.Formatter` rendering are left out. They cover the format string, timestamps and level names; only the rewrite of `record.msg` is modelled.
- FilteredLogger.FilterDatum requires word-character field names and no backslash in the separator or the redaction. Other field names would be read as regular-expression syntax, and a backslash is an escape in the pattern or the replacement. General regular-expression semantics are not modelled.
- FilteredLogger.KeyAt treats only ASCII letters, digits and `_` as word characters. Python's `\b` on `str` also counts other Unicode letters.
- FilteredLogger.Sub, and with it FilteredLogger.FilterDatum, FilteredLogger.RedactingFormatter.Format and the idempotence lemmas, follow the corrected matching rule of the Findings table, not Python 3.7's: they take no empty match right where a match ended. They differ from the program only on a value that ends in a word-boundary `f=`, where Python 3.7 and later write the redaction twice.
- FilteredLogger.RedactingFormatter.Format does not model the returned formatted string, only the new `record.msg`.
- SQLAlchemy is left out: the engine, the sqlite file, `drop_all`/`create_all`, the memoized session, and commit and rollback.
  - A failed `update_user` keeps its earlier assignments on the record, as the in-session object does.
  - Column type checks and integrity errors raised at commit are not modelled.
- UserDb.DB.UpdateUser treats a name as an attribute only if it is one of the five columns. `hasattr` on an ORM object also accepts methods and other non-column attributes.
- UserDb.DB.AddUser stores records by value. Records returned to callers are copies, so ORM identity and aliasing are not modelled.
- UserDb.NextId follows SQLite's rule for a new row id: one more than the largest integer id, or 1 when there is none. Ids changed by `update_user` to a non-integer are ignored by that rule, and SQLite's random choice once the largest possible row id is in use is not modelled.
- AuthService.HashPassword has no contract: bcrypt and its random salt are foreign, and the hash is stored as text.
- The uniqueness check inside the store (a duplicate email refused by `add_user`) is not modelled: `add_user` in db.py performs no such check. Uniqueness is guarded by `register_user` only, and `AuthService.Auth.RegisterUser` proves that it preserves it.
- The lookup `find_user_by` accepts any number of criteria, as db.py does, rather than exactly one.
- `app.py` is left out. It is HTTP routing and response formatting.
- Sessions, login validation and reset tokens are left out: the modelled code does not implement them.

## Findings

| source | as written | input that shows it | evidently intended | confidence | as-written member | corrected member |
|---|---|---|---|---|---|---|
| 0x00-personal_data/filtered_logger.py:33-35 | Since Python 3.7, `re.sub` also takes an empty match right after a non-empty one. When a value ends in a word-boundary `f=`, before a separator or at the end of the message, the redaction is written twice, and redacting the output again changes it. | fields `["name"]`, message `name=x name=`, separator `;`: the result is `name=******`, and a second pass gives `name=***` | One redaction per value (`name=***`), and a second pass changes nothing | medium, not executed | FilteredLogger.SubAsWritten (RedactionExamples.AsWrittenNotIdempotent) | FilteredLogger.Sub (RedactionSegments.RedactIdempotent) |
