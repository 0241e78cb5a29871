# Account registration store — Dafny model

A model of the registration logic of `UserDatabase` in `backendStore.py`: a
small console program that keeps accounts and transcribed texts in two
sqlite tables. The model covers

- the username format check, the pattern `^[a-zA-Z][a-zA-Z0-9_]{4,15}$`
  applied with Python's `re.match` (module `Username`);
- the credential written to the `password` column: SHA-256 of a fresh
  16-byte salt followed by the UTF-8 encoding of the password (modules
  `Utf8` and `Credential`);
- one registration step on an abstract store made of two immutable row
  sequences, `accounts` (id, username, digest) and `text_speech`
  (id, user_id, transcribed text) (module `Store`);
- the `add_user` loop as a fold over a finite sequence of operator entries,
  the same loop written as `while true` with `continue` and `break`, and
  `initialize` (module `Session`);
- `CREATE TABLE IF NOT EXISTS` for the two tables, with sqlite's
  comparison of table names that ignores the case of ASCII letters
  (modules `Schema` and `Ascii`);
- concrete sessions (module `Scenarios`): the rejected usernames `ab`,
  `1abcde` and `abc def`; `validuser1` registered and answered `N`; `bad`
  then `validuser2`.

Modelling choices:

- The username check follows the regular expression literally, including
  Python's `$`, which also matches just before one newline ending the
  string: `"validuser1\n"` is accepted. `input()` strips the line
  terminator, so on what the program can actually read the check is the
  plain-words rule "5 to 16 characters, an ASCII letter first, then ASCII
  letters, digits and underscores" (`Username.AcceptedIffPlainFormat`).
- SHA-256 is the `sha256` field of `Store.Env`, any function returning 32
  bytes. The salt for the i-th entry is `salts[i]`, any 16 bytes.
- The ids sqlite assigns (`lastrowid` for the account row, and the
  transcript row's own id) come from the `accountId` and `transcriptId`
  fields of `Store.Env`, given the rows already in the table. The key and
  foreign-key invariants are proved for every choice that returns an id
  not yet in use (`Store.FreshIds`).
- The loop ends either with `Quit` (an accepted entry answered "n" or "N")
  or with `OutOfInput` when the entries run out; in the program the latter
  is an `EOFError` out of `input()`, after the rows inserted so far were
  committed.
- The salt is drawn, hashed and then dropped: it is stored nowhere, so a
  stored digest cannot later be checked against a password. The model
  keeps this behaviour as written (`Store.SaltNotStored`).

## Model

| member | source | states |
|---|---|---|
| Username.AcceptedIff | backendStore.py:68-76 | the regular expression accepts a string iff it has 5–16 characters, an ASCII letter first and only ASCII letters, digits and `_` after it — or is such a string followed by one `"\n"` |
| Username.AcceptedIffPlainFormat | backendStore.py:71-76 | on newline-free input, what `input()` returns, acceptance is exactly the plain-words format |
| Username.NewlineTolerated | backendStore.py:68 | every well-formed name is accepted both bare and with one trailing newline (Python's `$`) |
| Utf8.DecodeEncode | backendStore.py:82 | strict UTF-8 decoding recovers the password from `password.encode()` |
| Utf8.EncodeInjective | backendStore.py:82 | distinct passwords encode to distinct byte strings |
| Utf8.EncodeAscii | backendStore.py:82 | an ASCII password encodes to its own code points, one byte each |
| Credential.HashInputInjective | backendStore.py:81-82 | salt and password can both be recovered from the hash input |
| Credential.DigestIsNotPlaintext | backendStore.py:82-88 | the stored 32-byte value differs from the password's bytes whenever these are not 32 bytes long, whatever the hash |
| Credential.Hunter2NotStored | backendStore.py:82-88 | the password "hunter2" is never stored as its own bytes |
| Store.Register | backendStore.py:76-95 | a rejected username leaves both tables unchanged; an accepted one keeps all existing rows and appends exactly one account (the username and the digest of salt + password) and exactly one transcript whose `user_id` is that account's id and whose text is the entered text |
| Store.RegisterChangesIff | backendStore.py:76-95 | the store changes iff the username is accepted |
| Store.RegisterPreservesWellFormed | backendStore.py:87-93 | with fresh ids, a registration keeps both primary keys unique and every transcript pointing at an existing account |
| Store.RegisterPreservesPaired | backendStore.py:89-93 | a registration keeps the i-th transcript tied to the i-th account |
| Store.PairedIsLinked | backendStore.py:58-62 | paired rows satisfy the declared foreign key `text_speech.user_id → accounts.id` |
| Store.SaltNotStored | backendStore.py:81-88 | the store depends on the salt only through the digest: the salt itself is kept nowhere |
| Session.QuitIff | backendStore.py:100-102 | the answer ends the loop iff it is "n" or "N"; every other answer, the empty one included, continues |
| Session.Run | backendStore.py:70-102 | the loop only appends; it ends with `Quit` iff some accepted entry is answered "n", and then right after the first such entry; otherwise it reads every entry |
| Session.RunRecordsAccepted | backendStore.py:70-95 | the loop adds exactly one account and one transcript per accepted entry it read, in order, with that entry's username and text |
| Session.AllRejectedChangesNothing | backendStore.py:75-78 | when every username is rejected, neither table changes and the loop never stops on its own |
| Session.RejectedRestarts | backendStore.py:75-78 | a rejected entry leaves the store unchanged and the loop continues with the next entry without consulting the answer |
| Session.AcceptedStopsIff | backendStore.py:100-102 | after an accepted username the loop stops on that round iff the answer is "n" or "N" |
| Session.RunPreservesWellFormed | backendStore.py:85-95 | with fresh ids, the loop keeps keys unique and the foreign key intact |
| Session.RunPreservesPaired | backendStore.py:87-95 | the loop keeps each transcript beside the account registered with it |
| Session.RunFromEmpty | backendStore.py:85-95 | from an empty store with fresh ids, every transcript references an existing account and keys are unique |
| Session.AddUser | backendStore.py:66-102 | the `while True` loop, with `continue` on a rejected name, `break` on "n" and an exit when the entries run out, computes exactly the fold `Run` |
| Session.Initialize | backendStore.py:104-109 | after `initialize` both tables exist, exactly the absent table names are added, tables that existed are unchanged, earlier rows are kept, and the rows added are those of the registration loop: one account and one transcript per accepted entry it read, in order |
| Session.SecondSessionKeepsSchemaAndRows | backendStore.py:47-64 | a second session leaves the schema as the first left it and keeps all its rows |
| Schema.CreateTableIfNotExists | backendStore.py:49-52 | afterwards a table of that name exists; when one already existed under that name in any letter case the catalog is unchanged, whatever definition is asked for; otherwise exactly that name is added, with the requested definition; existing tables are never altered |
| Schema.Setup | backendStore.py:107-108 | after the two creations both tables exist (up to letter case); exactly the names of the absent tables are added, with the program's definitions; existing tables are unchanged, and nothing changes when both already existed |
| Schema.CreateExistingIsNoOp | backendStore.py:58-62 | creating a table that already exists, in any letter case, leaves the schema unchanged |
| Schema.OtherCaseBlocksCreation | backendStore.py:49 | an existing table `Accounts` makes the creation of `accounts` a no-op |
| Schema.CreateIdempotent | backendStore.py:47-64 | issuing a creation twice equals issuing it once |
| Schema.SetupIdempotent | backendStore.py:104-108 | running both creations again changes nothing |
| Scenarios.UsernameExamples | backendStore.py:68-76 | "ab", "1abcde" and "abc def" are rejected and "validuser1" is accepted |
| Scenarios.SingleRegistration | backendStore.py:70-102 | entry ("validuser1", "Secret123", "hello world", "N") yields one account with a 32-byte digest and one linked transcript "hello world", and the loop ends |
| Scenarios.RejectedThenRegistered | backendStore.py:70-102 | "bad" then "validuser2" yields exactly one account, "validuser2", and one linked transcript |

## Left out

- The sqlite connection, cursor, commit and close (backendStore.py:34-45, 95, 104-113): external database I/O; the store is abstract and a registration's two rows appear together.
- The exception paths that print an `sqlite3.Error` and carry on (backendStore.py:38-39, 44-45, 53-54, 63-64, 97-98, 110-111), including an account insert that succeeds followed by a failing transcript insert: these depend on sqlite's transaction behaviour, which is not visible here.
- sqlite's rowid policy and its foreign-key enforcement (off unless enabled): ids come from `Store.Env`; the foreign key is proved to hold by construction instead of being enforced.
- Console prompts and messages (backendStore.py:71-73, 77, 96, 100): interactive I/O, replaced by a finite sequence of entries.
- `hashlib.sha256` and `secrets.token_bytes` (backendStore.py:81-83): library calls, kept as parameters; so "two registrations of the same password store different digests" cannot be stated.
- Session.IsQuit: lowers ASCII letters only, where Python's `str.lower` is Unicode-wide; no other code point lowercases to "n", so the test decides the same.
- Utf8.Encode: Python strings may hold lone surrogates, on which `encode()` raises; a Dafny `char` cannot be a surrogate.
- Schema.Table: records declared column types only; the digest is bytes stored in a column declared `TEXT`, which sqlite keeps as a BLOB.
- Ids are unbounded integers; sqlite's are 64-bit.
- Module-level startup (backendStore.py:117-121) and the module docstring, which describes classes the file does not contain.
