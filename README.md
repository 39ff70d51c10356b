# Authentication core: a Dafny model

This project models four sequential pieces of an authentication back end written in Python and proves properties of them:

- **User registration and sessions** (`0x03-user_authentication_service/auth.py`, class `Auth`). A class `UserAuth.Auth` holds the user table as a `seq<User>`, one record field per column of `user.py`. Its methods change that table in place as `register_user`, `create_session` and `destroy_session` do. `valid_login` and `get_user_from_session_id` are read-only queries. The object invariant `Valid()` holds three facts: record ids are 1, 2, 3, … in insertion order; no two records share an email; no two records share a live session id. Every mutating method preserves it.
- **Path-exclusion gate** (`0x01-Basic_authentication/api/v1/auth/auth.py`, `require_auth`). `ApiAuth.RequireAuth` is the source's loop with its early return. It is proved equal to the predicate `AuthRequired`: "no excluded entry names the same path once both end in `/`". Lemmas show that this decision ignores a missing trailing slash, ignores the order of the entries, and can only be lifted by adding entries. The placeholders `authorization_header` and `current_user` always return `None`.
- **Basic header extraction** (`basic_auth.py`, `extract_base64_authorization_header`). A pure function strips the exact, case-sensitive `"Basic "` marker of section 2 of RFC 7617. It comes with its round trip.
- **Log redaction** (`0x00-personal_data/filtered_logger.py`, `filter_datum`). `FilteredLogger.RedactField` is one `re.sub` pass for one field: a left-to-right scan that replaces non-overlapping, shortest `field=…separator` matches. `FilteredLogger.FilterDatum` is the loop over the fields. It is proved equal to a left fold of that pass.

Modules: `Wrappers` (Option), `ApiAuth`, `BasicAuth`, `FilteredLogger`, `UserStore` (the user record and the two store operations the service calls), `UserAuth`.

The store module `db.py` is not part of this model. Its behaviour is stated in `UserStore` as the service uses it:
- `find_user_by` returns the first matching record, or `NoResultFound`.
- `add_user` appends a record whose id is the next integer.
- `update_user(id, session_id=…)` overwrites one column of the record with that id, or raises `NoResultFound`.

The bcrypt hasher is an argument of the constructor: `hashpw` and `checkpw`. The verifying property `checkpw(pw, hashpw(pw, salt))` is the predicate `HashVerifies`, required by the lemmas that need it. The salt and the `uuid4` session id are arguments of the operations that draw them. A new session id is required to be held by no record.

## Model

| member | source | states |
|---|---|---|
| `ApiAuth.RequireAuth` | 0x01-Basic_authentication/api/v1/auth/auth.py:14-37 | true when the path or the list is `None` or the list is empty; otherwise false exactly when some entry equals the path after a missing trailing `/` is added to both (`AuthRequired`); requires only what avoids `IndexError`: a non-empty path and no empty entry before a match |
| `ApiAuth.Normalize` | 0x01-Basic_authentication/api/v1/auth/auth.py:28-33 | the normalized string ends in `/`; an input already ending in `/` comes back unchanged, any other gets exactly one `/` appended |
| `ApiAuth.TrailingSlashOnPath` | 0x01-Basic_authentication/api/v1/auth/auth.py:28-29 | a path and the same path with its missing `/` appended get the same decision |
| `ApiAuth.TrailingSlashOnEntry` | 0x01-Basic_authentication/api/v1/auth/auth.py:32-33 | writing an excluded entry with or without its trailing `/` gets the same decision |
| `ApiAuth.OrderIrrelevant` | 0x01-Basic_authentication/api/v1/auth/auth.py:31-37 | two exclusion lists that are permutations of each other get the same decision |
| `ApiAuth.MoreExclusionsNeverRequire` | 0x01-Basic_authentication/api/v1/auth/auth.py:31-37 | if a path is excluded by a list, it is excluded by every list that contains all of its entries |
| `ApiAuth.AuthorizationHeader` | 0x01-Basic_authentication/api/v1/auth/auth.py:40-50 | the template returns `None` for every request |
| `ApiAuth.CurrentUser` | 0x01-Basic_authentication/api/v1/auth/auth.py:53-63 | the template returns `None` for every request |
| `BasicAuth.ExtractBase64AuthorizationHeader` | 0x01-Basic_authentication/api/v1/auth/basic_auth.py:13-35 | a result exists exactly when the header is a string starting with `"Basic "`; the header is then `"Basic "` followed by the result, so the result is the header's suffix of length `|header| - 6`; `None` and non-string headers give `None` |
| `BasicAuth.ExtractRoundTrip` | 0x01-Basic_authentication/api/v1/auth/basic_auth.py:35 | for every string `s`, the header `"Basic " + s` yields exactly `s`, untrimmed |
| `BasicAuth.OtherSchemesRefused` | 0x01-Basic_authentication/api/v1/auth/basic_auth.py:33-34 | `"basic …"` (wrong case) and `"Bearer …"` headers yield `None` |
| `BasicAuth.BareSchemeGivesEmpty` | 0x01-Basic_authentication/api/v1/auth/basic_auth.py:33-35 | the header `"Basic "` alone yields the empty string, not `None` |
| `FilteredLogger.FirstOccurrence` | 0x00-personal_data/filtered_logger.py:29 | the non-greedy `(.*?)separator`: the least index at or after the start where the separator occurs, or none when it occurs nowhere after it |
| `FilteredLogger.RedactField` | 0x00-personal_data/filtered_logger.py:29-30 | one `re.sub` pass for one field as a left-to-right scan of non-overlapping shortest matches; it has no contract of its own, and its behaviour is pinned by `SegmentRedacted`, `UnmatchedPrefixKept`, `NothingMatchedUnchanged` and `RedactFieldIdempotent` |
| `FilteredLogger.RedactFields` | 0x00-personal_data/filtered_logger.py:28-31 | the fields applied one after another in list order, each to the previous result (a left fold); `FilterDatum` is proved equal to it and `RedactFieldsAppend` states the order |
| `FilteredLogger.FilterDatum` | 0x00-personal_data/filtered_logger.py:13-31 | the loop's result is the left fold of the single-field substitution over the fields in list order; with no fields the message is returned unchanged |
| `FilteredLogger.RedactFieldsAppend` | 0x00-personal_data/filtered_logger.py:28-31 | folding one more field applies that field's substitution to the result of the shorter list (fields act one after another, in order) |
| `FilteredLogger.SegmentRedacted` | 0x00-personal_data/filtered_logger.py:29-30 | `field=value<sep>rest`, where the value does not reach an earlier separator, becomes `field=<redaction><sep>` followed by the redaction of `rest`: the match stops at the first separator and the text after it is kept and scanned on |
| `FilteredLogger.UnmatchedPrefixKept` | 0x00-personal_data/filtered_logger.py:28-31 | text at whose positions no `field=` starts is copied byte for byte ahead of the redacted rest |
| `FilteredLogger.NothingMatchedUnchanged` | 0x00-personal_data/filtered_logger.py:29 | a message in which no `field=` is followed by a separator, such as one whose `field=` has no later separator, is returned unchanged |
| `FilteredLogger.RedactFieldIdempotent` | 0x00-personal_data/filtered_logger.py:29-30 | for one field, when the redaction followed by the separator first reaches a separator at its end (for a one-character separator: the redaction contains none), redacting twice equals redacting once |
| `UserStore.FindUserBy` | 0x03-user_authentication_service/auth.py:60-65 | the lookup the service relies on: the first record matching the criterion, or none (`NoResultFound`) when no record matches |
| `UserStore.UpdateSessionId` | 0x03-user_authentication_service/auth.py:147-151 | the store update the service relies on: `NoResultFound` exactly when no record has the id; otherwise only the first such record's session id changes and the length is kept |
| `UserAuth.Auth.constructor` | 0x03-user_authentication_service/auth.py:44-45 | a new service has an empty store that satisfies the invariant |
| `UserAuth.Auth.RegisterUser` | 0x03-user_authentication_service/auth.py:47-71 | a known email gives the `ValueError` outcome and an unchanged store; an unused email appends exactly one record with the next id, that email, `hashpw(password, salt)` and no session or reset token, and returns it; the invariant (unique emails included) is kept |
| `UserAuth.Auth.ValidLogin` | 0x03-user_authentication_service/auth.py:73-92 | equals `LoginValid`: an unknown email gives false without error; a known one gives `checkpw(password, hash)` of its first record; the store is not modified |
| `UserAuth.Auth.CreateSession` | 0x03-user_authentication_service/auth.py:94-117 | an unknown email gives `None` and an unchanged store; a known one returns the fresh id and sets that record's session id to it, every other record unchanged; session ids stay unique |
| `UserAuth.Auth.GetUserFromSessionId` | 0x03-user_authentication_service/auth.py:119-136 | `None` gives `None`; otherwise the result is the first record holding that session id, or `None` when no record holds it |
| `UserAuth.Auth.DestroySession` | 0x03-user_authentication_service/auth.py:138-151 | the record with that id gets a null session id and nothing else changes; an unknown id leaves the store unchanged rather than failing |
| `UserAuth.RegisterThenValidLogin` | 0x03-user_authentication_service/auth.py:67-90 | after registering an unused email, logging in with that email and password succeeds |
| `UserAuth.RegisterThenWrongPasswordRejected` | 0x03-user_authentication_service/main.py:83-84 | after registering, a different password is refused, under a hasher that binds each hash to its password |
| `UserAuth.NewSessionResolves` | 0x03-user_authentication_service/auth.py:109-134 | after a record receives a fresh session id, that id resolves to the record |
| `UserAuth.ReplacedSessionRevoked` | 0x03-user_authentication_service/auth.py:112-136 | when session ids are unique, a record's previous session id resolves to nobody once it is overwritten by a new id or cleared |
| `UserAuth.NullSessionNeverResolves` | 0x03-user_authentication_service/auth.py:128-129 | a lookup of a null session id by itself would find a logged-out record, but the query answers `None` |
| `UserAuth.DestroySessionIdempotent` | 0x03-user_authentication_service/auth.py:147-151 | destroying a session twice leaves the same store as destroying it once |
| `UserAuth.LoginLogoutFlow` | 0x03-user_authentication_service/main.py:83-88 | on a fresh service: registration succeeds; the wrong password is refused and the right one accepted; the new session id resolves to exactly the registered record with that session id; after logout it resolves to nobody |

## Left out

- The password-reset flow (reset tokens, password update) is not part of the modelled `Auth` class, which ends at line 151; `main.py:55-74` only calls it over HTTP. The `reset_token` column is only carried in the record.
- `require_auth` matches paths exactly and has no wildcard patterns; `BasicAuth` has no Base64 decoding, colon splitting or user lookup. The model adds none of these.
- bcrypt (`hashpw`, `checkpw`, `gensalt`) and `uuid4` are not modelled; the hasher is a pair of function arguments and salts and session ids are arguments.
- UserAuth.RegisterThenWrongPasswordRejected: it assumes an idealised hasher (`HashBinds`). Real bcrypt only looks at the first 72 bytes of a password, so two long passwords sharing those bytes both verify.
- UserAuth.Auth.CreateSession: it requires the new session id to be held by no record. This stands for the uniqueness of `uuid4`, which holds with overwhelming probability, not with certainty.
- The store module `db.py` is not part of this model. These behaviours are assumed: `DB()` starts with an empty table, first-match lookup, ids 1, 2, 3, … with no deletion, and `update_user` by id raising `NoResultFound` for an unknown id. Store faults (I/O errors) and SQL-level details such as string column lengths are not modelled.
- Concurrency is not modelled: two concurrent registrations of one email, or two concurrent logins of one user, are not captured.
- ApiAuth.RequireAuth: Python raises `IndexError` on an empty path or an empty excluded entry that the loop reaches. The model requires these away instead of returning an error.
- `filter_datum` uses `re` without importing it, so as written every call with a non-empty field list raises `NameError`. The model gives the evident `re.sub` behaviour. It assumes field names and the separator contain no regular-expression metacharacters, the redaction contains no backslash escapes, and the message contains no line breaks.
- `RedactingFormatter` and `get_logger` are logging-framework plumbing and are left out. `get_logger` also refers to an undefined name.
- `main.py` (HTTP calls) and `app.py` (Flask routes) are transport. Their flow appears only in `UserAuth.LoginLogoutFlow`.
- The Flask `request` argument of the placeholders is a type parameter; the code never reads it.
- A non-string password fails on `.encode` in `register_user` (auth.py:28) and in `valid_login` for a known email (auth.py:88). Other non-string arguments go to the store, whose behaviour is not modelled. The model types every such argument as `string`, and the user id of `destroy_session` as `int`. `logging.disable` has no effect on behaviour.
