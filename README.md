# Password-reset tokens and input validators, in Dafny

This project models two parts of a Flask user-authentication API.

The first is the password-reset token lifecycle of `PasswordResetService`. A reset request for an e-mail address finds the user. It then draws a 32-character token from letters and digits. Next it deletes the user's earlier tokens and inserts the new one, unused, with an expiry one hour ahead. Finally it mails the link. The reply for an unknown address is the same as for a link that was stored and sent. A failed store or a failed delivery gets an error reply instead, so those two replies do show that the address belongs to an account. A reset checks the token, then the password length, then stores the new hash and marks the token used. There is also a read-only token check and a cleanup that deletes used and expired rows and reports how many it deleted.

The second part is the input validators of `UserValidator`: the e-mail regular expression, the password and name length rules, and the ordered list of errors for a registration payload.

Files:

- `wrappers.dfy` holds `Option` and `Result`.
- `token_table.dfy` (module `TokenTable`) holds the two tables as values:
  - `password_reset_tokens` is a sequence of rows in insertion order;
  - `users` is a map from id to record.

  Each SQL statement the service issues is a function there:
  - `RemoveUser` is the DELETE of a user's tokens. `Issue` is that DELETE followed by the INSERT of the new row. `InsertAccepted` says whether the INSERT goes through. `StoreOutcome` is the table after both, for every combination of failures.
  - `Select` is the SELECT that joins a token's row with its user.
  - `MarkUsed` and `SetPasswordHash` are the two UPDATEs.
  - `CountStale` is cleanup's SELECT COUNT, and `Sweep` is its DELETE.

  `Lookup` is not a statement. It is the checks the service applies in Python to the row the SELECT returns. The lifecycle guarantees are lemmas about these functions.
- `reset_service.dfy` (module `ResetService`) holds the class `PasswordResetService`. Its fields are the token table, the user table and the clock. Each operation of the service is a method that updates those fields. Each method is specified by the functions of `TokenTable`.
- `validators.dfy` (module `Validators`) holds the validators. They are predicates, except `validate_user_data`, which appends to a list and is a method.

The schema's `UNIQUE(token)` constraint is the class invariant `Valid()`. Keeping at most one row per user is not assumed of the stored table. Instead, every operation is proved to preserve it.

Three behaviours of the code shape the model:

- `reset_password` checks the token before the password length. A short password with an invalid token is therefore reported as an invalid token.
- `_store_reset_token` runs its DELETE and INSERT outside a transaction. When the INSERT fails, the user's earlier tokens are already gone and stay gone.
- `reset_password` ignores whether marking the token used succeeded. "A token works once" therefore holds only when that UPDATE went through (`ResetTwice`). When it fails, the reset still succeeds and the same token works again (`ReplayAfterFailedMark`).

The module-level `validate_email`, `validate_password` and `validate_name` in `utils/validators.py` call the `UserValidator` methods directly. Each pair is therefore the same predicate here.

Time is a whole number of seconds. A token whose expiry equals the current second is still accepted.

## Model

| member | source | states |
|---|---|---|
| TokenTable.RemoveUser | services/password_reset_service.py:152-155 | The DELETE keeps exactly the rows that belong to other users. |
| TokenTable.Issue | services/password_reset_service.py:151-163 | After the DELETE and INSERT, the table holds the other users' rows plus the new row: the user's, unused, with the given expiry, and last in order. |
| TokenTable.InsertAccepted | services/password_reset_service.py:158-163 | The INSERT goes through exactly when it raises no storage error and the token is not already in the table the DELETE left (the schema's `UNIQUE(token)`). It carries no ensures; `StoreResetToken` states what follows from it. |
| TokenTable.StoreOutcome | services/password_reset_service.py:145-168 | Whatever fails, other users' rows are exactly as before. Once the DELETE has gone through, the only row the user can own is the new token, unused, with the given expiry. |
| TokenTable.IssueReplacesUserRows | services/password_reset_service.py:151-163 | After the DELETE and INSERT, the user owns exactly one row: the new token, unused, with the given expiry. Every other user's rows are exactly as before. |
| TokenTable.IssueKeepsWellFormed | services/password_reset_service.py:151-163 | With unique tokens before, both outcomes keep tokens unique: the DELETE alone, and the DELETE plus INSERT when the new token is not left in the table. Both keep one row per user when that held before. |
| TokenTable.RemoveUserKeepsOneRowPerUser | services/password_reset_service.py:152-155 | Deleting a user's rows keeps at most one row per user. |
| TokenTable.IssueSupersedes | services/password_reset_service.py:151-155 | Once a new token is issued for the owner of an earlier token, the earlier token is gone from the table and is not accepted. This holds whether or not the INSERT succeeded. |
| TokenTable.IssuedTokenLifetime | services/password_reset_service.py:149-163 | A freshly issued token stands for its user when the user exists and the clock has not passed the expiry. Otherwise it stands for no one. |
| TokenTable.Select | services/password_reset_service.py:174-183 | The joined query finds a row only if that row is in the table, carries the token and has an existing user. It finds none only when every row with the token belongs to a missing user. |
| TokenTable.SelectUnique | services/password_reset_service.py:174-180 | With unique tokens, the query returns the token's row exactly when its user exists. |
| TokenTable.Lookup | services/password_reset_service.py:170-204 | An accepted token has a row in the table with that token and owner that is unused and not past its expiry. The user returned carries that owner's name and e-mail. |
| TokenTable.LookupSpec | services/password_reset_service.py:182-201 | With unique tokens, a token whose row is in the table is accepted if and only if its user exists, the row is unused and now <= expiry. What it returns is that row's joined user. |
| TokenTable.MarkUsed | services/password_reset_service.py:220-223 | The length and order of the table are kept. Exactly the rows carrying the token get used = true, and every other row is unchanged. |
| TokenTable.MarkUsedRejects | services/password_reset_service.py:217-226 | After marking, the token is rejected at any time and whoever the users are. |
| TokenTable.MarkUsedIdempotent | services/password_reset_service.py:220-223 | Marking the same token twice gives the same table as marking it once. |
| TokenTable.MarkUsedKeepsOtherTokens | services/password_reset_service.py:220-223 | Marking one token changes the answer for no other token. |
| TokenTable.MarkUsedKeepsWellFormed | services/password_reset_service.py:220-223 | Marking keeps tokens unique and keeps one row per user. |
| TokenTable.SetPasswordHash | services/password_reset_service.py:209-212 | The UPDATE keeps the same user ids, names and e-mails. It replaces the hash of the user with that id, if there is one, and no other hash. |
| TokenTable.LookupIgnoresPasswordHash | services/password_reset_service.py:209-212 | Changing a user's password hash changes no token's answer. |
| TokenTable.CountStale | services/password_reset_service.py:237-242 | The count is at most the number of rows, and it is 0 exactly when no row is used or expired. |
| TokenTable.Sweep | services/password_reset_service.py:245-248 | The DELETE keeps exactly the rows that are unused and not past their expiry. |
| TokenTable.SweepCount | services/password_reset_service.py:237-248 | The number of rows counted as used or expired equals the number of rows the DELETE removes. |
| TokenTable.SweepKeepsLookup | services/password_reset_service.py:245-248 | Cleanup keeps tokens unique. At the time it runs, it changes no token's answer, so every valid token survives. |
| TokenTable.SweepKeepsOneRowPerUser | services/password_reset_service.py:245-248 | Cleanup keeps one row per user. |
| ResetService.GenerateResetToken | services/password_reset_service.py:138-143 | The token has 32 characters, each an ASCII letter or digit. |
| ResetService.PasswordResetService.constructor | services/password_reset_service.py:21-24 | The service starts over the given tables and clock, with unique tokens. |
| ResetService.PasswordResetService.FindUserByEmail | services/password_reset_service.py:38-39 | A user is found if and only if some user has exactly this e-mail. The user found is that user, with its name. |
| ResetService.PasswordResetService.StoreResetToken | services/password_reset_service.py:145-168 | The new table is the DELETE then INSERT outcome. A failed DELETE changes nothing. A failed or colliding INSERT leaves the user's rows deleted. The result is true exactly when the INSERT went through, and then the token stands for its user. Unique tokens and one row per user are kept. |
| ResetService.PasswordResetService.MarkTokenAsUsed | services/password_reset_service.py:217-226 | When the UPDATE goes through, the table is the marked table and the token is rejected from then on. When it fails, nothing changes and the result is false. |
| ResetService.PasswordResetService.UpdateUserPassword | services/password_reset_service.py:206-215 | The user's hash is replaced when the UPDATE goes through, and nothing changes otherwise. No token's answer changes. |
| ResetService.PasswordResetService.CleanupExpiredTokens | services/password_reset_service.py:228-253 | It deletes exactly the used or expired rows and returns how many it deleted. On a storage error it returns 0 and deletes nothing. No token's answer changes, and both table invariants are kept. |
| ResetService.PasswordResetService.CheckResetToken | services/password_reset_service.py:115-136 | It changes nothing. It reports valid if and only if the token is accepted, and then gives the e-mail of the user of a live row carrying the token. |
| ResetService.PasswordResetService.RequestPasswordReset | services/password_reset_service.py:26-68 | An unknown address (or a user with id 0) gets the same success reply as a delivered link, and no row is written. For a user, a well-formed token is stored by the DELETE then INSERT outcome. A failed store or a failed delivery is an error reply. A stored token stands for the user even when delivery fails. A directory failure is an internal error that changes nothing. |
| ResetService.PasswordResetService.ResetPassword | services/password_reset_service.py:70-113 | Checks run in order: invalid token, then a password under 8 characters, then a failed update. Each of these gives its error reply and changes nothing, so a failed update does not use up the token. On success the user's hash becomes the hash of the new password, and the token is marked used when that UPDATE goes through, after which the token is rejected. |
| ResetService.ResetLengthRuleIsValidatorRule | services/password_reset_service.py:89 | The reset's own length check refuses a password exactly when `validate_password` (utils/validators.py:14-15) refuses it. |
| ResetService.ResetTwice | services/password_reset_service.py:83-109 | After a reset that succeeded and marked the token, a second reset with the same token is refused as invalid and changes nothing. The tables end as after the first reset: the token marked used and the user's hash set from the first password. |
| ResetService.ReplayAfterFailedMark | services/password_reset_service.py:95-109 | When the first reset succeeds but marking the token fails, the result of line 100 is ignored. A second reset with the same token and a long enough password then succeeds as well. When its marking also fails, the token table is left exactly as it was. |
| Validators.ValidateEmail | utils/validators.py:9-11 | The regular expression as a match: some '@' and some later '.' split the address into a local part, a domain and a top-level part of at least two letters, each over its own character class. Python's `$` also allows one final newline. `EmailShapeMatchesPattern` and `ValidEmailHasOneAt` state its properties. The module-level `validate_email` (lines 45-47) is the same predicate. |
| Validators.EmailShapeMatchesPattern | utils/validators.py:9-11 | The backtracking match of the pattern accepts a string if and only if one pass does: split at the first '@' and the last '.' and check the three parts. |
| Validators.ValidEmailHasOneAt | utils/validators.py:9-11 | Every accepted address holds exactly one '@'. |
| Validators.ValidateEmailTrailingNewline | utils/validators.py:10-11 | Python's `$` lets one final newline through: s + "\n" is accepted if and only if s matches. A match never ends in a newline. |
| Validators.ValidatePassword | utils/validators.py:14-15 | A password passes exactly when it has at least 8 characters. `ResetLengthRuleIsValidatorRule` ties it to the reset's own check. The module-level `validate_password` (lines 59-61) is the same predicate. |
| Validators.StripBy | utils/validators.py:19 | `str.strip` gives a string no longer than its input that neither starts nor ends with a character to be removed. `Strip` is the instance for Python's whitespace. |
| Validators.StripBySlice | utils/validators.py:19 | The stripped string is the slice of the input between a run of leading and a run of trailing removed characters. |
| Validators.StripByIdempotent | utils/validators.py:28-32 | Stripping twice gives the same as stripping once, so checking the stripped name is the same as checking the raw name. |
| Validators.Strip | utils/validators.py:28-29 | `str.strip()` is `StripBy` for the characters `str.isspace` accepts. `StripBy`, `StripBySlice` and `StripByIdempotent` state its properties. It is also the `strip()` of `validate_name` (line 19). |
| Validators.ValidateName | utils/validators.py:18-19 | A name passes when it still has at least 2 characters after stripping whitespace. `ValidateNameSpec` states the same rule without stripping. The module-level `validate_name` (lines 64-66) is the same predicate. |
| Validators.ValidateNameSpec | utils/validators.py:18-19 | A name is accepted if and only if it holds at least two non-whitespace characters. |
| Validators.ErrorList | utils/validators.py:26-41 | The error list is built by three `Report` steps in the source's order, name, email, password. Each step appends its message when its field fails. `ErrorListSpec` states the result. |
| Validators.ErrorListSpec | utils/validators.py:26-41 | Each message is reported exactly when its field fails. The messages come in the order name, email, password, without repeats. The list is empty exactly when all three fields pass. |
| Validators.FieldTests | utils/validators.py:32-38 | The emptiness tests add nothing: each "empty or fails" test agrees with the validator on the raw field. |
| Validators.ValidateUserData | utils/validators.py:21-41 | A payload that is not a dictionary is an error with the fixed message. Otherwise the error list is the one for the verdicts on the stripped name, the stripped e-mail and the raw password. |
| Validators.UserDataIsValid | utils/validators.py:50-56 | True if and only if the payload is a dictionary whose name, e-mail and password all pass. |

## Left out

- E-mail delivery (services/email_service.py) is a boolean parameter: whether the reset link was delivered. The confirmation mail after a reset is left out, because its result is ignored.
- HTTP routing and JSON replies (routes/auth.py) are left out: they only carry arguments and replies. The service's reply dictionaries are the `Reply` and `TokenStatus` datatypes.
- Security logging is left out: it changes no state the model keeps.
- Storage failures are boolean parameters:
  - `directoryOk` for the `find_by_email` read;
  - `deleteOk` and `insertOk` for the two statements that store a token;
  - `updateOk` for the password UPDATE;
  - `markOk` for the UPDATE that marks a token used;
  - a single `storageOk` for cleanup's COUNT and DELETE together. A failure in either returns 0, and the DELETE either never runs or fails, so nothing is deleted.

  A failing SELECT in a token check is left out, because the source turns it into the same "no user" answer as an unknown token.
- `User.find_by_email` picks some user with that exact address. models/user.py is not part of this model, so which user it returns when several share an address is left open.
- `secrets.choice` is a nondeterministic pick from the 62 letters and digits. Uniformity and unguessability are not modelled.
- werkzeug's `generate_password_hash` is an uninterpreted function fixed when the service is built. Its random salt is not modelled.
- Timestamps are whole seconds, and the clock is a field. Cleanup's comparison of ISO-8601 strings is an integer comparison here.
- Concurrency is left out, because the model is sequential. That includes the window between checking a token and marking it used, and the missing transaction around DELETE and INSERT as seen by other requests.
- `ON DELETE CASCADE` is left out, since no operation of the service deletes users. The joined lookup still ignores rows whose user is missing.
- The module-level `password_reset_service` instance is left out.
- Validators.ValidateUserData: a payload field that is not a string, which raises in `strip()`, is not modelled. Fields are strings, and missing fields default to "".
- Characters are Unicode scalar values. Python strings that hold lone surrogate code points are not modelled.
