# Signup route of a minimal credential service, in Dafny

This project models the `POST /signup` handler of an Express/MySQL service.
The handler does four things in order:

1. It runs three express-validator chains, one per body field:
   - the username is trimmed, must be non-empty and must be at least 4 characters;
   - the email must pass `isEmail`;
   - the password must be at least 8 characters.
   Every failing rule adds its own error, and any error gives a 400 with the error list.
2. It selects the rows whose username or email matches. Two `some(..)` flags are computed
   over those rows, and one of three conflict messages is chosen by a fixed priority.
3. It hashes the password with a fresh salt and inserts exactly one row
   `(username, email, hash)`.
4. It answers 201 with a fixed message, or 500 if any awaited call throws.

The handler is a class, `Signup.SignupHandler`, that owns the `users` table as a
`seq<Row>` field. Its method `Signup` runs the steps with the source's early
returns, and its contract ties the answer and the new table to the pure transition
`Signup.SignupTransition`. The properties are lemmas about that transition and
about the pure pieces it is built from:

- `JsString`: the `trim()` sanitizer.
- `Validators`: the collect-all validation chains.
- `UsersTable`: the SELECT filter, `some`, the conflict classification and table uniqueness.

The external pieces are parameters, bundled in `Signup.Collaborators`:

- validator.js `isEmail`, a predicate on strings;
- `bcrypt.hash(password, salt)`, a function of the password and the salt;
- the store's `=` on strings, `keyEquals`.

The salt drawn by `bcrypt.genSalt()` is a parameter of each request. Which awaited
calls throw is also a parameter, `failing: set<Step>`: a step in the set throws
if the handler reaches it.

About the store's `=`: MySQL's comparison depends on the collation. The model
assumes only that it is reflexive, and only where a lemma needs it. This keeps one
behaviour of the code reachable: the SELECT can return rows in which neither
`===` flag is set, and the handler then goes on to insert.

Two behaviours of the code worth noting:

- A failed INSERT, including a rejection by a unique index on a concurrent
  duplicate, is answered 500 `Internal Server Error`. It is not reported as a conflict.
- There is no login route, no password verification and no token issuing in
  `routes/userRoutes.js`, so none is modelled.

## Model

| member | source | states |
|---|---|---|
| `JsString.TrimStart` | routes/userRoutes.js:9 | the result is the suffix of the input that starts at its first non-whitespace character; everything stripped is whitespace |
| `JsString.TrimEnd` | routes/userRoutes.js:9 | the result is the prefix of the input that ends at its last non-whitespace character; everything stripped is whitespace |
| `JsString.Trim` | routes/userRoutes.js:9 | the trimmed username is empty exactly when the input is all whitespace; otherwise it starts and ends with a non-whitespace character |
| `JsString.TrimKeepsMiddle` | routes/userRoutes.js:9 | the trimmed value is a slice of the input with only whitespace before and after it, so trimming removes the surrounding whitespace and nothing else |
| `JsString.TrimKeepsUnpadded` | routes/userRoutes.js:9 | a value that neither starts nor ends with whitespace (such as "alice") is left unchanged |
| `JsString.TrimIgnoresPadding` | routes/userRoutes.js:9 | whitespace added around a value never changes its trimmed form |
| `Validators.UsernameChain` | routes/userRoutes.js:9 | the username chain reports nothing exactly when the trimmed username has at least 4 characters |
| `Validators.UsernameChainReports` | routes/userRoutes.js:9 | "required" is reported exactly when the trimmed username is empty and "at least 4" exactly when it is shorter than 4, so both run (no `bail()`); no other rule is reported |
| `Validators.EmailChain` | routes/userRoutes.js:12 | the email chain reports nothing exactly when `isEmail` accepts the email |
| `Validators.EmailChainReports` | routes/userRoutes.js:12 | "Invalid email address" is reported exactly when `isEmail` rejects the email, and no other rule is |
| `Validators.PasswordChain` | routes/userRoutes.js:15 | the password chain reports nothing exactly when the password has at least 8 characters |
| `Validators.PasswordChainReports` | routes/userRoutes.js:15 | "at least 8" is reported exactly when the password is shorter than 8 characters, and no other rule is |
| `Validators.Validate` | routes/userRoutes.js:9-22 | the error list is empty exactly for acceptable bodies: a trimmed username of at least 4 characters, an email `isEmail` accepts, a password of at least 8 characters |
| `Validators.EachFailingRuleReported` | routes/userRoutes.js:9-23 | collect-all: each of the four rules is reported in the final list exactly when it fails, whatever the other rules say |
| `Validators.ErrorsCarryCheckedValues` | routes/userRoutes.js:9-23 | every error sits under the field its rule checks (both username rules under `username`, the email rule under `email`, the password rule under `password`) and carries the value that rule checked: the trimmed username, the email as sent, the password as sent |
| `Validators.ErrorsInRuleOrder` | routes/userRoutes.js:9-23 | the errors come in chain order (required, at least 4, email, at least 8), so each failing rule gives exactly one error |
| `Validators.AcceptedUsernameIsTrimmed` | routes/userRoutes.js:9 | an accepted username, as stored, has at least 4 characters and no whitespace at either end |
| `Validators.CollectsEveryFailure` | routes/userRoutes.js:9-23 | a too-short non-empty username, an invalid email and a too-short password give exactly three errors, in chain order, not just the first |
| `Validators.BlankUsernameFailsBothRules` | routes/userRoutes.js:9 | an empty or whitespace-only username yields two errors on path `username` for the empty trimmed value: first the rule whose message is "Username is required", then the one whose message is "Username must be at least 4 characters" |
| `Validators.PaddingNeverCounts` | routes/userRoutes.js:9 | leading and trailing whitespace on the username never changes the validation result, so it never counts toward the 4-character minimum |
| `UsersTable.Some` | routes/userRoutes.js:32-33 | `some` is true exactly when some row passes the test |
| `UsersTable.Classify` | routes/userRoutes.js:32-41 | both taken exactly when the rows hold the username and the email (possibly in different rows); email taken when only the email is held; username taken when only the username is held; none otherwise |
| `UsersTable.Select` | routes/userRoutes.js:29 | the returned rows are exactly the table rows whose username or email matches under the store's comparison |
| `UsersTable.ClassifySelected` | routes/userRoutes.js:29-33 | with a reflexive store comparison, classifying the SELECT's rows gives the same verdict as classifying the whole table |
| `UsersTable.SelectedRowsComeFromTable` | routes/userRoutes.js:29-33 | whatever the store's comparison, if the table holds neither identifier the returned rows set neither flag |
| `UsersTable.Lookup` | routes/userRoutes.js:29-41 | the SELECT plus the guarded flags: with a reflexive comparison the verdict is that of the exact flags over the whole table; a table holding neither identifier never reports a conflict |
| `UsersTable.SeparateRowsReportBoth` | routes/userRoutes.js:32-36 | one row holding the username and another holding the email report "both taken" |
| `UsersTable.AppendKeepsUnique` | routes/userRoutes.js:48 | inserting a row whose username and email the table does not hold keeps usernames and emails pairwise distinct |
| `Signup.Status` | routes/userRoutes.js:23-52 | 201 exactly for a creation, 500 exactly for an internal error, 400 exactly for validation failures and conflicts |
| `Signup.SignupTransition` | routes/userRoutes.js:17-55 | validation fails exactly for unacceptable bodies; the table is unchanged unless an account is created; on creation the answer is "Signed up successfully!" and the table gains exactly the row (trimmed username, email, hash(password, salt)) |
| `Signup.SignupHandler.Insert` | routes/userRoutes.js:48 | the table afterwards is the old table with the one row appended |
| `Signup.SignupHandler.Signup` | routes/userRoutes.js:17-55 | the answer and the new table are those of `SignupTransition` on the old table |
| `Signup.InvalidBodyNeverReachesStore` | routes/userRoutes.js:21-24 | a body that fails validation gets a 400 with its error list, whatever the table or the store's failures, and the table is unchanged |
| `Signup.CreatedExactlyWhenFree` | routes/userRoutes.js:29-49 | with a reflexive store comparison, an account is created exactly when the body is acceptable, no call throws and the table holds neither the trimmed username nor the email |
| `Signup.ConflictFollowsPriority` | routes/userRoutes.js:29-42 | for an acceptable body whose SELECT succeeds, a table holding both gets "Username and email are already taken", only the email "Email already taken", only the username "Username already taken", and the table is unchanged |
| `Signup.InternalErrorExactlyWhenACallThrows` | routes/userRoutes.js:25-52 | with a reflexive store comparison, the answer is 500 "Internal Server Error" exactly when the body is acceptable, some awaited call throws, and either the SELECT throws or the table holds neither the trimmed username nor the email (so genSalt, hash or the INSERT is reached and throws) |
| `Signup.ConflictPrecedesHashing` | routes/userRoutes.js:35-48 | a conflict is decided before bcrypt and the INSERT: its answer and table do not depend on the salt, the hash function or on failures of the later calls |
| `Signup.RowsWithoutFlagsFallThrough` | routes/userRoutes.js:29-49 | when the store's comparison matches a row's username to the request's without `===` equality (a case-insensitive collation, say), the SELECT returns rows, neither flag is set, and the handler inserts the new row and answers 201 |
| `Signup.SeparateRowsReportBothTaken` | routes/userRoutes.js:29-36 | a table whose username and email are held by two different rows answers "Username and email are already taken" and is unchanged |
| `Signup.AnswerHidesAcceptedPassword` | routes/userRoutes.js:45-49 | the answer does not depend on an accepted password, the salt or the hash function, so neither the password nor its hash is sent back |
| `Signup.ShortPasswordIsEchoed` | routes/userRoutes.js:15-23 | a password shorter than 8 characters fails validation, and its error carries the rejected password as its value |
| `Signup.SignupKeepsUnique` | routes/userRoutes.js:29-48 | with a reflexive store comparison, a table without duplicate usernames or emails keeps none after any signup |

## Left out

- `index.js`: process bootstrap only (environment loading, the Express app, the JSON body parser, the `/testing` route, mounting and `listen`).
- Express routing and the `req`/`res` objects. The answer is the `Outcome` datatype, with its status given by `Status`.
- The internals of bcrypt. `genSalt` becomes the `salt` parameter, so salt randomness is not modelled, and `hash` becomes a function parameter.
- The internals of validator.js `isEmail`, which becomes a predicate parameter.
- `Validators.PasswordChain`: validator.js `isLength` does not count the variation selectors U+FE0E and U+FE0F. The model counts every code point of the password.
- `Validators.UsernameChain`: the same `isLength` difference applies to the 4-character rule. The model counts every code point of the trimmed username.
- Body fields that are not strings, or are missing. The model takes three strings.
- Express-validator's `type` and `location` fields of each error object. The model keeps only the path, the value and the message.
- MySQL specifics: the pool, the SQL text and connection handling. The table is a sequence of rows, the store's string comparison is an abstract relation, and a failing query is the `failing` parameter.
- The store's unique indexes, and the race between the SELECT and the INSERT. Concurrency is not modelled, and a single-row INSERT that throws leaves the table unchanged.
- Logging of the caught error with `console.error`.
- Login, password verification and token issuing. The route file has no such code.
